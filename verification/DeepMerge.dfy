/** Configuration values and their recursive merge: `deep-merge` and `load-config` of src/chrondb/config.clj. */
module DeepMerge {
  import opened Wrappers

  /** An EDN value: a map with keyword keys, or anything else, nil included. */
  datatype Value = Map(entries: map<string, Value>) | Leaf(text: string)

  const NIL := Leaf("nil")
  const EMPTY := Map(map[])

  /** `deep-merge` of two values: `merge-with` calls it again on the values of shared keys. */
  function Merge(a: Value, b: Value): Value {
    if a.Map? && b.Map? then
      Map(map k | k in a.entries.Keys + b.entries.Keys ::
            if k !in b.entries then a.entries[k]
            else if k !in a.entries then b.entries[k]
            else Merge(a.entries[k], b.entries[k]))
    else b
  }

  function Fold(values: seq<Value>): Value
    requires values != []
  {
    if |values| == 1 then values[0] else Merge(Fold(values[..|values| - 1]), values[|values| - 1])
  }

  /** The values under one key, in the order of the maps. */
  function ValuesAt(values: seq<Value>, k: string): (at: seq<Value>)
    ensures at != [] <==> exists v :: v in values && v.Map? && k in v.entries
  {
    if values == [] then []
    else
      var last := values[|values| - 1];
      ValuesAt(values[..|values| - 1], k) + if last.Map? && k in last.entries then [last.entries[k]] else []
  }

  function Keys(values: seq<Value>): set<string> {
    set v, k | v in values && v.Map? && k in v.entries :: k
  }

  predicate AllMaps(values: seq<Value>) {
    forall v :: v in values ==> v.Map?
  }

  /** `merge-with`: the values of a key that occurs more than once are combined two at a time. */
  function MergeWith(values: seq<Value>): map<string, Value> {
    map k | k in Keys(values) :: Fold(ValuesAt(values, k))
  }

  /** `deep-merge` of any number of values: if all are maps, each key gets its values combined from left to right;
      otherwise the last argument is the result. */
  function DeepMerge(values: seq<Value>): Value {
    if values == [] then NIL
    else if AllMaps(values) then Map(MergeWith(values))
    else values[|values| - 1]
  }

  // ---------- many arguments ----------

  lemma {:induction false} FoldOfMaps(values: seq<Value>)
    requires values != [] && AllMaps(values)
    ensures Fold(values).Map? && Fold(values).entries.Keys == Keys(values)
  {
    if |values| == 1 {
      assert Keys(values) == values[0].entries.Keys;
    } else {
      var front, last := values[..|values| - 1], values[|values| - 1];
      assert values == front + [last];
      FoldOfMaps(front);
      assert Keys(values) == Keys(front) + last.entries.Keys;
    }
  }

  lemma {:induction false} FoldAtKey(values: seq<Value>, k: string)
    requires values != [] && AllMaps(values) && k in Keys(values)
    ensures Fold(values).Map? && k in Fold(values).entries && Fold(values).entries[k] == Fold(ValuesAt(values, k))
  {
    FoldOfMaps(values);
    var front, last := values[..|values| - 1], values[|values| - 1];
    assert values == front + [last];
    var before, all := ValuesAt(front, k), ValuesAt(values, k);
    if |values| == 1 {
      assert all == [last.entries[k]];
    } else if k in Keys(front) {
      FoldAtKey(front, k);
      if k in last.entries {
        assert all[..|all| - 1] == before;
      } else {
        assert all == before;
      }
    } else {
      FoldOfMaps(front);
      assert before == [] && all == [last.entries[k]];
    }
  }

  /** On maps, merging many at once is merging two at a time from the left. */
  lemma {:induction false} MergingMapsIsAFold(values: seq<Value>)
    requires values != [] && AllMaps(values)
    ensures DeepMerge(values) == Fold(values)
  {
    FoldOfMaps(values);
    var folded, merged := Fold(values).entries, MergeWith(values);
    assert merged.Keys == folded.Keys;
    forall k | k in merged ensures merged[k] == folded[k] {
      FoldAtKey(values, k);
    }
    assert merged == folded;
  }

  /** A fold forgets everything up to the last argument that is not a map. */
  lemma {:induction false} FoldForgets(values: seq<Value>, n: nat)
    requires 0 < n < |values| && !values[n - 1].Map?
    ensures Fold(values) == Fold(values[n..])
  {
    if n == |values| - 1 {
      FoldEndsWithLeaf(values[..n]);
    } else {
      var front := values[..|values| - 1];
      FoldForgets(front, n);
      assert values[n..][..|values| - n - 1] == front[n..];
    }
  }

  lemma {:induction false} FoldEndsWithLeaf(values: seq<Value>)
    requires values != [] && !values[|values| - 1].Map?
    ensures Fold(values) == values[|values| - 1]
  {
  }

  /** With an argument that is not a map the two differ unless the maps after the last such argument merge to the
      last of them. */
  lemma {:induction false} MixedArgumentsAreNotAFold(values: seq<Value>, n: nat)
    requires 0 < n < |values| && !values[n - 1].Map?
    ensures DeepMerge(values) == Fold(values) <==> Fold(values[n..]) == values[|values| - 1]
  {
    FoldForgets(values, n);
    assert values[n - 1] in values;
  }

  /** The smallest such input: the map between the other two arguments is lost by the one and kept by the other. */
  lemma {:induction false} MixedArgumentsCanDiffer()
    ensures var values := [NIL, Map(map["x" := Leaf("1")]), EMPTY];
            && DeepMerge(values) == EMPTY && Fold(values) == Map(map["x" := Leaf("1")])
            && DeepMerge(values) != Fold(values)
  {
    var kept := Map(map["x" := Leaf("1")]);
    var values := [NIL, kept, EMPTY];
    assert values[0] == NIL && NIL in values;
    assert values[..2] == [NIL, kept] && [NIL, kept][..1] == [NIL];
    assert Fold([NIL, kept]) == Merge(NIL, kept) == kept;
    assert Fold(values) == Merge(Fold(values[..2]), EMPTY);
    EmptyIsIdentity(kept);
    assert "x" in kept.entries;
  }

  // ---------- looking up a path ----------

  function Lookup(v: Value, path: seq<string>): Option<Value> {
    if path == [] then Some(v)
    else if v.Map? && path[0] in v.entries then Lookup(v.entries[path[0]], path[1..])
    else None
  }

  /** A proper prefix of the path leads to something that is not a map. */
  predicate Blocked(v: Value, path: seq<string>) {
    path != [] && (!v.Map? || (path[0] in v.entries && Blocked(v.entries[path[0]], path[1..])))
  }

  /** The right argument decides first, the left one is asked only where the right one says nothing. */
  lemma {:induction false} LookupPrefersTheRight(a: Value, b: Value, path: seq<string>)
    ensures Lookup(Merge(a, b), path) ==
              match Lookup(b, path)
              case Some(y) => (match Lookup(a, path) case Some(x) => Some(Merge(x, y)) case None => Some(y))
              case None => if Blocked(b, path) then None else Lookup(a, path)
  {
    if path != [] && a.Map? && b.Map? && path[0] in a.entries && path[0] in b.entries {
      LookupPrefersTheRight(a.entries[path[0]], b.entries[path[0]], path[1..]);
    }
  }

  // ---------- algebra ----------

  lemma {:induction false} EmptyIsIdentity(v: Value)
    requires v.Map?
    ensures Merge(EMPTY, v) == v && Merge(v, EMPTY) == v
  {
  }

  lemma {:induction false} MergeIsIdempotent(v: Value)
    ensures Merge(v, v) == v
  {
    if v.Map? {
      forall k | k in v.entries ensures Merge(v, v).entries[k] == v.entries[k] {
        MergeIsIdempotent(v.entries[k]);
      }
    }
  }

  /** A path where the middle one of three arguments is not a map but both others are. */
  predicate Clash(a: Value, b: Value, c: Value, path: seq<string>) {
    && Lookup(a, path).Some? && Lookup(a, path).value.Map?
    && Lookup(b, path).Some? && !Lookup(b, path).value.Map?
    && Lookup(c, path).Some? && Lookup(c, path).value.Map?
  }

  /** The same, level by level: at a clash the left map must add nothing to the right one. */
  predicate Compatible(a: Value, b: Value, c: Value) {
    a.Map? && c.Map? ==>
      if !b.Map? then Merge(a, c) == c
      else forall k :: k in a.entries && k in b.entries && k in c.entries ==>
             Compatible(a.entries[k], b.entries[k], c.entries[k])
  }

  lemma {:induction false} AssociativeIfCompatible(a: Value, b: Value, c: Value)
    ensures Merge(Merge(a, b), c) == Merge(a, Merge(b, c)) <==> Compatible(a, b, c)
  {
    if a.Map? && b.Map? && c.Map? {
      var left, right := Merge(Merge(a, b), c), Merge(a, Merge(b, c));
      assert left.entries.Keys == right.entries.Keys;
      forall k | k in left.entries
        ensures left.entries[k] == right.entries[k] <==>
                (k in a.entries && k in b.entries && k in c.entries ==>
                   Compatible(a.entries[k], b.entries[k], c.entries[k]))
      {
        if k in a.entries && k in b.entries && k in c.entries {
          AssociativeIfCompatible(a.entries[k], b.entries[k], c.entries[k]);
        }
      }
    }
  }

  predicate AddsNothingAt(a: Value, c: Value, path: seq<string>)
    requires Lookup(a, path).Some? && Lookup(c, path).Some?
  {
    Merge(Lookup(a, path).value, Lookup(c, path).value) == Lookup(c, path).value
  }

  lemma {:induction false} CompatibleByPaths(a: Value, b: Value, c: Value)
    ensures Compatible(a, b, c) <==> forall path :: Clash(a, b, c, path) ==> AddsNothingAt(a, c, path)
  {
    if Compatible(a, b, c) {
      forall path | Clash(a, b, c, path) ensures AddsNothingAt(a, c, path) {
        CompatibleAtPath(a, b, c, path);
      }
    } else if b.Map? {
      var k :| k in a.entries && k in b.entries && k in c.entries
               && !Compatible(a.entries[k], b.entries[k], c.entries[k]);
      var x, y, z := a.entries[k], b.entries[k], c.entries[k];
      CompatibleByPaths(x, y, z);
      var rest :| Clash(x, y, z, rest) && !AddsNothingAt(x, z, rest);
      assert ([k] + rest)[1..] == rest;
      assert Clash(a, b, c, [k] + rest) && !AddsNothingAt(a, c, [k] + rest);
    } else {
      assert Clash(a, b, c, []) && !AddsNothingAt(a, c, []);
    }
  }

  lemma {:induction false} CompatibleAtPath(a: Value, b: Value, c: Value, path: seq<string>)
    requires Compatible(a, b, c) && Clash(a, b, c, path)
    ensures AddsNothingAt(a, c, path)
    decreases |path|
  {
    if path != [] {
      CompatibleAtPath(a.entries[path[0]], b.entries[path[0]], c.entries[path[0]], path[1..]);
    }
  }

  /** Merging is associative on three arguments exactly if, wherever they clash, the left map adds nothing to the
      right one; in particular if no path is a map in one argument and something else in another. */
  lemma {:induction false} AssociativeIff(a: Value, b: Value, c: Value)
    ensures Merge(Merge(a, b), c) == Merge(a, Merge(b, c)) <==>
            forall path :: Clash(a, b, c, path) ==> AddsNothingAt(a, c, path)
  {
    AssociativeIfCompatible(a, b, c);
    CompatibleByPaths(a, b, c);
  }

  /** A map adds nothing to another exactly if the other has, or blocks, every path of the first. */
  lemma {:induction false} AddsNothingIff(x: Value, z: Value)
    requires x.Map? && z.Map?
    ensures Merge(x, z) == z <==>
            forall path :: Lookup(x, path).Some? ==> Lookup(z, path).Some? || Blocked(z, path)
  {
    if Merge(x, z) == z {
      forall path | Lookup(x, path).Some? ensures Lookup(z, path).Some? || Blocked(z, path) {
        LookupPrefersTheRight(x, z, path);
      }
    } else {
      var path := MissingPath(x, z);
    }
  }

  lemma {:induction false} MissingPath(x: Value, z: Value) returns (path: seq<string>)
    requires x.Map? && z.Map? && Merge(x, z) != z
    ensures Lookup(x, path).Some? && Lookup(z, path).None? && !Blocked(z, path)
  {
    if k :| k in x.entries && k !in z.entries {
      path := [k];
    } else {
      assert Merge(x, z).entries.Keys == z.entries.Keys;
      var k :| k in z.entries && Merge(x, z).entries[k] != z.entries[k];
      var rest := MissingPath(x.entries[k], z.entries[k]);
      path := [k] + rest;
      assert path[1..] == rest;
    }
  }

  /** And in general it is not. */
  lemma {:induction false} MergeIsNotAssociative()
    ensures var a, b, c := Map(map["k" := Map(map["x" := Leaf("1")])]), Map(map["k" := NIL]), Map(map["k" := EMPTY]);
            Merge(Merge(a, b), c) != Merge(a, Merge(b, c))
  {
    var a, b, c := Map(map["k" := Map(map["x" := Leaf("1")])]), Map(map["k" := NIL]), Map(map["k" := EMPTY]);
    EmptyIsIdentity(a.entries["k"]);
    assert Merge(Merge(a, b), c).entries["k"] == EMPTY;
    assert Merge(b, c).entries["k"] == EMPTY;
    assert Merge(a, Merge(b, c)).entries["k"] == a.entries["k"];
    assert "x" in a.entries["k"].entries;
  }

  // ---------- loading ----------

  datatype ConfigFile = Missing | Unreadable | Parsed(value: Value)

  /** `load-config` with a path: a file that cannot be used leaves the defaults. */
  function LoadConfig(defaults: Value, file: ConfigFile): Value {
    if file.Parsed? then DeepMerge([defaults, file.value]) else defaults
  }

  /** A file that is missing or cannot be read changes nothing at any path. */
  lemma {:induction false} UnusableFileIsIgnored(defaults: Value, file: ConfigFile, path: seq<string>)
    requires file.Missing? || file.Unreadable?
    ensures LoadConfig(defaults, file) == defaults
    ensures Lookup(LoadConfig(defaults, file), path) == Lookup(defaults, path)
  {
  }

  /** A file that holds a map overrides the defaults path by path; a file that holds anything else (an empty file
      reads as nil) replaces them altogether. */
  lemma {:induction false} FileOverDefaults(defaults: Value, file: Value, path: seq<string>)
    requires defaults.Map?
    ensures LoadConfig(defaults, Parsed(file)) == Merge(defaults, file)
    ensures file.Map? && Lookup(file, path).None? && !Blocked(file, path) ==>
              Lookup(LoadConfig(defaults, Parsed(file)), path) == Lookup(defaults, path)
    ensures Lookup(file, path).Some? && !Lookup(file, path).value.Map? ==>
              Lookup(LoadConfig(defaults, Parsed(file)), path) == Lookup(file, path)
    ensures !file.Map? ==> LoadConfig(defaults, Parsed(file)) == file
  {
    var values := [defaults, file];
    assert values[..1] == [defaults] && file in values;
    if file.Map? {
      MergingMapsIsAFold(values);
    }
    LookupPrefersTheRight(defaults, file, path);
  }
}
