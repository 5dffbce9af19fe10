/** Keep-newest retention: `enforce-retention` of src/chrondb/backup/scheduler.clj, and what recurring backups leave in
    their directory.
 */
module Retention {
  /** A directory's plain files by name, with their times of last modification. */
  type Files = map<string, int>

  // ---------- the order of removal ----------

  predicate NewestFirst(files: Files, names: seq<string>) {
    && (forall n :: n in names ==> n in files)
    && (forall i, j :: 0 <= i < j < |names| ==> files[names[i]] >= files[names[j]])
  }

  predicate Distinct(names: seq<string>) {
    forall i, j :: 0 <= i < j < |names| ==> names[i] != names[j]
  }

  /** Places a name before the first one that is not newer; equal times keep their order. */
  function Insert(files: Files, name: string, sorted: seq<string>): seq<string>
    requires name in files && forall n :: n in sorted ==> n in files
  {
    if sorted == [] || files[name] >= files[sorted[0]] then [name] + sorted
    else [sorted[0]] + Insert(files, name, sorted[1..])
  }

  /** `sort-by` last modification, newest first, stably. */
  function SortNewestFirst(files: Files, listing: seq<string>): (sorted: seq<string>)
    requires forall n :: n in listing ==> n in files
    ensures forall n :: n in sorted <==> n in listing
  {
    if listing == [] then []
    else
      var rest := SortNewestFirst(files, listing[1..]);
      InsertAdds(files, listing[0], rest);
      Insert(files, listing[0], rest)
  }

  lemma {:induction false} InsertAdds(files: Files, name: string, sorted: seq<string>)
    requires name in files && forall n :: n in sorted ==> n in files
    ensures forall n :: n in Insert(files, name, sorted) <==> n == name || n in sorted
    ensures Distinct(sorted) && name !in sorted ==> Distinct(Insert(files, name, sorted))
  {
    if sorted != [] && files[name] < files[sorted[0]] {
      var rest := sorted[1..];
      assert sorted == [sorted[0]] + rest;
      InsertAdds(files, name, rest);
      if Distinct(sorted) && name !in sorted {
        assert sorted[0] !in rest;
        ConsIsDistinct(sorted[0], Insert(files, name, rest));
      }
    } else if Distinct(sorted) && name !in sorted {
      ConsIsDistinct(name, sorted);
    }
  }

  lemma {:induction false} ConsIsDistinct(first: string, rest: seq<string>)
    requires Distinct(rest) && first !in rest
    ensures Distinct([first] + rest)
  {
  }

  /** A directory listing has each name once, and so has its sorted form. */
  lemma {:induction false} SortKeepsDistinct(files: Files, listing: seq<string>)
    requires Distinct(listing) && forall n :: n in listing ==> n in files
    ensures Distinct(SortNewestFirst(files, listing))
  {
    if listing != [] {
      SortKeepsDistinct(files, listing[1..]);
      InsertAdds(files, listing[0], SortNewestFirst(files, listing[1..]));
    }
  }

  lemma {:induction false} ConsKeepsOrder(files: Files, first: string, rest: seq<string>)
    requires first in files && NewestFirst(files, rest) && forall n :: n in rest ==> files[n] <= files[first]
    ensures NewestFirst(files, [first] + rest)
  {
  }

  lemma {:induction false} HeadIsNewest(files: Files, sorted: seq<string>)
    requires NewestFirst(files, sorted) && sorted != []
    ensures NewestFirst(files, sorted[1..])
    ensures forall n :: n in sorted ==> n in files && files[n] <= files[sorted[0]]
  {
  }

  lemma {:induction false} InsertKeepsOrder(files: Files, name: string, sorted: seq<string>)
    requires name in files && NewestFirst(files, sorted)
    ensures NewestFirst(files, Insert(files, name, sorted))
  {
    if sorted != [] {
      HeadIsNewest(files, sorted);
      if files[name] < files[sorted[0]] {
        InsertKeepsOrder(files, name, sorted[1..]);
        InsertAdds(files, name, sorted[1..]);
        ConsKeepsOrder(files, sorted[0], Insert(files, name, sorted[1..]));
      } else {
        ConsKeepsOrder(files, name, sorted);
      }
    }
  }

  lemma {:induction false} SortIsNewestFirst(files: Files, listing: seq<string>)
    requires forall n :: n in listing ==> n in files
    ensures NewestFirst(files, SortNewestFirst(files, listing))
  {
    if listing != [] {
      SortIsNewestFirst(files, listing[1..]);
      InsertKeepsOrder(files, listing[0], SortNewestFirst(files, listing[1..]));
    }
  }

  // ---------- one run ----------

  /** `listing` is the directory listing: each plain file once, in an order of the system's choosing. */
  ghost predicate Lists(files: Files, listing: seq<string>) {
    && Distinct(listing)
    && (forall n :: n in listing <==> n in files)
  }

  class Directory {
    var files: Files

    constructor (files: Files)
      ensures this.files == files
    {
      this.files := files;
    }

    /** `deletable` says which deletions succeed; the others are passed over. */
    method EnforceRetention(listing: seq<string>, retention: int, deletable: string -> bool)
      requires Lists(files, listing)
      modifies this
      ensures files == old(files) - Removed(old(files), listing, retention, deletable)
    {
      ghost var before := files;
      var sorted := SortNewestFirst(files, listing);
      if |sorted| > retention {
        var excess := if retention < 0 then sorted else sorted[retention..];
        for k := 0 to |excess|
          invariant files == before - Deleted(excess[..k], deletable)
        {
          DeletedGrows(excess, k, deletable);
          TakenAway(before, Deleted(excess[..k], deletable), excess[k]);
          if deletable(excess[k]) {
            files := files - {excess[k]};
          }
        }
        assert excess[..|excess|] == excess;
        assert excess == Excess(before, listing, retention);
      } else {
        assert Deleted([], deletable) == {};
        assert Excess(before, listing, retention) == [];
      }
    }
  }

  function Deleted(names: seq<string>, deletable: string -> bool): set<string> {
    set n | n in names && deletable(n)
  }

  lemma {:induction false} TakenAway(files: Files, gone: set<string>, name: string)
    ensures files - gone - {name} == files - (gone + {name})
    ensures files - {} == files && files - (gone + {}) == files - gone
  {
    assert gone + {} == gone;
  }

  lemma {:induction false} DeletedGrows(names: seq<string>, k: nat, deletable: string -> bool)
    requires k < |names|
    ensures Deleted(names[..k + 1], deletable)
         == Deleted(names[..k], deletable) + if deletable(names[k]) then {names[k]} else {}
  {
    assert names[..k + 1] == names[..k] + [names[k]];
  }

  /** The names past the first `retention`, newest first. */
  function Excess(files: Files, listing: seq<string>, retention: int): seq<string>
    requires Lists(files, listing)
  {
    var sorted := SortNewestFirst(files, listing);
    if retention < 0 then sorted else if retention < |sorted| then sorted[retention..] else []
  }

  function Removed(files: Files, listing: seq<string>, retention: int, deletable: string -> bool): set<string>
    requires Lists(files, listing)
  {
    Deleted(Excess(files, listing, retention), deletable)
  }

  // ---------- what one run keeps ----------

  function All(): string -> bool {
    n => true
  }

  function Names(names: seq<string>): set<string> {
    set n | n in names
  }

  lemma {:induction false} DistinctCount(names: seq<string>)
    requires Distinct(names)
    ensures |Names(names)| == |names|
  {
    if names != [] {
      var front, last := names[..|names| - 1], names[|names| - 1];
      DistinctCount(front);
      assert Names(names) == Names(front) + {last};
      assert last !in front;
    }
  }

  lemma {:induction false} CountAtMost(names: seq<string>)
    ensures |Names(names)| <= |names|
  {
    if names != [] {
      CountAtMost(names[1..]);
      assert Names(names) == {names[0]} + Names(names[1..]);
    }
  }

  /** The names that stay when every deletion succeeds. */
  function Kept(files: Files, listing: seq<string>, retention: int): seq<string>
    requires Lists(files, listing)
  {
    var sorted := SortNewestFirst(files, listing);
    if retention < 0 then [] else if retention < |sorted| then sorted[..retention] else sorted
  }

  lemma {:induction false} SortCounts(files: Files, listing: seq<string>)
    requires Lists(files, listing)
    ensures Distinct(SortNewestFirst(files, listing)) && |SortNewestFirst(files, listing)| == |files|
  {
    var sorted := SortNewestFirst(files, listing);
    SortKeepsDistinct(files, listing);
    DistinctCount(sorted);
    assert Names(sorted) == files.Keys;
  }

  lemma {:induction false} SplitIsDisjoint(names: seq<string>, k: nat)
    requires Distinct(names) && k <= |names|
    ensures Distinct(names[..k])
    ensures forall n :: n in names ==> (n in names[..k] <==> n !in names[k..])
  {
  }

  lemma {:induction false} KeptIsWhatRemains(files: Files, listing: seq<string>, retention: int)
    requires Lists(files, listing)
    ensures Distinct(Kept(files, listing, retention))
    ensures (files - Removed(files, listing, retention, All())).Keys == Names(Kept(files, listing, retention))
  {
    SortCounts(files, listing);
    if 0 <= retention < |SortNewestFirst(files, listing)| {
      SplitIsDisjoint(SortNewestFirst(files, listing), retention);
    }
  }

  lemma {:induction false} FrontIsNewer(files: Files, sorted: seq<string>, k: nat, kept: string, gone: string)
    requires NewestFirst(files, sorted) && k <= |sorted| && kept in sorted[..k] && gone in sorted[k..]
    ensures kept in files && gone in files && files[kept] >= files[gone]
  {
  }

  lemma {:induction false} KeptIsNewer(files: Files, listing: seq<string>, retention: int, kept: string, gone: string)
    requires Lists(files, listing)
    requires kept in Kept(files, listing, retention) && gone in files && gone !in Kept(files, listing, retention)
    ensures kept in files && files[kept] >= files[gone]
  {
    var sorted := SortNewestFirst(files, listing);
    SortIsNewestFirst(files, listing);
    SortCounts(files, listing);
    if 0 <= retention < |sorted| {
      SplitIsDisjoint(sorted, retention);
      FrontIsNewer(files, sorted, retention, kept, gone);
    }
  }

  /** If every deletion succeeds, a run keeps min(count, retention) files, none for a retention below 1, changes no
      time, and keeps no file older than one it deletes. */
  lemma {:induction false} KeepsTheNewest(files: Files, listing: seq<string>, retention: int)
    requires Lists(files, listing)
    ensures var after := files - Removed(files, listing, retention, All());
            && |after| == (if retention <= 0 then 0 else if retention < |files| then retention else |files|)
            && (forall n :: n in after ==> n in files && after[n] == files[n])
            && (forall kept, gone :: kept in after && gone in files && gone !in after ==> files[kept] >= files[gone])
  {
    var kept := Kept(files, listing, retention);
    var after := files - Removed(files, listing, retention, All());
    KeptIsWhatRemains(files, listing, retention);
    SortCounts(files, listing);
    DistinctCount(kept);
    assert |after| == |after.Keys|;
    forall k, gone | k in after && gone in files && gone !in after ensures files[k] >= files[gone] {
      assert k in Names(kept) && gone !in Names(kept);
      KeptIsNewer(files, listing, retention, k, gone);
    }
  }

  // ---------- when some deletions fail ----------

  function Newer(files: Files, name: string): set<string>
    requires name in files
  {
    set n | n in files && files[n] > files[name]
  }

  function NotOlder(files: Files, name: string): set<string>
    requires name in files
  {
    set n | n in files && n != name && files[n] >= files[name]
  }

  lemma {:induction false} EarlierNames(files: Files, sorted: seq<string>, i: nat)
    requires NewestFirst(files, sorted) && Distinct(sorted) && (forall n :: n in sorted <==> n in files) && i < |sorted|
    ensures |Names(sorted[..i])| == i
    ensures sorted[i] in files && Newer(files, sorted[i]) <= Names(sorted[..i]) <= NotOlder(files, sorted[i])
  {
    SplitIsDisjoint(sorted, i);
    DistinctCount(sorted[..i]);
    forall n | n in Newer(files, sorted[i]) ensures n in sorted[..i] {
      var j :| 0 <= j < |sorted| && sorted[j] == n;
      assert j < i ==> sorted[..i][j] == n;
    }
  }

  lemma {:induction false} FewerThan(small: set<string>, big: set<string>)
    requires small <= big
    ensures |small| <= |big|
  {
    if small != {} {
      var n :| n in small;
      FewerThan(small - {n}, big - {n});
    }
  }

  lemma {:induction false} ExcessAt(files: Files, listing: seq<string>, retention: int, i: nat)
    requires Lists(files, listing) && i < |SortNewestFirst(files, listing)|
    ensures SortNewestFirst(files, listing)[i] in Excess(files, listing, retention) <==> i >= retention
  {
    var sorted := SortNewestFirst(files, listing);
    SortCounts(files, listing);
    if retention < 0 {
    } else if retention < |sorted| {
      SplitIsDisjoint(sorted, retention);
      assert i >= retention ==> sorted[retention..][i - retention] == sorted[i];
      assert i < retention ==> sorted[..retention][i] == sorted[i];
    }
  }

  /** Whichever deletions succeed: only files that can be deleted go, and only if `retention` others are at least as
      new; and one that can be deleted stays only if fewer than that are newer. */
  lemma {:induction false} GoesOrStays(files: Files, listing: seq<string>, retention: int, deletable: string -> bool,
                                       name: string)
    requires Lists(files, listing) && name in files
    ensures var after := files - Removed(files, listing, retention, deletable);
            && (name in after ==> after[name] == files[name])
            && (name !in after ==> deletable(name) && |NotOlder(files, name)| >= retention)
            && (name in after && deletable(name) ==> |Newer(files, name)| < retention)
  {
    var sorted := SortNewestFirst(files, listing);
    SortIsNewestFirst(files, listing);
    SortCounts(files, listing);
    var i :| 0 <= i < |sorted| && sorted[i] == name;
    ExcessAt(files, listing, retention, i);
    EarlierNames(files, sorted, i);
    FewerThan(Newer(files, name), Names(sorted[..i]));
    FewerThan(Names(sorted[..i]), NotOlder(files, name));
  }

  // ---------- recurring backups ----------

  datatype Output = Output(name: string, time: int)

  predicate StrictlyNewest(files: Files, o: Output) {
    o.name !in files && forall n :: n in files ==> files[n] < o.time
  }

  ghost predicate RunAt(dirs: seq<Files>, outputs: seq<Output>, listings: seq<seq<string>>, retention: int, k: nat)
    requires |dirs| == |outputs| + 1 && |listings| == |outputs| && k < |outputs|
  {
    RunFrom(dirs[k], outputs[k], listings[k], retention, dirs[k + 1])
  }

  /** `dirs[k]` is the directory after k runs, each of which wrote one strictly newest file and then enforced the
      retention, with all deletions succeeding. */
  ghost predicate Runs(dirs: seq<Files>, outputs: seq<Output>, listings: seq<seq<string>>, retention: int) {
    && |dirs| == |outputs| + 1 && |listings| == |outputs|
    && forall k :: 0 <= k < |outputs| ==> RunAt(dirs, outputs, listings, retention, k)
  }

  ghost predicate RunFrom(before: Files, o: Output, listing: seq<string>, retention: int, after: Files) {
    && StrictlyNewest(before, o)
    && Lists(before[o.name := o.time], listing)
    && after == before[o.name := o.time] - Removed(before[o.name := o.time], listing, retention, All())
  }

  function OutputNames(outputs: seq<Output>): seq<string> {
    seq(|outputs|, i requires 0 <= i < |outputs| => outputs[i].name)
  }

  /** Only later outputs are as new as an output. */
  predicate FewRivals(files: Files, outputs: seq<Output>) {
    forall n, j :: n in files && 0 <= j < |outputs| && files[n] >= outputs[j].time ==> n in OutputNames(outputs[j..])
  }

  predicate Has(files: Files, o: Output) {
    o.name in files && files[o.name] == o.time
  }

  /** And the last outputs, up to the retention, are all there. */
  predicate Recent(files: Files, outputs: seq<Output>, retention: int) {
    && FewRivals(files, outputs)
    && forall j :: 0 <= j < |outputs| && j >= |outputs| - retention ==> Has(files, outputs[j])
  }

  lemma {:induction false} WrittenHasFewRivals(before: Files, outputs: seq<Output>, o: Output)
    requires FewRivals(before, outputs) && StrictlyNewest(before, o)
    ensures FewRivals(before[o.name := o.time], outputs + [o])
  {
    var files, all := before[o.name := o.time], outputs + [o];
    forall n, j | n in files && 0 <= j < |all| && files[n] >= all[j].time ensures n in OutputNames(all[j..]) {
      var later := OutputNames(all[j..]);
      assert all[j..][|all| - 1 - j] == o && later[|all| - 1 - j] == o.name;
      if n != o.name {
        var i :| 0 <= i < |OutputNames(outputs[j..])| && OutputNames(outputs[j..])[i] == n;
        assert later[i] == n;
      }
    }
  }

  /** A file that only fewer than `retention` others can rival is not deleted. */
  lemma {:induction false} RecentSurvives(files: Files, listing: seq<string>, retention: int, name: string,
                                          rivals: seq<string>)
    requires retention >= 1 && Lists(files, listing) && name in files
    requires |rivals| <= retention && (forall n :: n in files && files[n] >= files[name] ==> n in rivals)
    ensures name in files - Removed(files, listing, retention, All())
  {
    var after := files - Removed(files, listing, retention, All());
    KeepsTheNewest(files, listing, retention);
    if name !in after {
      OneMoreThan(after.Keys, name, files.Keys, rivals);
    }
  }

  /** A set kept at the cost of `name` is smaller than the files, and smaller than the rivals. */
  lemma {:induction false} OneMoreThan(after: set<string>, name: string, files: set<string>, rivals: seq<string>)
    requires after <= files && name in files && name !in after
    requires after + {name} <= Names(rivals)
    ensures |after| < |files| && |after| < |rivals|
  {
    SubsetCount(after + {name}, files);
    SubsetCount(after + {name}, Names(rivals));
    CountAtMost(rivals);
  }

  lemma {:induction false} SubsetCount(a: set<string>, b: set<string>)
    requires a <= b
    ensures |a| <= |b| && (|a| == |b| ==> a == b)
  {
    assert b == a + (b - a);
  }

  lemma {:induction false} OutputSurvives(files: Files, listing: seq<string>, retention: int, outputs: seq<Output>,
                                          j: nat)
    requires retention >= 1 && Lists(files, listing) && FewRivals(files, outputs)
    requires j < |outputs| && j >= |outputs| - retention && Has(files, outputs[j])
    ensures Has(files - Removed(files, listing, retention, All()), outputs[j])
  {
    var rivals := OutputNames(outputs[j..]);
    assert forall n :: n in files && files[n] >= outputs[j].time ==> n in rivals;
    RecentSurvives(files, listing, retention, outputs[j].name, rivals);
  }

  lemma {:induction false} FewerFilesFewerRivals(files: Files, removed: set<string>, outputs: seq<Output>)
    requires FewRivals(files, outputs)
    ensures FewRivals(files - removed, outputs)
  {
  }

  lemma {:induction false} RunIsBounded(files: Files, listing: seq<string>, retention: int)
    requires retention >= 1 && Lists(files, listing)
    ensures |files - Removed(files, listing, retention, All())| <= retention
  {
    KeepsTheNewest(files, listing, retention);
  }

  lemma {:induction false} WrittenHas(before: Files, outputs: seq<Output>, o: Output, retention: int, j: nat)
    requires Recent(before, outputs, retention) && StrictlyNewest(before, o)
    requires j < |outputs + [o]| && j >= |outputs + [o]| - retention
    ensures Has(before[o.name := o.time], (outputs + [o])[j])
  {
    assert j < |outputs| ==> Has(before, outputs[j]);
  }

  lemma {:induction false} RunIsRecent(before: Files, outputs: seq<Output>, o: Output, listing: seq<string>,
                                       retention: int, after: Files)
    requires retention >= 1 && Recent(before, outputs, retention) && RunFrom(before, o, listing, retention, after)
    ensures Recent(after, outputs + [o], retention) && |after| <= retention
  {
    var files, all := before[o.name := o.time], outputs + [o];
    WrittenHasFewRivals(before, outputs, o);
    FewerFilesFewerRivals(files, Removed(files, listing, retention, All()), all);
    RunIsBounded(files, listing, retention);
    forall j: nat | j < |all| && j >= |all| - retention ensures Has(after, all[j]) {
      WrittenHas(before, outputs, o, retention, j);
      OutputSurvives(files, listing, retention, all, j);
    }
  }

  lemma {:induction false} NothingIsRecent(files: Files, retention: int)
    ensures Recent(files, [], retention)
  {
  }

  lemma {:induction false} RunsAreRecent(dirs: seq<Files>, outputs: seq<Output>, listings: seq<seq<string>>,
                                         retention: int, k: nat)
    requires retention >= 1 && Runs(dirs, outputs, listings, retention) && k <= |outputs|
    ensures Recent(dirs[k], outputs[..k], retention) && (k > 0 ==> |dirs[k]| <= retention)
  {
    if k > 0 {
      RunsAreRecent(dirs, outputs, listings, retention, k - 1);
      var i := k - 1;
      var earlier, o := outputs[..i], outputs[i];
      assert outputs[..k] == earlier + [o];
      assert RunAt(dirs, outputs, listings, retention, i);
      RunIsRecent(dirs[i], earlier, o, listings[i], retention, dirs[k]);
    } else {
      NothingIsRecent(dirs[0], retention);
      assert outputs[..0] == [];
    }
  }

  lemma {:induction false} OutputsAreDistinct(dirs: seq<Files>, outputs: seq<Output>, listings: seq<seq<string>>,
                                              retention: int, k: nat)
    requires retention >= 1 && Runs(dirs, outputs, listings, retention) && retention <= k <= |outputs|
    ensures Distinct(OutputNames(outputs[k - retention..k]))
  {
    forall i, j | k - retention <= i < j < k ensures outputs[i].name != outputs[j].name {
      RunsAreRecent(dirs, outputs, listings, retention, j);
      assert outputs[..j][i] == outputs[i];
      assert RunAt(dirs, outputs, listings, retention, j);
    }
    var last := outputs[k - retention..k];
    forall i, j | 0 <= i < j < |last| ensures OutputNames(last)[i] != OutputNames(last)[j] {
      assert last[i] == outputs[k - retention + i] && last[j] == outputs[k - retention + j];
    }
  }

  /** Whatever the directory held before: after every run it holds at most `retention` files, and once that many
      runs have been made it holds exactly the last `retention` outputs. */
  lemma {:induction false} HoldsTheLastOutputs(dirs: seq<Files>, outputs: seq<Output>, listings: seq<seq<string>>,
                                               retention: int, k: nat)
    requires retention >= 1 && Runs(dirs, outputs, listings, retention) && 1 <= k <= |outputs|
    ensures |dirs[k]| <= retention
    ensures k >= retention ==>
              && dirs[k].Keys == Names(OutputNames(outputs[k - retention..k]))
              && forall j :: k - retention <= j < k ==>
                   outputs[j].name in dirs[k] && dirs[k][outputs[j].name] == outputs[j].time
  {
    RunsAreRecent(dirs, outputs, listings, retention, k);
    if k >= retention {
      var names := OutputNames(outputs[k - retention..k]);
      forall j | k - retention <= j < k
        ensures outputs[j].name in dirs[k] && dirs[k][outputs[j].name] == outputs[j].time
      {
        assert outputs[..k][j] == outputs[j];
      }
      assert forall i :: 0 <= i < |names| ==> names[i] == outputs[k - retention + i].name;
      OutputsAreDistinct(dirs, outputs, listings, retention, k);
      DistinctCount(names);
      SubsetCount(Names(names), dirs[k].Keys);
    }
  }
}
