/** Git bundles as backups: src/chrondb/backup/git.clj over a commit graph.

    JGit is not part of this model; its bundle writer, fetch and ref lookups are given the contracts that
    `BundleWriter.WriteBundle`, `Fetched` and `Repository.ResolveRefs` state.  A commit stands for itself with its tree.
 */
module Bundles {
  import opened Wrappers
  import opened CommitGraph

  // ---------- refspecs ----------

  datatype RefSpec = RefSpec(source: string, destination: Option<string>, force: bool)

  function LastIndexOf(s: string, c: char): (i: Option<nat>)
    ensures i.None? <==> c !in s
    ensures i.Some? ==> i.value < |s| && s[i.value] == c && c !in s[i.value + 1..]
  {
    if s == [] then None
    else if s[|s| - 1] == c then Some(|s| - 1)
    else
      var i := LastIndexOf(s[..|s| - 1], c);
      assert i.Some? ==> s[i.value + 1..] == s[..|s| - 1][i.value + 1..] + [s[|s| - 1]];
      i
  }

  /** A refspec as JGit reads it, with the force flag set in any case. */
  function ParseForced(spec: string): RefSpec {
    var s := if spec != [] && spec[0] == '+' then spec[1..] else spec;
    match LastIndexOf(s, ':')
    case None => RefSpec(s, None, true)
    case Some(i) => RefSpec(s[..i], Some(s[i + 1..]), true)
  }

  /** `->refspec` */
  function ToRefSpec(ref: string): RefSpec {
    ParseForced(if ':' in ref || (ref != [] && ref[0] == '+') then ref else "+" + ref + ":" + ref)
  }

  const ALL_REFS := "refs/*:refs/*"

  /** `build-refspecs` */
  function BuildRefSpecs(refs: seq<string>): (specs: seq<RefSpec>)
    ensures refs == [] ==> specs == [ToRefSpec(ALL_REFS)]
    ensures refs != [] ==> |specs| == |refs| && forall i :: 0 <= i < |refs| ==> specs[i] == ToRefSpec(refs[i])
  {
    if refs == [] then [ToRefSpec(ALL_REFS)] else seq(|refs|, i requires 0 <= i < |refs| => ToRefSpec(refs[i]))
  }

  /** What the star of a refspec's source stands for in an advertised name, if the name matches: any text. */
  function Match(spec: RefSpec, name: string): Option<string> {
    match LastIndexOf(spec.source, '*')
    case None => if name == spec.source then Some("") else None
    case Some(i) =>
      var before, after := spec.source[..i], spec.source[i + 1..];
      if |before| + |after| <= |name| && before <= name && name[|name| - |after|..] == after
      then Some(name[|before|..|name| - |after|])
      else None
  }

  /** The name under which a refspec stores an advertised ref. */
  function Destination(spec: RefSpec, name: string): Option<string> {
    if spec.destination.None? || Match(spec, name).None? then None
    else if '*' !in spec.source then spec.destination
    else match LastIndexOf(spec.destination.value, '*')
      case None => spec.destination
      case Some(j) =>
        Some(spec.destination.value[..j] + Match(spec, name).value + spec.destination.value[j + 1..])
  }

  predicate PlainName(ref: string) {
    ':' !in ref && '*' !in ref && !(ref != [] && ref[0] == '+')
  }

  lemma {:induction false} LastIndexIsUnique(s: string, c: char, i: nat)
    requires i < |s| && s[i] == c && c !in s[i + 1..]
    ensures LastIndexOf(s, c) == Some(i)
  {
  }

  lemma {:induction false} PlainNameParsed(ref: string)
    requires PlainName(ref)
    ensures ToRefSpec(ref) == RefSpec(ref, Some(ref), true)
  {
    var s := ref + ":" + ref;
    assert ("+" + ref + ":" + ref)[1..] == s;
    assert s[|ref| + 1..] == ref && s[..|ref|] == ref;
    LastIndexIsUnique(s, ':', |ref|);
  }

  lemma {:induction false} StarlessDestination(spec: RefSpec, name: string)
    requires '*' !in spec.source
    ensures Destination(spec, name) == if name == spec.source then spec.destination else None
  {
  }

  /** A plain name is stored under itself and nothing else is, by force. */
  lemma {:induction false} PlainNameMapsToItself(ref: string, name: string)
    requires PlainName(ref)
    ensures ToRefSpec(ref) == RefSpec(ref, Some(ref), true)
    ensures Destination(ToRefSpec(ref), name) == if name == ref then Some(ref) else None
  {
    PlainNameParsed(ref);
    StarlessDestination(ToRefSpec(ref), name);
  }

  lemma {:induction false} SplitAt(before: string, c: char, after: string)
    requires c !in after
    ensures var s := before + [c] + after;
            LastIndexOf(s, c) == Some(|before|) && s[..|before|] == before && s[|before| + 1..] == after
  {
    var s := before + [c] + after;
    assert s[|before| + 1..] == after;
    LastIndexIsUnique(s, c, |before|);
  }

  /** The last colon separates source and destination. */
  lemma {:induction false} ColonSeparates(source: string, destination: string, spec: string)
    requires ':' !in destination && spec == source + [':'] + destination && spec[0] != '+'
    ensures ToRefSpec(spec) == RefSpec(source, Some(destination), true)
  {
    SplitAt(source, ':', destination);
    assert spec[|source|] == ':';
  }

  /** A plus sign before it all makes no difference. */
  lemma {:induction false} PlusIsImplied(spec: string)
    requires ':' in spec && spec[0] != '+'
    ensures ToRefSpec(['+'] + spec) == ToRefSpec(spec)
  {
    assert (['+'] + spec)[1..] == spec;
  }

  lemma {:induction false} StarMatches(a: string, b: string, spec: RefSpec, name: string, text: string)
    requires '*' !in b && spec.source == a + ['*'] + b
    ensures Match(spec, name) == Some(text) <==> name == a + text + b
  {
    SplitAt(a, '*', b);
    if name == a + text + b {
      assert name[..|a|] == a && name[|name| - |b|..] == b && name[|a|..|name| - |b|] == text;
    }
    if Match(spec, name) == Some(text) {
      assert name == name[..|a|] + text + name[|name| - |b|..];
    }
  }

  lemma {:induction false} StarReplaced(c: string, d: string, spec: RefSpec, name: string)
    requires '*' !in d && '*' in spec.source && spec.destination == Some(c + ['*'] + d) && Match(spec, name).Some?
    ensures Destination(spec, name) == Some(c + Match(spec, name).value + d)
  {
    SplitAt(c, '*', d);
  }

  /** A star in the source matches any text, which takes the place of the star in the destination. */
  lemma {:induction false} StarCarriesText(a: string, b: string, c: string, d: string, spec: RefSpec, name: string,
                                           to: string)
    requires '*' !in b && '*' !in d && spec.source == a + ['*'] + b && spec.destination == Some(c + ['*'] + d)
    ensures Destination(spec, name) == Some(to) <==> exists text: string :: name == a + text + b && to == c + text + d
  {
    assert spec.source[|a|] == '*';
    if text: string :| name == a + text + b && to == c + text + d {
      StarMatches(a, b, spec, name, text);
      StarReplaced(c, d, spec, name);
    }
    if Destination(spec, name) == Some(to) {
      StarMatches(a, b, spec, name, Match(spec, name).value);
      StarReplaced(c, d, spec, name);
    }
  }

  lemma {:induction false} AllRefsParsed()
    ensures ToRefSpec(ALL_REFS) == RefSpec("refs/*", Some("refs/*"), true)
  {
    assert ALL_REFS[6] == ':' && ALL_REFS[..6] == "refs/*" && ALL_REFS[7..] == "refs/*";
    LastIndexIsUnique(ALL_REFS, ':', 6);
  }

  lemma {:induction false} StarPattern(prefix: string, name: string)
    ensures Destination(RefSpec(prefix + "*", Some(prefix + "*"), true), name)
         == if prefix <= name then Some(name) else None
  {
    var pattern := prefix + "*";
    assert pattern[..|prefix|] == prefix && pattern[|prefix| + 1..] == [];
    LastIndexIsUnique(pattern, '*', |prefix|);
    if prefix <= name {
      assert name[|prefix|..|name| - 0] == name[|prefix|..];
      assert prefix + name[|prefix|..] + [] == name;
    }
  }

  /** The wildcard stores exactly the names under refs/, each under itself: not HEAD. */
  lemma {:induction false} AllRefsMapsRefsToThemselves(name: string)
    ensures Destination(ToRefSpec(ALL_REFS), name) == if "refs/" <= name then Some(name) else None
  {
    AllRefsParsed();
    assert "refs/" + "*" == "refs/*";
    StarPattern("refs/", name);
  }

  /** A leading plus without a colon names no destination: nothing is stored. */
  lemma {:induction false} PlusWithoutColonStoresNothing(ref: string, name: string)
    requires ':' !in ref
    ensures Destination(ToRefSpec("+" + ref), name) == None
  {
  }

  // ---------- repositories and bundles as values ----------

  datatype Repo = Repo(objects: set<Id>, refs: map<string, Id>)

  predicate WellFormed(g: Graph, r: Repo) {
    Closed(g, r.objects) && r.refs.Values <= r.objects
  }

  datatype Bundle = Bundle(refs: map<string, Id>, prerequisites: set<Id>, objects: set<Id>)

  /** What the writer packs: everything the included refs reach, less what the assumed commits reach. */
  function Pack(g: Graph, refs: map<string, Id>, assumed: set<Id>): Bundle
    requires Acyclic(g)
  {
    Bundle(refs, assumed, HistoryOf(g, refs.Values) - HistoryOf(g, assumed))
  }

  /** Some refspec stores `name` under `to`. */
  predicate Sends(specs: seq<RefSpec>, name: string, to: string) {
    exists k :: 0 <= k < |specs| && Destination(specs[k], name) == Some(to)
  }

  /** The value of `to` after the advertised names in `done` were stored. */
  predicate StoredAt(before: map<string, Id>, advertised: map<string, Id>, done: set<string>, specs: seq<RefSpec>,
                     after: map<string, Id>, to: string)
    requires done <= advertised.Keys
  {
    if exists name :: name in done && Sends(specs, name, to) then
      to in after && exists name :: name in done && Sends(specs, name, to) && after[to] == advertised[name]
    else (to in after <==> to in before) && (to in before ==> after[to] == before[to])
  }

  /** The advertised values that some refspec asks for, to be stored or not. */
  function Asked(bundle: Bundle, specs: seq<RefSpec>): set<Id> {
    set name, k | name in bundle.refs && 0 <= k < |specs| && Match(specs[k], name).Some? :: bundle.refs[name]
  }

  /** A fetch that asks for nothing new needs nothing.  Any other needs the bundle's prerequisites, among the objects
      and in the history of some ref. */
  predicate CanFetch(g: Graph, before: Repo, bundle: Bundle, specs: seq<RefSpec>)
    requires Acyclic(g)
  {
    Asked(bundle, specs) <= before.objects
    || (bundle.prerequisites <= before.objects && bundle.prerequisites <= HistoryOf(g, before.refs.Values))
  }

  /** The fetch adds the bundle's objects if it asks for any that is new, and moves every matched ref, fast-forward or
      not, and no other. */
  ghost predicate Fetched(g: Graph, before: Repo, bundle: Bundle, specs: seq<RefSpec>, after: Repo)
    requires Acyclic(g)
  {
    && CanFetch(g, before, bundle, specs)
    && after.objects == before.objects + (if Asked(bundle, specs) <= before.objects then {} else bundle.objects)
    && forall to :: StoredAt(before.refs, bundle.refs, bundle.refs.Keys, specs, after.refs, to)
  }

  /** `resolve-refs`: the requested refs that exist, or everything under refs/. */
  function Exported(r: Repo, requested: seq<string>): map<string, Id> {
    if requested == [] then map name | name in r.refs && "refs/" <= name :: r.refs[name]
    else map name | name in requested && name in r.refs :: r.refs[name]
  }

  /** The commits an export assumes the receiver to have. */
  function Assumed(incremental: bool, base: Option<string>, resolve: string -> Option<Id>): set<Id> {
    if incremental && base.Some? && resolve(base.value).Some? then {resolve(base.value).value} else {}
  }

  // ---------- the operations ----------

  datatype Manifest = Manifest(incremental: bool, baseCommit: Option<Id>, refs: seq<string>)

  class Repository {
    const graph: Graph
    var objects: set<Id>
    var refs: map<string, Id>

    constructor (graph: Graph, repo: Repo)
      ensures this.graph == graph && View() == repo
    {
      this.graph, objects, refs := graph, repo.objects, repo.refs;
    }

    function View(): Repo
      reads this
    {
      Repo(objects, refs)
    }

    /** The names to export, or None if refs were requested and none exists. */
    method ResolveRefs(requested: seq<string>) returns (names: Option<seq<string>>)
      ensures names.None? <==> requested != [] && Exported(View(), requested) == map[]
      ensures names.Some? ==> forall n :: n in names.value <==> n in Exported(View(), requested)
      ensures names.Some? && requested == [] ==> forall n :: n in names.value <==> n in refs && "refs/" <= n
      ensures names.Some? && requested != [] ==> forall n :: n in names.value <==> n in refs && n in requested
      ensures names.None? <==> requested != [] && forall n :: n in requested ==> n !in refs
    {
      var resolved: seq<string> := [];
      if requested != [] {
        for k := 0 to |requested|
          invariant forall n :: n in resolved <==> n in requested[..k] && n in refs
        {
          assert requested[..k + 1] == requested[..k] + [requested[k]];
          if requested[k] in refs {
            resolved := resolved + [requested[k]];
          }
        }
        assert requested[..|requested|] == requested;
        if resolved == [] {
          assert Exported(View(), requested).Keys == {};
          return None;
        }
        assert resolved[0] in Exported(View(), requested);
      } else {
        var left := refs.Keys;
        while left != {}
          invariant left <= refs.Keys
          invariant forall n :: n in resolved <==> n in refs && n !in left && "refs/" <= n
        {
          var name :| name in left;
          left := left - {name};
          if "refs/" <= name {
            resolved := resolved + [name];
          }
        }
      }
      return Some(resolved);
    }

    /** One advertised ref through all refspecs. */
    method Store(name: string, id: Id, specs: seq<RefSpec>)
      modifies this`refs
      ensures forall to :: if Sends(specs, name, to) then to in refs && refs[to] == id
                           else (to in refs <==> to in old(refs)) && (to in old(refs) ==> refs[to] == old(refs)[to])
    {
      for k := 0 to |specs|
        invariant forall to :: if Sends(specs[..k], name, to) then to in refs && refs[to] == id
                               else (to in refs <==> to in old(refs)) && (to in old(refs) ==> refs[to] == old(refs)[to])
      {
        var to := Destination(specs[k], name);
        if to.Some? {
          refs := refs[to.value := id];
        }
        forall other
          ensures Sends(specs[..k + 1], name, other) <==> Sends(specs[..k], name, other) || to == Some(other)
        {
          SendsMore(specs, k, name, other);
        }
      }
      assert specs[..|specs|] == specs;
    }

    /** Fails, and changes nothing, exactly when something new is asked for and a prerequisite is missing. */
    method Fetch(bundle: Bundle, specs: seq<RefSpec>, dryRun: bool) returns (ok: bool)
      requires Acyclic(graph)
      modifies this
      ensures ok <==> CanFetch(graph, old(View()), bundle, specs)
      ensures !ok || dryRun ==> View() == old(View())
      ensures ok && !dryRun ==> Fetched(graph, old(View()), bundle, specs, View())
    {
      var wanted := Asked(bundle, specs);
      if !(wanted <= objects)
         && !(bundle.prerequisites <= objects && bundle.prerequisites <= HistoryOf(graph, refs.Values)) {
        return false;
      }
      if dryRun {
        return true;
      }
      if !(wanted <= objects) {
        objects := objects + bundle.objects;
      }
      ghost var fetched := objects;
      var left := bundle.refs.Keys;
      while left != {}
        invariant left <= bundle.refs.Keys
        invariant objects == fetched
        invariant forall to :: StoredAt(old(refs), bundle.refs, bundle.refs.Keys - left, specs, refs, to)
      {
        var name :| name in left;
        ghost var before, done := refs, bundle.refs.Keys - left;
        Store(name, bundle.refs[name], specs);
        StoredMore(old(refs), bundle.refs, done, specs, before, name, refs);
        left := left - {name};
        assert bundle.refs.Keys - left == done + {name};
      }
      assert bundle.refs.Keys - left == bundle.refs.Keys;
      return true;
    }
  }

  lemma {:induction false} SendsMore(specs: seq<RefSpec>, k: nat, name: string, to: string)
    requires k < |specs|
    ensures Sends(specs[..k + 1], name, to) <==> Sends(specs[..k], name, to) || Destination(specs[k], name) == Some(to)
  {
  }

  lemma {:induction false} StoredMore(start: map<string, Id>, advertised: map<string, Id>, done: set<string>,
                                      specs: seq<RefSpec>, before: map<string, Id>, name: string,
                                      after: map<string, Id>)
    requires done <= advertised.Keys && name in advertised && name !in done
    requires forall to :: StoredAt(start, advertised, done, specs, before, to)
    requires forall to :: if Sends(specs, name, to) then to in after && after[to] == advertised[name]
                          else (to in after <==> to in before) && (to in before ==> after[to] == before[to])
    ensures forall to :: StoredAt(start, advertised, done + {name}, specs, after, to)
  {
    forall to ensures StoredAt(start, advertised, done + {name}, specs, after, to) {
      assert StoredAt(start, advertised, done, specs, before, to);
      if Sends(specs, name, to) {
        assert name in done + {name};
      } else if exists n :: n in done && Sends(specs, n, to) {
        var n :| n in done && Sends(specs, n, to) && before[to] == advertised[n];
        assert n in done + {name};
      }
    }
  }

  class BundleWriter {
    const graph: Graph
    var included: map<string, Id>
    var assumed: set<Id>

    constructor (graph: Graph)
      ensures this.graph == graph && included == map[] && assumed == {}
    {
      this.graph, included, assumed := graph, map[], {};
    }

    method Assume(commit: Id)
      modifies this
      ensures assumed == old(assumed) + {commit} && included == old(included)
    {
      assumed := assumed + {commit};
    }

    method Include(name: string, id: Id)
      modifies this
      ensures included == old(included)[name := id] && assumed == old(assumed)
    {
      included := included[name := id];
    }

    method WriteBundle() returns (bundle: Bundle)
      requires Acyclic(graph)
      ensures bundle == Pack(graph, included, assumed)
    {
      bundle := Pack(graph, included, assumed);
    }
  }

  /** The bundle has the refs under refs/ if none were requested, else those requested that exist, with their values. */
  predicate Contains(bundle: Bundle, refs: map<string, Id>, requested: seq<string>) {
    && (forall n :: n in bundle.refs ==> n in refs && bundle.refs[n] == refs[n])
    && (forall n :: n in refs ==> (n in bundle.refs <==> if requested == [] then "refs/" <= n else n in requested))
  }

  /** The manifest names just the refs of the bundle. */
  ghost predicate Lists(manifest: Manifest, bundle: Bundle) {
    forall n :: n in manifest.refs <==> n in bundle.refs
  }

  /** The named refs in a bundle that assumes at most one commit. */
  method WriteRefs(repo: Repository, names: seq<string>, given: Option<Id>) returns (bundle: Bundle)
    requires Acyclic(repo.graph) && forall n :: n in names ==> n in repo.refs
    ensures bundle == Pack(repo.graph, map n | n in names :: repo.refs[n], if given.Some? then {given.value} else {})
  {
    var writer := new BundleWriter(repo.graph);
    if given.Some? {
      writer.Assume(given.value);
    }
    for k := 0 to |names|
      invariant writer.included.Keys == set n | n in names[..k]
      invariant forall n :: n in writer.included ==> n in repo.refs && writer.included[n] == repo.refs[n]
      invariant writer.assumed == if given.Some? then {given.value} else {}
    {
      assert names[..k + 1] == names[..k] + [names[k]];
      writer.Include(names[k], repo.refs[names[k]]);
    }
    assert names[..|names|] == names;
    assert writer.included == map n | n in names :: repo.refs[n];
    bundle := writer.WriteBundle();
  }

  /** `export-bundle`: fails only when refs were requested and none of them exists. */
  method ExportBundle(repo: Repository, requested: seq<string>, base: Option<string>, incremental: bool,
                      verify: bool, resolve: string -> Option<Id>)
    returns (result: Option<(Bundle, Manifest)>)
    requires Acyclic(repo.graph) && repo.refs.Values <= repo.objects
    modifies repo
    ensures repo.View() == old(repo.View())
    ensures result.None? <==> requested != [] && Exported(repo.View(), requested) == map[]
    ensures result.Some? ==>
              && result.value.0
                 == Pack(repo.graph, Exported(repo.View(), requested), Assumed(incremental, base, resolve))
              && result.value.1.incremental == incremental
              && result.value.1.baseCommit == (if base.Some? then resolve(base.value) else None)
              && (forall n :: n in result.value.1.refs <==> n in Exported(repo.View(), requested))
    ensures result.None? <==> requested != [] && forall n :: n in requested ==> n !in repo.refs
    ensures result.Some? ==> Contains(result.value.0, repo.refs, requested) && Lists(result.value.1, result.value.0)
    ensures result.Some? ==>
              result.value.0.prerequisites
              == (if incremental && base.Some? && resolve(base.value).Some? then {resolve(base.value).value} else {})
  {
    var allRefs := repo.ResolveRefs(requested);
    if allRefs.None? {
      return None;
    }
    var names := allRefs.value;
    var resolvedBase := if base.Some? then resolve(base.value) else None;
    var bundle := WriteRefs(repo, names, if incremental then resolvedBase else None);
    assert (map n | n in names :: repo.refs[n]) == Exported(repo.View(), requested);
    if verify {
      var ok := repo.Fetch(bundle, BuildRefSpecs(names), true);
      assert ok;  // all that the bundle has is there already
    }
    return Some((bundle, Manifest(incremental, resolvedBase, names)));
  }

  /** `import-bundle`: the dry run before it changes neither the outcome nor the repository. */
  method ImportBundle(repo: Repository, bundle: Bundle, refs: seq<string>, verify: bool) returns (ok: bool)
    requires Acyclic(repo.graph)
    modifies repo
    ensures ok <==> CanFetch(repo.graph, old(repo.View()), bundle, BuildRefSpecs(refs))
    ensures !ok ==> repo.View() == old(repo.View())
    ensures ok ==> Fetched(repo.graph, old(repo.View()), bundle, BuildRefSpecs(refs), repo.View())
  {
    var specs := BuildRefSpecs(refs);
    if verify {
      ok := repo.Fetch(bundle, specs, true);
      if !ok {
        return;
      }
    }
    ok := repo.Fetch(bundle, specs, false);
  }
}
