/** Restoring a full bundle and then incremental ones: the result is closed under parents and has the exported refs
    with all their history.
 */
module BackupChains {
  import opened Wrappers
  import opened CommitGraph
  import opened Bundles

  /** One export and its import: the state of the source then, what was requested, the commits assumed (none for a
      full bundle, and none for an incremental one whose base did not resolve), and the refspecs of the import. */
  datatype Link = Link(source: Repo, requested: seq<string>, assumed: set<Id>, specs: seq<RefSpec>)

  function BundleOf(g: Graph, link: Link): Bundle
    requires Acyclic(g)
  {
    Pack(g, Exported(link.source, link.requested), link.assumed)
  }

  /** `after` is what importing the bundle made of `before`. */
  ghost predicate Imported(g: Graph, before: Repo, link: Link, after: Repo)
    requires Acyclic(g)
  {
    Fetched(g, before, BundleOf(g, link), link.specs, after)
  }

  ghost predicate Sound(g: Graph, link: Link) {
    WellFormed(g, link.source) && link.assumed <= link.source.objects
  }

  ghost predicate ImportedSoundly(g: Graph, before: Repo, link: Link, after: Repo)
    requires Acyclic(g)
  {
    Sound(g, link) && Imported(g, before, link, after)
  }

  ghost predicate ImportedAt(g: Graph, targets: seq<Repo>, links: seq<Link>, i: nat)
    requires Acyclic(g) && i < |links| && |targets| == |links| + 1
  {
    ImportedSoundly(g, targets[i], links[i], targets[i + 1])
  }

  /** `targets` are the states of one repository into which the bundles were imported one after the other. */
  ghost predicate Chain(g: Graph, targets: seq<Repo>, links: seq<Link>)
    requires Acyclic(g)
  {
    && |targets| == |links| + 1
    && forall i :: 0 <= i < |links| ==> ImportedAt(g, targets, links, i)
  }

  lemma {:induction false} HistoriesInClosed(g: Graph, objects: set<Id>, commits: set<Id>)
    requires Acyclic(g) && Closed(g, objects) && commits <= objects
    ensures HistoryOf(g, commits) <= objects
  {
    forall c | c in commits ensures History(g, c) <= objects {
      ClosedContainsHistory(g, objects, c);
    }
  }

  lemma {:induction false} HistoryOfIsClosed(g: Graph, commits: set<Id>)
    requires Acyclic(g)
    ensures Closed(g, HistoryOf(g, commits)) && commits <= HistoryOf(g, commits)
  {
    forall a | a in HistoryOf(g, commits) ensures g.parents(a) <= HistoryOf(g, commits) {
      var c :| c in commits && a in History(g, c);
      HistoryIsClosed(g, c);
    }
    forall c | c in commits ensures c in HistoryOf(g, commits) {
      assert c in History(g, c);
    }
  }

  /** The objects of a bundle complete a closed repository that has what the bundle assumes. */
  lemma {:induction false} PackCompletes(g: Graph, objects: set<Id>, refs: map<string, Id>, assumed: set<Id>)
    requires Acyclic(g) && Closed(g, objects) && assumed <= objects
    ensures Closed(g, objects + Pack(g, refs, assumed).objects)
    ensures HistoryOf(g, refs.Values) <= objects + Pack(g, refs, assumed).objects
  {
    HistoriesInClosed(g, objects, assumed);
    HistoryOfIsClosed(g, refs.Values);
  }

  /** And they are no more than that: whatever completes the histories of the refs beside those of the assumed commits
      has all of them. */
  lemma {:induction false} PackIsLeast(g: Graph, refs: map<string, Id>, assumed: set<Id>, other: set<Id>)
    requires Acyclic(g) && HistoryOf(g, refs.Values) <= HistoryOf(g, assumed) + other
    ensures Pack(g, refs, assumed).objects <= other
    ensures Pack(g, refs, assumed).objects !! HistoryOf(g, assumed)
  {
  }

  /** Refspecs that store a ref under its own name or not at all. */
  ghost predicate KeepNames(specs: seq<RefSpec>) {
    forall name, to :: Sends(specs, name, to) ==> name == to
  }

  lemma {:induction false} OneSpecSends(spec: RefSpec, name: string, to: string)
    ensures Sends([spec], name, to) <==> Destination(spec, name) == Some(to)
  {
    assert [spec][0] == spec;
  }

  /** The default refspecs do, for just the refs under refs/. */
  lemma {:induction false} DefaultKeepsNames()
    ensures KeepNames(BuildRefSpecs([]))
    ensures forall name :: Sends(BuildRefSpecs([]), name, name) <==> "refs/" <= name
  {
    forall name, to ensures Sends(BuildRefSpecs([]), name, to) <==> "refs/" <= name && name == to {
      AllRefsMapsRefsToThemselves(name);
      OneSpecSends(ToRefSpec(ALL_REFS), name, to);
    }
  }

  /** And plain ref names do, for just these refs. */
  lemma {:induction false} PlainNamesKeepNames(refs: seq<string>)
    requires refs != [] && forall ref :: ref in refs ==> PlainName(ref)
    ensures KeepNames(BuildRefSpecs(refs))
    ensures forall name :: Sends(BuildRefSpecs(refs), name, name) <==> name in refs
  {
    var specs := BuildRefSpecs(refs);
    forall name, to ensures Sends(specs, name, to) <==> name in refs && name == to {
      forall k | 0 <= k < |specs| ensures Destination(specs[k], name) == if name == refs[k] then Some(name) else None {
        assert refs[k] in refs;
        PlainNameMapsToItself(refs[k], name);
      }
      if name in refs && name == to {
        var k :| 0 <= k < |refs| && refs[k] == name;
        assert Destination(specs[k], name) == Some(to);
      }
    }
  }

  /** What one import with such refspecs does to the refs: those it matches get their exported values, all others
      stay as they were (with the default refspecs HEAD is among them). */
  lemma {:induction false} ImportedRefs(g: Graph, before: Repo, link: Link, after: Repo, to: string)
    requires Acyclic(g) && Imported(g, before, link, after) && KeepNames(link.specs)
    ensures var exported := Exported(link.source, link.requested);
            if to in exported && Sends(link.specs, to, to) then to in after.refs && after.refs[to] == exported[to]
            else (to in after.refs <==> to in before.refs) && (to in before.refs ==> after.refs[to] == before.refs[to])
  {
    var bundle := BundleOf(g, link);
    assert StoredAt(before.refs, bundle.refs, bundle.refs.Keys, link.specs, after.refs, to);
    if to in bundle.refs && Sends(link.specs, to, to) {
      assert to in bundle.refs.Keys;
    }
  }

  /** All history of the refs that the bundle was asked for. */
  ghost predicate Holds(g: Graph, repo: Repo, link: Link)
    requires Acyclic(g)
  {
    HistoryOf(g, Asked(BundleOf(g, link), link.specs)) <= repo.objects
  }

  lemma {:induction false} SentIsAsked(bundle: Bundle, specs: seq<RefSpec>, name: string, to: string)
    requires name in bundle.refs && Sends(specs, name, to)
    ensures bundle.refs[name] in Asked(bundle, specs)
  {
    var k :| 0 <= k < |specs| && Destination(specs[k], name) == Some(to);
    assert Match(specs[k], name).Some?;
  }

  lemma {:induction false} FetchedIsClosed(g: Graph, before: Repo, link: Link, after: Repo)
    requires Acyclic(g) && WellFormed(g, before) && ImportedSoundly(g, before, link, after)
    ensures Closed(g, after.objects) && before.objects <= after.objects
    ensures Asked(BundleOf(g, link), link.specs) <= after.objects
  {
    var exported := Exported(link.source, link.requested);
    if !(Asked(BundleOf(g, link), link.specs) <= before.objects) {
      PackCompletes(g, before.objects, exported, link.assumed);
      HistoryOfIsClosed(g, exported.Values);
    }
  }

  lemma {:induction false} ImportKeepsWellFormed(g: Graph, before: Repo, link: Link, after: Repo)
    requires Acyclic(g) && WellFormed(g, before) && ImportedSoundly(g, before, link, after)
    ensures WellFormed(g, after) && before.objects <= after.objects
    ensures Holds(g, after, link)
  {
    var bundle := BundleOf(g, link);
    FetchedIsClosed(g, before, link, after);
    HistoriesInClosed(g, after.objects, Asked(bundle, link.specs));
    forall to | to in after.refs ensures after.refs[to] in after.objects {
      assert StoredAt(before.refs, bundle.refs, bundle.refs.Keys, link.specs, after.refs, to);
      RefIsOldOrAsked(before, bundle, link.specs, after, to);
    }
  }

  lemma {:induction false} RefIsOldOrAsked(before: Repo, bundle: Bundle, specs: seq<RefSpec>, after: Repo, to: string)
    requires StoredAt(before.refs, bundle.refs, bundle.refs.Keys, specs, after.refs, to) && to in after.refs
    ensures after.refs[to] in before.refs.Values + Asked(bundle, specs)
  {
    if exists name :: name in bundle.refs.Keys && Sends(specs, name, to) {
      var name :| name in bundle.refs.Keys && Sends(specs, name, to) && after.refs[to] == bundle.refs[name];
      SentIsAsked(bundle, specs, name, to);
    }
  }

  lemma {:induction false} HoldsMore(g: Graph, less: Repo, link: Link, more: Repo)
    requires Acyclic(g) && Holds(g, less, link) && less.objects <= more.objects
    ensures Holds(g, more, link)
  {
  }

  lemma {:induction false} ChainKeepsWellFormed(g: Graph, targets: seq<Repo>, links: seq<Link>, n: nat)
    requires Acyclic(g) && Chain(g, targets, links) && WellFormed(g, targets[0]) && n <= |links|
    ensures WellFormed(g, targets[n])
  {
    if n > 0 {
      ChainKeepsWellFormed(g, targets, links, n - 1);
      assert ImportedAt(g, targets, links, n - 1);
      ImportKeepsWellFormed(g, targets[n - 1], links[n - 1], targets[n]);
    }
  }

  /** No later import takes away the history that an earlier one brought. */
  lemma {:induction false} ChainHolds(g: Graph, targets: seq<Repo>, links: seq<Link>, n: nat, i: nat)
    requires Acyclic(g) && Chain(g, targets, links) && WellFormed(g, targets[0]) && i < n <= |links|
    ensures Holds(g, targets[n], links[i])
    decreases n
  {
    ChainKeepsWellFormed(g, targets, links, n - 1);
    assert ImportedAt(g, targets, links, n - 1);
    ImportKeepsWellFormed(g, targets[n - 1], links[n - 1], targets[n]);
    if i < n - 1 {
      ChainHolds(g, targets, links, n - 1, i);
      HoldsMore(g, targets[n - 1], links[i], targets[n]);
    }
  }

  /** What the import of the last bundle owes to each ref name. */
  ghost predicate RefRestored(g: Graph, before: Repo, link: Link, after: Repo, name: string)
    requires Acyclic(g)
  {
    var exported := Exported(link.source, link.requested);
    if name in exported && Sends(link.specs, name, name)
    then name in after.refs && after.refs[name] == exported[name] && History(g, exported[name]) <= after.objects
    else (name in after.refs <==> name in before.refs) &&
         (name in before.refs ==> after.refs[name] == before.refs[name])
  }

  lemma {:induction false} ImportRestores(g: Graph, before: Repo, link: Link, after: Repo, name: string)
    requires Acyclic(g) && ImportedSoundly(g, before, link, after) && WellFormed(g, after)
    requires KeepNames(link.specs)
    ensures RefRestored(g, before, link, after, name)
  {
    ImportedRefs(g, before, link, after, name);
    if name in after.refs {
      assert after.refs[name] in after.refs.Values;
      ClosedContainsHistory(g, after.objects, after.refs[name]);
    }
  }

  /** After any chain of imports the repository is closed under parents; if the last one used refspecs that keep names
      (the default ones, or plain ref names), every ref of its bundle that they match has its exported value and its
      whole history; and every other ref is as it was before that import. */
  lemma {:induction false} ChainRestores(g: Graph, targets: seq<Repo>, links: seq<Link>, name: string)
    requires Acyclic(g) && Chain(g, targets, links) && WellFormed(g, targets[0])
    requires links != [] && KeepNames(links[|links| - 1].specs)
    ensures WellFormed(g, targets[|links|])
    ensures RefRestored(g, targets[|links| - 1], links[|links| - 1], targets[|links|], name)
  {
    var before, link, after := targets[|links| - 1], links[|links| - 1], targets[|links|];
    ChainKeepsWellFormed(g, targets, links, |links|);
    assert ImportedAt(g, targets, links, |links| - 1);
    ImportRestores(g, before, link, after, name);
  }

  /** The ref is in the bundle, and its refspecs store it under its own name. */
  predicate Stores(link: Link, name: string) {
    name in Exported(link.source, link.requested) && Sends(link.specs, name, name)
  }

  /** The next bundle can be imported exactly when it brings nothing new or its base is in the history of some ref of
      the repository; and it is, if it is in the history of a ref that the import before stored under its own name. */
  lemma {:induction false} NextImportSucceeds(g: Graph, targets: seq<Repo>, links: seq<Link>, next: Link, name: string)
    requires Acyclic(g) && Chain(g, targets, links) && WellFormed(g, targets[0])
    ensures var before := targets[|links|];
            (exists after :: Imported(g, before, next, after)) <==>
            Asked(BundleOf(g, next), next.specs) <= before.objects || next.assumed <= HistoryOf(g, before.refs.Values)
    ensures links != [] && KeepNames(links[|links| - 1].specs) && Stores(links[|links| - 1], name)
            && next.assumed <= History(g, Exported(links[|links| - 1].source, links[|links| - 1].requested)[name])
            ==> next.assumed <= HistoryOf(g, targets[|links|].refs.Values)
  {
    var before := targets[|links|];
    ChainKeepsWellFormed(g, targets, links, |links|);
    HistoriesInClosed(g, before.objects, before.refs.Values);
    if CanFetch(g, before, BundleOf(g, next), next.specs) {
      var after := ImportExists(g, before, next);
    }
    if links != [] && KeepNames(links[|links| - 1].specs) && Stores(links[|links| - 1], name) {
      assert ImportedAt(g, targets, links, |links| - 1);
      ImportedRefs(g, targets[|links| - 1], links[|links| - 1], before, name);
      assert before.refs[name] in before.refs.Values;
    }
  }

  /** A bundle of one plain ref. */
  function OneRef(objects: set<Id>, name: string, id: Id, assumed: set<Id>): Link {
    Link(Repo(objects, map[name := id]), [name], assumed, BuildRefSpecs([name]))
  }

  lemma {:induction false} OneRefIsAsked(g: Graph, objects: set<Id>, name: string, id: Id, assumed: set<Id>)
    requires Acyclic(g) && PlainName(name)
    ensures var link := OneRef(objects, name, id, assumed);
            && BundleOf(g, link).refs == map[name := id] && Asked(BundleOf(g, link), link.specs) == {id}
            && forall to :: Sends(link.specs, name, to) <==> to == name
  {
    var link := OneRef(objects, name, id, assumed);
    PlainNamesKeepNames([name]);
    assert name in [name] && Sends(link.specs, name, name);
    SentIsAsked(BundleOf(g, link), link.specs, name, name);
  }

  lemma {:induction false} RootHistory(g: Graph, id: Id)
    requires Acyclic(g) && g.parents(id) == {}
    ensures HistoryOf(g, {id}) == {id}
  {
    assert History(g, id) == {id};
  }

  lemma {:induction false} OneRefStored(refs: map<string, Id>, name: string, id: Id, specs: seq<RefSpec>, to: string)
    requires Sends(specs, name, to) <==> to == name
    requires refs.Keys <= {name}
    ensures StoredAt(refs, map[name := id], {name}, specs, map[name := id], to)
  {
    assert to in refs ==> to == name;
  }

  lemma {:induction false} OneRefExported(objects: set<Id>, name: string, id: Id)
    ensures Exported(Repo(objects, map[name := id]), [name]) == map[name := id]
    ensures (map[name := id]).Values == {id}
  {
    var refs := map[name := id];
    assert name in [name] && refs[name] == id;
    assert forall n :: n in Exported(Repo(objects, refs), [name]) <==> n == name;
    assert Exported(Repo(objects, refs), [name])[name] == id;
    assert refs.Values == {id};
  }

  lemma {:induction false} RootBundle(g: Graph, name: string, id: Id)
    requires Acyclic(g) && g.parents(id) == {}
    ensures BundleOf(g, OneRef({id}, name, id, {})) == Bundle(map[name := id], {}, {id})
  {
    OneRefExported({id}, name, id);
    RootHistory(g, id);
  }

  lemma {:induction false} ImportOfRoot(g: Graph, before: Repo, name: string, id: Id, after: Repo)
    requires Acyclic(g) && PlainName(name) && g.parents(id) == {}
    requires id !in before.objects && before.refs.Keys <= {name}
    requires after == Repo(before.objects + {id}, map[name := id])
    ensures ImportedSoundly(g, before, OneRef({id}, name, id, {}), after)
  {
    var link := OneRef({id}, name, id, {});
    OneRefIsAsked(g, {id}, name, id, {});
    RootBundle(g, name, id);
    forall to ensures StoredAt(before.refs, map[name := id], {name}, link.specs, after.refs, to) {
      OneRefStored(before.refs, name, id, link.specs, to);
    }
    assert (map[name := id]).Keys == {name};
    OneRefExported({id}, name, id);
  }

  lemma {:induction false} Strands(g: Graph, before: Repo, bundle: Bundle, specs: seq<RefSpec>, base: Id, other: Id,
                                   tip: Id)
    requires Acyclic(g) && g.parents(other) == {} && base != other
    requires tip !in before.objects && before.refs.Values == {other}
    requires Asked(bundle, specs) == {tip} && bundle.prerequisites == {base}
    ensures !CanFetch(g, before, bundle, specs)
  {
    RootHistory(g, other);
    assert tip in Asked(bundle, specs) && base in bundle.prerequisites;
  }

  lemma {:induction false} StrandedBase(g: Graph, before: Repo, name: string, base: Id, other: Id, tip: Id)
    requires Acyclic(g) && PlainName(name) && g.parents(other) == {} && base != other
    requires tip !in before.objects && before.refs == map[name := other]
    ensures !exists after :: Imported(g, before, OneRef({base, tip}, name, tip, {base}), after)
  {
    var link := OneRef({base, tip}, name, tip, {base});
    OneRefIsAsked(g, {base, tip}, name, tip, {base});
    OneRefExported({}, name, other);
    Strands(g, before, BundleOf(g, link), link.specs, base, other, tip);
  }

  lemma {:induction false} NextIsSound(g: Graph, name: string, base: Id, tip: Id)
    requires g.parents(base) == {} && g.parents(tip) == {base}
    ensures Sound(g, OneRef({base, tip}, name, tip, {base}))
  {
    OneRefExported({base, tip}, name, tip);
  }

  /** The base can be among the objects, in the history of an imported ref, and yet of no use: an import in between
      moved the ref away from it, by force. */
  lemma {:induction false} MovedRefStrandsTheBase(g: Graph, before: Repo, name: string, base: Id, other: Id, tip: Id)
    returns (one: Repo, two: Repo)
    requires Acyclic(g) && PlainName(name) && base != other && other != tip && tip != base
    requires g.parents(base) == {} && g.parents(other) == {} && g.parents(tip) == {base}
    requires before.objects !! {base, other, tip} && before.refs.Keys <= {name}
    ensures ImportedSoundly(g, before, OneRef({base}, name, base, {}), one)
    ensures ImportedSoundly(g, one, OneRef({other}, name, other, {}), two)
    ensures Sound(g, OneRef({base, tip}, name, tip, {base})) && base in two.objects
    ensures !exists after :: Imported(g, two, OneRef({base, tip}, name, tip, {base}), after)
  {
    one := Repo(before.objects + {base}, map[name := base]);
    two := Repo(one.objects + {other}, map[name := other]);
    ImportOfRoot(g, before, name, base, one);
    ImportOfRoot(g, one, name, other, two);
    NextIsSound(g, name, base, tip);
    StrandedBase(g, two, name, base, other, tip);
  }

  lemma {:induction false} ImportExists(g: Graph, before: Repo, link: Link) returns (after: Repo)
    requires Acyclic(g) && CanFetch(g, before, BundleOf(g, link), link.specs)
    ensures Imported(g, before, link, after)
  {
    var bundle, specs := BundleOf(g, link), link.specs;
    var refs := RefsCanBeStored(before.refs, bundle.refs, specs);
    var fetched := if Asked(bundle, specs) <= before.objects then {} else bundle.objects;
    after := Repo(before.objects + fetched, refs);
  }

  lemma {:induction false} RefsCanBeStored(before: map<string, Id>, advertised: map<string, Id>, specs: seq<RefSpec>)
    returns (after: map<string, Id>)
    ensures forall to :: StoredAt(before, advertised, advertised.Keys, specs, after, to)
  {
    var targets := set name, k | name in advertised && 0 <= k < |specs| && Destination(specs[k], name).Some? ::
                     Destination(specs[k], name).value;
    forall to ensures to in targets <==> exists name :: name in advertised && Sends(specs, name, to) {
      if name :| name in advertised && Sends(specs, name, to) {
        var k :| 0 <= k < |specs| && Destination(specs[k], name) == Some(to);
      }
    }
    var moved := map to | to in targets :: var name :| name in advertised && Sends(specs, name, to); advertised[name];
    after := before + moved;
    forall to ensures StoredAt(before, advertised, advertised.Keys, specs, after, to) {
      if to in targets {
        var name :| name in advertised && Sends(specs, name, to) && moved[to] == advertised[name];
        assert name in advertised.Keys;
      }
    }
  }

  /** An incremental export whose base does not resolve is self-contained: it holds the whole history of its refs,
      and can be imported into any repository, even an empty one. */
  lemma {:induction false} UnresolvedBaseIsSelfContained(g: Graph, source: Repo, requested: seq<string>,
                                                         incremental: bool, base: Option<string>,
                                                         resolve: string -> Option<Id>, before: Repo,
                                                         specs: seq<RefSpec>)
    requires Acyclic(g) && WellFormed(g, source)
    requires base.Some? ==> resolve(base.value).None?
    ensures var bundle := Pack(g, Exported(source, requested), Assumed(incremental, base, resolve));
            && bundle.objects == HistoryOf(g, Exported(source, requested).Values)
            && Closed(g, bundle.objects)
            && exists after :: Fetched(g, before, bundle, specs, after)
  {
    HistoryOfIsClosed(g, Exported(source, requested).Values);
    var link := Link(source, requested, {}, specs);
    assert Assumed(incremental, base, resolve) == {};
    var after := ImportExists(g, before, link);
    assert Fetched(g, before, BundleOf(g, link), specs, after);
  }

  /** A full backup of a repository, whatever its refs, imported with the default refspecs into any other: the import
      succeeds; every ref under refs/ (branches, tags, notes) has its value of the source, with its whole history; and
      every other ref of the target is as it was. */
  lemma {:induction false} FullBackupRestores(g: Graph, source: Repo, bundle: Bundle, before: Repo, after: Repo,
                                              name: string)
    requires Acyclic(g) && WellFormed(g, source) && WellFormed(g, before)
    requires bundle == Pack(g, bundle.refs, {}) && Contains(bundle, source.refs, [])
    requires Fetched(g, before, bundle, BuildRefSpecs([]), after)
    ensures WellFormed(g, after)
    ensures if name in source.refs && "refs/" <= name
            then name in after.refs && after.refs[name] == source.refs[name]
                 && History(g, source.refs[name]) <= after.objects
            else (name in after.refs <==> name in before.refs) &&
                 (name in before.refs ==> after.refs[name] == before.refs[name])
  {
    var link := Link(source, [], {}, BuildRefSpecs([]));
    FullBundleOf(g, source, bundle);
    ImportKeepsWellFormed(g, before, link, after);
    DefaultKeepsNames();
    ImportRestores(g, before, link, after, name);
  }

  lemma {:induction false} FullBundleOf(g: Graph, source: Repo, bundle: Bundle)
    requires Acyclic(g) && bundle == Pack(g, bundle.refs, {}) && Contains(bundle, source.refs, [])
    ensures bundle == BundleOf(g, Link(source, [], {}, BuildRefSpecs([])))
  {
    assert bundle.refs == Exported(source, []);
  }

  /** And it can be imported anywhere. */
  lemma {:induction false} FullBackupImports(g: Graph, source: Repo, bundle: Bundle, before: Repo, specs: seq<RefSpec>)
    requires Acyclic(g) && bundle == Pack(g, bundle.refs, {}) && Contains(bundle, source.refs, [])
    ensures exists after :: Fetched(g, before, bundle, specs, after)
  {
    FullBundleOf(g, source, bundle);
    var after := ImportExists(g, before, Link(source, [], {}, specs));
  }
}
