/** Clojure's `swap!` as threads run it: read the atom, compute, compare and set, and start over if the value has
    moved.  Then the two atoms of src/chrondb/concurrency/occ.clj: document versions and branch locks.
 */
module SwapAtom {
  import opened Wrappers
  import VersionTracker

  // ---------- any atom ----------

  /** A thread between its read and its compare-and-set. */
  datatype Attempt<S, Op> = Attempt(op: Op, seen: S, next: S)

  /** A completed `swap!`, with the value it installed, which is what it returns. */
  datatype Swap<S, Op> = Swap(thread: nat, op: Op, result: S)

  datatype Atom<S, Op> = Atom(value: S, threads: map<nat, Attempt<S, Op>>, swaps: seq<Swap<S, Op>>)

  datatype Action<Op> = Read(reader: nat, op: Op) | CompareAndSet(setter: nat)

  predicate Enabled<S, Op>(atom: Atom<S, Op>, a: Action<Op>) {
    match a
    case Read(t, _) => t !in atom.threads
    case CompareAndSet(t) => t in atom.threads
  }

  function Perform<S(==), Op>(update: (S, Op) -> S, atom: Atom<S, Op>, a: Action<Op>): Atom<S, Op>
    requires Enabled(atom, a)
  {
    match a
    case Read(t, op) => atom.(threads := atom.threads[t := Attempt(op, atom.value, update(atom.value, op))])
    case CompareAndSet(t) =>
      var mine := atom.threads[t];
      if atom.value == mine.seen then
        Atom(mine.next, atom.threads - {t}, atom.swaps + [Swap(t, mine.op, mine.next)])
      else atom.(threads := atom.threads - {t})  // and read again
  }

  function Reach<S(==), Op>(update: (S, Op) -> S, start: S, actions: seq<Action<Op>>): Option<Atom<S, Op>> {
    if actions == [] then Some(Atom(start, map[], []))
    else match Reach(update, start, actions[..|actions| - 1])
      case None => None
      case Some(atom) =>
        if Enabled(atom, actions[|actions| - 1]) then Some(Perform(update, atom, actions[|actions| - 1])) else None
  }

  /** The updates applied one after the other. */
  function Fold<S, Op>(update: (S, Op) -> S, start: S, swaps: seq<Swap<S, Op>>): S {
    if swaps == [] then start else update(Fold(update, start, swaps[..|swaps| - 1]), swaps[|swaps| - 1].op)
  }

  /** The swap at `i` returned what applying all swaps up to it gives. */
  predicate ReturnsFold<S(==), Op>(update: (S, Op) -> S, start: S, swaps: seq<Swap<S, Op>>, i: nat)
    requires i < |swaps|
  {
    swaps[i].result == Fold(update, start, swaps[..i + 1])
  }

  predicate Serial<S(==), Op>(update: (S, Op) -> S, start: S, atom: Atom<S, Op>) {
    && atom.value == Fold(update, start, atom.swaps)
    && (forall i :: 0 <= i < |atom.swaps| ==> ReturnsFold(update, start, atom.swaps, i))
    && (forall t :: t in atom.threads ==> atom.threads[t].next == update(atom.threads[t].seen, atom.threads[t].op))
  }

  lemma {:induction false} SwapReturnsFold<S, Op>(update: (S, Op) -> S, start: S, swaps: seq<Swap<S, Op>>,
                                                  swap: Swap<S, Op>)
    requires forall i :: 0 <= i < |swaps| ==> ReturnsFold(update, start, swaps, i)
    requires swap.result == update(Fold(update, start, swaps), swap.op)
    ensures Fold(update, start, swaps + [swap]) == swap.result
    ensures forall i :: 0 <= i < |swaps| + 1 ==> ReturnsFold(update, start, swaps + [swap], i)
  {
    var more := swaps + [swap];
    assert more[..|swaps|] == swaps;
    assert more[..|more|] == more;
    forall i | 0 <= i < |swaps| ensures ReturnsFold(update, start, more, i) {
      assert ReturnsFold(update, start, swaps, i) && more[..i + 1] == swaps[..i + 1];
    }
  }

  lemma {:induction false} ActionIsSerial<S, Op>(update: (S, Op) -> S, start: S, atom: Atom<S, Op>, a: Action<Op>)
    requires Serial(update, start, atom) && Enabled(atom, a)
    ensures Serial(update, start, Perform(update, atom, a))
  {
    if a.CompareAndSet? && atom.value == atom.threads[a.setter].seen {
      var mine := atom.threads[a.setter];
      SwapReturnsFold(update, start, atom.swaps, Swap(a.setter, mine.op, mine.next));
    }
  }

  /** Under every interleaving the completed swaps are atomic: each returns what applying all of them so far, one
      after the other in the order completed, would give. */
  lemma {:induction false} SwapsAreAtomic<S, Op>(update: (S, Op) -> S, start: S, actions: seq<Action<Op>>)
    requires Reach(update, start, actions).Some?
    ensures Serial(update, start, Reach(update, start, actions).value)
  {
    if actions != [] {
      var front := actions[..|actions| - 1];
      SwapsAreAtomic(update, start, front);
      ActionIsSerial(update, start, Reach(update, start, front).value, actions[|actions| - 1]);
    }
  }

  // ---------- increment-version ----------

  type Key = VersionTracker.Key
  type Versions = VersionTracker.Versions

  function Increment(versions: Versions, key: Key): Versions {
    VersionTracker.Bump(versions, key)
  }

  /** What the completed increments of one document returned, in the order completed. */
  function Returned(swaps: seq<Swap<Versions, Key>>, key: Key): seq<int> {
    if swaps == [] then []
    else
      var last := swaps[|swaps| - 1];
      Returned(swaps[..|swaps| - 1], key) + if last.op == key then [VersionTracker.Version(last.result, key)] else []
  }

  /** n completed increments of a document that starts without a version return exactly 1, 2, .., n, once each,
      however many threads ran them, whatever other documents were incremented in between. */
  lemma {:induction false} IncrementsReturnOneToN(actions: seq<Action<Key>>, key: Key)
    requires Reach(Increment, map[], actions).Some?
    ensures var atom := Reach(Increment, map[], actions).value;
            var n := |Returned(atom.swaps, key)|;
            Returned(atom.swaps, key) == seq(n, i => i + 1) && VersionTracker.Version(atom.value, key) == n
  {
    SwapsAreAtomic(Increment, map[], actions);
    var atom := Reach(Increment, map[], actions).value;
    ReturnedCounts(atom.swaps, key);
  }

  lemma {:induction false} ReturnedCounts(swaps: seq<Swap<Versions, Key>>, key: Key)
    requires forall i :: 0 <= i < |swaps| ==> ReturnsFold(Increment, map[], swaps, i)
    ensures Returned(swaps, key) == seq(|Returned(swaps, key)|, i => i + 1)
    ensures VersionTracker.Version(Fold(Increment, map[], swaps), key) == |Returned(swaps, key)|
  {
    if swaps != [] {
      var front := swaps[..|swaps| - 1];
      forall i | 0 <= i < |front| ensures ReturnsFold(Increment, map[], front, i) {
        assert ReturnsFold(Increment, map[], swaps, i) && front[..i + 1] == swaps[..i + 1];
      }
      ReturnedCounts(front, key);
      assert ReturnsFold(Increment, map[], swaps, |front|) && swaps[..|swaps|] == swaps;
    }
  }

  // ---------- get-branch-lock ----------

  type Locks = map<string, nat>

  /** A branch, and the object allocated in case it has no lock yet. */
  datatype Wanted = Wanted(branch: string, candidate: nat)

  function GetOrCreate(locks: Locks, wanted: Wanted): Locks {
    if wanted.branch in locks then locks else locks[wanted.branch := wanted.candidate]
  }

  /** The lock a completed call returned. */
  function LockOf(swap: Swap<Locks, Wanted>): Option<nat> {
    if swap.op.branch in swap.result then Some(swap.result[swap.op.branch]) else None
  }

  lemma {:induction false} LocksOnlyGrow(swaps: seq<Swap<Locks, Wanted>>, n: nat, branch: string)
    requires n <= |swaps| && branch in Fold(GetOrCreate, map[], swaps[..n])
    ensures branch in Fold(GetOrCreate, map[], swaps)
    ensures Fold(GetOrCreate, map[], swaps)[branch] == Fold(GetOrCreate, map[], swaps[..n])[branch]
  {
    if n < |swaps| {
      assert swaps[..|swaps| - 1][..n] == swaps[..n];
      LocksOnlyGrow(swaps[..|swaps| - 1], n, branch);
    } else {
      assert swaps[..n] == swaps;
    }
  }

  lemma {:induction false} LocksAreCandidates(swaps: seq<Swap<Locks, Wanted>>, branch: string)
    requires branch in Fold(GetOrCreate, map[], swaps)
    ensures exists i :: 0 <= i < |swaps| && swaps[i].op == Wanted(branch, Fold(GetOrCreate, map[], swaps)[branch])
  {
    var front := swaps[..|swaps| - 1];
    if branch in Fold(GetOrCreate, map[], front) {
      LocksAreCandidates(front, branch);
      var i :| 0 <= i < |front| && front[i].op == Wanted(branch, Fold(GetOrCreate, map[], front)[branch]);
      assert swaps[i].op == front[i].op;
    } else {
      assert swaps[|front|].op == Wanted(branch, Fold(GetOrCreate, map[], swaps)[branch]);
    }
  }

  lemma {:induction false} HasLock(actions: seq<Action<Wanted>>, i: nat)
    requires Reach(GetOrCreate, map[], actions).Some? && i < |Reach(GetOrCreate, map[], actions).value.swaps|
    ensures var swaps := Reach(GetOrCreate, map[], actions).value.swaps;
            var locks, branch := Fold(GetOrCreate, map[], swaps[..i + 1]), swaps[i].op.branch;
            branch in locks && LockOf(swaps[i]) == Some(locks[branch])
  {
    SwapsAreAtomic(GetOrCreate, map[], actions);
    var swaps := Reach(GetOrCreate, map[], actions).value.swaps;
    assert ReturnsFold(GetOrCreate, map[], swaps, i) && swaps[..i + 1][..i] == swaps[..i];
  }

  /** All completed calls for one branch return the same lock, for ever. */
  lemma {:induction false} OneLockPerBranch(actions: seq<Action<Wanted>>, i: nat, j: nat)
    requires Reach(GetOrCreate, map[], actions).Some?
    requires i <= j < |Reach(GetOrCreate, map[], actions).value.swaps|
    ensures var swaps := Reach(GetOrCreate, map[], actions).value.swaps;
            && LockOf(swaps[i]).Some?
            && (swaps[i].op.branch == swaps[j].op.branch ==> LockOf(swaps[i]) == LockOf(swaps[j]))
  {
    var swaps := Reach(GetOrCreate, map[], actions).value.swaps;
    HasLock(actions, i);
    HasLock(actions, j);
    assert swaps[..j + 1][..i + 1] == swaps[..i + 1];
    LocksOnlyGrow(swaps[..j + 1], i + 1, swaps[i].op.branch);
  }

  predicate DistinctObjects(swaps: seq<Swap<Locks, Wanted>>) {
    forall k, l :: 0 <= k < |swaps| && 0 <= l < |swaps| && swaps[k].op.candidate == swaps[l].op.candidate ==> k == l
  }

  /** If no two allocated objects are the same, different branches never share a lock. */
  lemma {:induction false} BranchesDoNotShareLocks(actions: seq<Action<Wanted>>, i: nat, j: nat)
    requires Reach(GetOrCreate, map[], actions).Some?
    requires i < |Reach(GetOrCreate, map[], actions).value.swaps|
    requires j < |Reach(GetOrCreate, map[], actions).value.swaps|
    requires var swaps := Reach(GetOrCreate, map[], actions).value.swaps;
             DistinctObjects(swaps) && swaps[i].op.branch != swaps[j].op.branch
    ensures var swaps := Reach(GetOrCreate, map[], actions).value.swaps;
            LockOf(swaps[i]) != LockOf(swaps[j])
  {
    var swaps := Reach(GetOrCreate, map[], actions).value.swaps;
    HasLock(actions, i);
    HasLock(actions, j);
    LocksAreCandidates(swaps[..i + 1], swaps[i].op.branch);
    LocksAreCandidates(swaps[..j + 1], swaps[j].op.branch);
  }
}
