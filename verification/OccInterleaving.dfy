/** Checked writes of many threads, interleaved: `with-branch-lock` around `with-version-check`, with the increment
    itself a read, a computation and a compare-and-set on the one atom that all branches share.

    With `locking` false the same writes run without the branch lock.
 */
module OccInterleaving {
  import opened Wrappers
  import VersionTracker

  type Versions = VersionTracker.Versions

  datatype Write = Write(document: string, branch: string, expected: Option<int>)

  function KeyOf(w: Write): VersionTracker.Key {
    (w.document, w.branch)
  }

  /** Where a thread is in its write. */
  datatype Pc =
    | Locked(write: Write)                                  // the lock is held, nothing checked yet
    | Verified(write: Write)
    | Done(write: Write)                                    // the operation returned, not counted yet
    | Swapping(write: Write, seen: Versions, next: Versions)  // between the read and the compare-and-set

  /** `holders` are the branch locks in use; `commits` the writes counted, in order. */
  datatype State = State(versions: Versions, holders: map<string, nat>, threads: map<nat, Pc>, commits: seq<Write>)

  datatype Action =
    | Lock(thread: nat, write: Write)
    | Verify(thread: nat)
    | Operate(thread: nat, succeeds: bool)
    | Read(thread: nat)
    | CompareAndSet(thread: nat)

  const START := State(map[], map[], map[], [])

  predicate Enabled(locking: bool, s: State, a: Action) {
    match a
    case Lock(t, w) => t !in s.threads && (locking ==> w.branch !in s.holders)
    case Verify(t) => t in s.threads && s.threads[t].Locked?
    case Operate(t, _) => t in s.threads && s.threads[t].Verified?
    case Read(t) => t in s.threads && s.threads[t].Done?
    case CompareAndSet(t) => t in s.threads && s.threads[t].Swapping?
  }

  /** The thread leaves its write, and with it the lock. */
  function Leave(s: State, t: nat): State
    requires t in s.threads
  {
    s.(threads := s.threads - {t}, holders := s.holders - {s.threads[t].write.branch})
  }

  function Perform(locking: bool, s: State, a: Action): State
    requires Enabled(locking, s, a)
  {
    match a
    case Lock(t, w) =>
      s.(threads := s.threads[t := Locked(w)], holders := if locking then s.holders[w.branch := t] else s.holders)
    case Verify(t) =>
      var w := s.threads[t].write;
      if VersionTracker.Accepts(w.expected, VersionTracker.Version(s.versions, KeyOf(w)))
      then s.(threads := s.threads[t := Verified(w)])
      else Leave(s, t)
    case Operate(t, succeeds) =>
      if succeeds then s.(threads := s.threads[t := Done(s.threads[t].write)]) else Leave(s, t)
    case Read(t) =>
      var w := s.threads[t].write;
      s.(threads := s.threads[t := Swapping(w, s.versions, VersionTracker.Bump(s.versions, KeyOf(w)))])
    case CompareAndSet(t) =>
      var pc := s.threads[t];
      if s.versions == pc.seen then Leave(s, t).(versions := pc.next, commits := s.commits + [pc.write])
      else s.(threads := s.threads[t := Done(pc.write)])
  }

  function Reach(locking: bool, actions: seq<Action>): Option<State> {
    if actions == [] then Some(START)
    else match Reach(locking, actions[..|actions| - 1])
      case None => None
      case Some(s) =>
        var a := actions[|actions| - 1];
        if Enabled(locking, s, a) then Some(Perform(locking, s, a)) else None
  }

  // ---------- first committer wins ----------

  function Count(commits: seq<Write>, key: VersionTracker.Key): nat {
    if commits == [] then 0
    else Count(commits[..|commits| - 1], key) + if KeyOf(commits[|commits| - 1]) == key then 1 else 0
  }

  /** Each thread in a write holds the lock of its branch. */
  predicate Exclusive(s: State) {
    && (forall t :: t in s.threads ==> Holds(s, t))
    && (forall b :: b in s.holders ==> s.holders[b] in s.threads && s.threads[s.holders[b]].write.branch == b)
  }

  predicate Holds(s: State, t: nat)
    requires t in s.threads
  {
    s.threads[t].write.branch in s.holders && s.holders[s.threads[t].write.branch] == t
  }

  /** What a thread found when it verified is still so. */
  predicate StillAccepted(s: State, pc: Pc) {
    && (!pc.Locked? ==> VersionTracker.Accepts(pc.write.expected, VersionTracker.Version(s.versions, KeyOf(pc.write))))
    && (pc.Swapping? ==> pc.next == VersionTracker.Bump(pc.seen, KeyOf(pc.write)))
  }

  /** Every version is its number of commits. */
  ghost predicate Counted(s: State) {
    forall key :: VersionTracker.Version(s.versions, key) == Count(s.commits, key)
  }

  /** The write at `i` was made against an accepted version. */
  predicate CommittedRightly(commits: seq<Write>, i: nat)
    requires i < |commits|
  {
    VersionTracker.Accepts(commits[i].expected, Count(commits[..i], KeyOf(commits[i])))
  }

  ghost predicate Inv(s: State) {
    && Exclusive(s)
    && (forall t :: t in s.threads ==> StillAccepted(s, s.threads[t]))
    && Counted(s)
    && (forall i :: 0 <= i < |s.commits| ==> CommittedRightly(s.commits, i))
  }

  lemma {:induction false} CommitIsCounted(commits: seq<Write>, w: Write, key: VersionTracker.Key)
    ensures Count(commits + [w], key) == Count(commits, key) + if KeyOf(w) == key then 1 else 0
  {
  }

  lemma {:induction false} QuietKeepsInv(s: State, a: Action)
    requires Inv(s) && Enabled(true, s, a) && !a.CompareAndSet?
    ensures Inv(Perform(true, s, a))
  {
    var s' := Perform(true, s, a);
    forall t | t in s'.threads ensures Holds(s', t) && StillAccepted(s', s'.threads[t]) {
      if t in s.threads {
        assert Holds(s, t) && StillAccepted(s, s.threads[t]);
      }
    }
  }

  lemma {:induction false} CommitKeepsInv(s: State, t: nat)
    requires Inv(s) && Enabled(true, s, CompareAndSet(t))
    ensures Inv(Perform(true, s, CompareAndSet(t)))
  {
    var s' := Perform(true, s, CompareAndSet(t));
    var w := s.threads[t].write;
    assert Holds(s, t) && StillAccepted(s, s.threads[t]);
    forall u | u in s'.threads ensures Holds(s', u) && StillAccepted(s', s'.threads[u]) {
      assert Holds(s, u) && StillAccepted(s, s.threads[u]);
      assert u != t ==> s.threads[u].write.branch != w.branch;
    }
    if s'.commits != s.commits {
      forall key ensures VersionTracker.Version(s'.versions, key) == Count(s'.commits, key) {
        CommitIsCounted(s.commits, w, key);
      }
      forall i | 0 <= i < |s'.commits| ensures CommittedRightly(s'.commits, i) {
        if i < |s.commits| {
          assert CommittedRightly(s.commits, i);
          assert s'.commits[..i] == s.commits[..i];
        } else {
          assert s'.commits[..i] == s.commits;
        }
      }
    }
  }

  lemma {:induction false} ReachableInv(actions: seq<Action>)
    requires Reach(true, actions).Some?
    ensures Inv(Reach(true, actions).value)
  {
    if actions != [] {
      var front, a := actions[..|actions| - 1], actions[|actions| - 1];
      ReachableInv(front);
      if a.CompareAndSet? {
        CommitKeepsInv(Reach(true, front).value, a.thread);
      } else {
        QuietKeepsInv(Reach(true, front).value, a);
      }
    }
  }

  lemma {:induction false} CountGrows(commits: seq<Write>, i: nat, j: nat)
    requires i < j <= |commits|
    ensures Count(commits[..j], KeyOf(commits[i])) > Count(commits[..i], KeyOf(commits[i]))
    decreases j
  {
    var key := KeyOf(commits[i]);
    assert commits[..j][..j - 1] == commits[..j - 1];
    if i < j - 1 {
      CountGrows(commits, i, j - 1);
    }
  }

  /** If both writes of one document expected the same version, the earlier took it from 0 to 1. */
  predicate SharesOnlyTheFirst(commits: seq<Write>, i: nat, j: nat)
    requires i < j < |commits|
  {
    var v, w := commits[i], commits[j];
    (KeyOf(v) == KeyOf(w) && v.expected.Some? && v.expected == w.expected) ==> Count(commits[..i], KeyOf(v)) == 0
  }

  /** With the branch lock, under every interleaving: the version of a document is its number of counted writes;
      each counted write expected nothing, or the version it found, or found no version yet; and of two counted
      writes of one document that expected the same version, one took the document from 0 to 1. */
  lemma {:induction false} FirstCommitterWins(actions: seq<Action>)
    requires Reach(true, actions).Some?
    ensures var s := Reach(true, actions).value;
            && Counted(s)
            && (forall i :: 0 <= i < |s.commits| ==> CommittedRightly(s.commits, i))
            && (forall i, j :: 0 <= i < j < |s.commits| ==> SharesOnlyTheFirst(s.commits, i, j))
  {
    ReachableInv(actions);
    var commits := Reach(true, actions).value.commits;
    forall i, j | 0 <= i < j < |commits| ensures SharesOnlyTheFirst(commits, i, j) {
      assert CommittedRightly(commits, i) && CommittedRightly(commits, j);
      CountGrows(commits, i, j);
    }
  }

  // ---------- the exceptions are real ----------

  lemma {:induction false} ReachStep(locking: bool, actions: seq<Action>, a: Action)
    ensures Reach(locking, actions + [a]) ==
      match Reach(locking, actions)
      case None => None
      case Some(s) => if Enabled(locking, s, a) then Some(Perform(locking, s, a)) else None
  {
  }

  /** The first half of a write with nobody in between. */
  lemma {:induction false} OperateAlone(locking: bool, actions: seq<Action>, t: nat, w: Write)
    returns (after: seq<Action>)
    requires Reach(locking, actions).Some?
    requires var s := Reach(locking, actions).value;
             && t !in s.threads && w.branch !in s.holders
             && VersionTracker.Accepts(w.expected, VersionTracker.Version(s.versions, KeyOf(w)))
    ensures var s := Reach(locking, actions).value;
            Reach(locking, after) == Some(s.(threads := s.threads[t := Done(w)],
                                             holders := if locking then s.holders[w.branch := t] else s.holders))
  {
    ReachStep(locking, actions, Lock(t, w));
    ReachStep(locking, actions + [Lock(t, w)], Verify(t));
    ReachStep(locking, actions + [Lock(t, w)] + [Verify(t)], Operate(t, true));
    after := actions + [Lock(t, w)] + [Verify(t)] + [Operate(t, true)];
    var s := Reach(locking, actions).value;
    assert s.threads[t := Locked(w)][t := Verified(w)][t := Done(w)] == s.threads[t := Done(w)];
  }

  /** The second half. */
  lemma {:induction false} CountAlone(locking: bool, actions: seq<Action>, t: nat, w: Write)
    returns (after: seq<Action>)
    requires Reach(locking, actions).Some?
    requires var s := Reach(locking, actions).value;
             t in s.threads && s.threads[t] == Done(w)
    ensures var s := Reach(locking, actions).value;
            Reach(locking, after)
            == Some(State(VersionTracker.Bump(s.versions, KeyOf(w)), s.holders - {w.branch}, s.threads - {t},
                          s.commits + [w]))
  {
    ReachStep(locking, actions, Read(t));
    ReachStep(locking, actions + [Read(t)], CompareAndSet(t));
    after := actions + [Read(t)] + [CompareAndSet(t)];
    var s := Reach(locking, actions).value;
    assert Reach(locking, actions + [Read(t)]).value.threads - {t} == s.threads - {t};
  }

  /** The write that takes a version from 0 to 1 is not checked, so it can share its expectation with the next. */
  lemma {:induction false} FirstWriteIsUnchecked(w: Write)
    requires w.expected == Some(1)
    ensures exists actions :: Reach(true, actions).Some? && Reach(true, actions).value.commits == [w, w]
  {
    var a := OperateAlone(true, [], 0, w);
    a := CountAlone(true, a, 0, w);
    a := OperateAlone(true, a, 0, w);
    a := CountAlone(true, a, 0, w);
  }

  /** Verifying and counting are separate steps: without the lock two threads can both verify against version 1,
      and both writes are counted. */
  lemma {:induction false} WithoutTheLockUpdatesAreLost(first: Write, w: Write)
    requires first.expected.None? && w.expected == Some(1) && KeyOf(first) == KeyOf(w)
    ensures exists actions :: Reach(false, actions).Some? && Reach(false, actions).value.commits == [first, w, w]
  {
    var a := OperateAlone(false, [], 0, first);
    a := CountAlone(false, a, 0, first);
    a := OperateAlone(false, a, 1, w);
    a := OperateAlone(false, a, 0, w);
    a := CountAlone(false, a, 0, w);
    a := CountAlone(false, a, 1, w);
  }
}
