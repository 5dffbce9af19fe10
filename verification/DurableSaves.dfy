/** Saves with an expected version as src/chrondb/storage/durable.clj runs them: the version is verified before the
    branch lock is taken and not again under it; then the document is saved and the write counted.  Deletes take
    the lock and count nothing.

    Nothing that the lock protects throws a version conflict, so that a save is tried once.  A delete is tried again
    while it does not find the document; in the runs here it is an attempt that does, or the last.
 */
module DurableSaves {
  import opened Wrappers
  import Retry
  import VersionTracker

  type Key = VersionTracker.Key
  type Versions = VersionTracker.Versions

  /** A plain save is one that expects nothing. */
  datatype Job =
    | Save(document: string, branch: Option<string>, expected: Option<int>)
    | Delete(document: string, branch: Option<string>)

  function BranchOr(branch: Option<string>, default: string): string {
    if branch.Some? then branch.value else default
  }

  /** Where the expectation is checked. */
  function CheckedKey(job: Job): Key {
    (job.document, BranchOr(job.branch, "main"))
  }

  /** Where the document is saved and counted; `default` is the configured default branch. */
  function SavedKey(default: string, job: Job): Key {
    (job.document, BranchOr(job.branch, default))
  }

  /** Where a thread is; `at` is the number of writes counted when it verified. */
  datatype Pc =
    | Verified(job: Job, at: nat)  // waiting for the lock
    | Locked(job: Job, at: nat)
    | Stored(job: Job, at: nat)    // saved, not counted yet
    | Swapping(job: Job, at: nat, seen: Versions, next: Versions)

  /** A counted write. */
  datatype Commit = Commit(job: Job, at: nat)

  datatype State = State(versions: Versions, holders: map<string, nat>, threads: map<nat, Pc>, commits: seq<Commit>)

  datatype Action =
    | Begin(thread: nat, job: Job)
    | Lock(thread: nat)
    | Operate(thread: nat, succeeds: bool)
    | Read(thread: nat)
    | CompareAndSet(thread: nat)

  const START := State(map[], map[], map[], [])

  predicate Enabled(default: string, s: State, a: Action) {
    match a
    case Begin(t, _) => t !in s.threads
    case Lock(t) => t in s.threads && s.threads[t].Verified? && SavedKey(default, s.threads[t].job).1 !in s.holders
    case Operate(t, _) => t in s.threads && s.threads[t].Locked?
    case Read(t) => t in s.threads && s.threads[t].Stored?
    case CompareAndSet(t) => t in s.threads && s.threads[t].Swapping?
  }

  predicate Passes(s: State, job: Job) {
    job.Save? ==> VersionTracker.Accepts(job.expected, VersionTracker.Version(s.versions, CheckedKey(job)))
  }

  /** The thread is done, and gives the lock back. */
  function Leave(default: string, s: State, t: nat): State
    requires t in s.threads
  {
    s.(threads := s.threads - {t}, holders := s.holders - {SavedKey(default, s.threads[t].job).1})
  }

  function Perform(default: string, s: State, a: Action): State
    requires Enabled(default, s, a)
  {
    match a
    case Begin(t, job) => if Passes(s, job) then s.(threads := s.threads[t := Verified(job, |s.commits|)]) else s
    case Lock(t) =>
      var pc := s.threads[t];
      s.(threads := s.threads[t := Locked(pc.job, pc.at)], holders := s.holders[SavedKey(default, pc.job).1 := t])
    case Operate(t, succeeds) =>
      var pc := s.threads[t];
      if succeeds && pc.job.Save? then s.(threads := s.threads[t := Stored(pc.job, pc.at)]) else Leave(default, s, t)
    case Read(t) =>
      var pc := s.threads[t];
      var next := VersionTracker.Bump(s.versions, SavedKey(default, pc.job));
      s.(threads := s.threads[t := Swapping(pc.job, pc.at, s.versions, next)])
    case CompareAndSet(t) =>
      var pc := s.threads[t];
      if s.versions == pc.seen then
        Leave(default, s, t).(versions := pc.next, commits := s.commits + [Commit(pc.job, pc.at)])
      else s.(threads := s.threads[t := Stored(pc.job, pc.at)])
  }

  function Reach(default: string, actions: seq<Action>): Option<State> {
    if actions == [] then Some(START)
    else match Reach(default, actions[..|actions| - 1])
      case None => None
      case Some(s) =>
        var a := actions[|actions| - 1];
        if Enabled(default, s, a) then Some(Perform(default, s, a)) else None
  }

  // ---------- what every run keeps ----------

  function Count(default: string, commits: seq<Commit>, key: Key): nat {
    if commits == [] then 0
    else
      var front, last := commits[..|commits| - 1], commits[|commits| - 1];
      Count(default, front, key) + if SavedKey(default, last.job) == key then 1 else 0
  }

  /** The expectation was accepted when it was verified. */
  predicate WasAccepted(default: string, commits: seq<Commit>, job: Job, at: nat)
    requires at <= |commits|
  {
    job.Save? ==> VersionTracker.Accepts(job.expected, Count(default, commits[..at], CheckedKey(job)))
  }

  predicate ThreadInv(default: string, s: State, pc: Pc) {
    && pc.at <= |s.commits|
    && WasAccepted(default, s.commits, pc.job, pc.at)
    && (pc.Stored? || pc.Swapping? ==> pc.job.Save?)
    && (pc.Swapping? ==> pc.next == VersionTracker.Bump(pc.seen, SavedKey(default, pc.job)))
  }

  predicate CommitInv(default: string, commits: seq<Commit>, i: nat)
    requires i < |commits|
  {
    commits[i].job.Save? && commits[i].at <= i && WasAccepted(default, commits, commits[i].job, commits[i].at)
  }

  /** Every version is its number of counted writes. */
  ghost predicate Counted(default: string, s: State) {
    forall key :: VersionTracker.Version(s.versions, key) == Count(default, s.commits, key)
  }

  ghost predicate Inv(default: string, s: State) {
    && Counted(default, s)
    && (forall t :: t in s.threads ==> ThreadInv(default, s, s.threads[t]))
    && (forall i :: 0 <= i < |s.commits| ==> CommitInv(default, s.commits, i))
  }

  lemma {:induction false} CommitIsCounted(default: string, commits: seq<Commit>, c: Commit, key: Key)
    ensures Count(default, commits + [c], key)
         == Count(default, commits, key) + if SavedKey(default, c.job) == key then 1 else 0
  {
  }

  lemma {:induction false} QuietKeepsInv(default: string, s: State, a: Action)
    requires Inv(default, s) && Enabled(default, s, a)
    requires Perform(default, s, a).commits == s.commits
    ensures Inv(default, Perform(default, s, a))
  {
    assert s.commits[..|s.commits|] == s.commits;
  }

  lemma {:induction false} StaysAccepted(default: string, commits: seq<Commit>, c: Commit, job: Job, at: nat)
    requires at <= |commits|
    ensures WasAccepted(default, commits + [c], job, at) == WasAccepted(default, commits, job, at)
  {
    assert (commits + [c])[..at] == commits[..at];
  }

  lemma {:induction false} SwapKeepsInv(default: string, s: State, t: nat)
    requires Inv(default, s) && Enabled(default, s, CompareAndSet(t)) && s.versions == s.threads[t].seen
    ensures Inv(default, Perform(default, s, CompareAndSet(t)))
  {
    var s' := Perform(default, s, CompareAndSet(t));
    var pc := s.threads[t];
    var c := Commit(pc.job, pc.at);
    assert ThreadInv(default, s, pc) && s'.commits == s.commits + [c];
    forall u | u in s'.threads ensures ThreadInv(default, s', s'.threads[u]) {
      assert ThreadInv(default, s, s.threads[u]);
      StaysAccepted(default, s.commits, c, s.threads[u].job, s.threads[u].at);
    }
    forall key ensures VersionTracker.Version(s'.versions, key) == Count(default, s'.commits, key) {
      CommitIsCounted(default, s.commits, c, key);
    }
    forall i | 0 <= i < |s'.commits| ensures CommitInv(default, s'.commits, i) {
      assert i < |s.commits| ==> CommitInv(default, s.commits, i);
      StaysAccepted(default, s.commits, c, s'.commits[i].job, s'.commits[i].at);
    }
  }

  lemma {:induction false} ReachableInv(default: string, actions: seq<Action>)
    requires Reach(default, actions).Some?
    ensures Inv(default, Reach(default, actions).value)
  {
    if actions != [] {
      var front, a := actions[..|actions| - 1], actions[|actions| - 1];
      ReachableInv(default, front);
      var s := Reach(default, front).value;
      if a.CompareAndSet? && s.versions == s.threads[a.thread].seen {
        SwapKeepsInv(default, s, a.thread);
      } else {
        QuietKeepsInv(default, s, a);
      }
    }
  }

  // ---------- when a counted write was right ----------

  /** The write at `i` was made against a version that its expectation accepts. */
  predicate Rightly(default: string, commits: seq<Commit>, i: nat)
    requires i < |commits|
  {
    var job := commits[i].job;
    job.Save? ==> VersionTracker.Accepts(job.expected, Count(default, commits[..i], SavedKey(default, job)))
  }

  /** No other write of the same document and branch was counted between its check and its own. */
  predicate Undisturbed(default: string, commits: seq<Commit>, i: nat)
    requires i < |commits|
  {
    forall j :: commits[i].at <= j < i ==> SavedKey(default, commits[j].job) != SavedKey(default, commits[i].job)
  }

  lemma {:induction false} CountBetween(default: string, commits: seq<Commit>, lo: nat, hi: nat, key: Key)
    requires lo <= hi <= |commits|
    ensures Count(default, commits[..lo], key) <= Count(default, commits[..hi], key)
    ensures Count(default, commits[..lo], key) == Count(default, commits[..hi], key)
       <==> forall j :: lo <= j < hi ==> SavedKey(default, commits[j].job) != key
    decreases hi
  {
    if lo < hi {
      CountBetween(default, commits, lo, hi - 1, key);
      assert commits[..hi][..hi - 1] == commits[..hi - 1];
    }
  }

  /** Is the expectation checked on the branch that is saved to? */
  predicate ChecksItsBranch(default: string, job: Job) {
    job.branch.Some? || default == "main"
  }

  /** In every run each version is its number of counted writes; and a counted write that was checked on its own
      branch was right if and only if it expected nothing, or no other write of the document was counted between its
      check and its own, or there was no version yet when it was checked and it expected just the one it then met. */
  lemma {:induction false} RightIffUndisturbed(default: string, actions: seq<Action>, i: nat)
    requires Reach(default, actions).Some? && i < |Reach(default, actions).value.commits|
    requires ChecksItsBranch(default, Reach(default, actions).value.commits[i].job)
    ensures var s := Reach(default, actions).value;
            var c := s.commits[i];
            var key := SavedKey(default, c.job);
            && Counted(default, s)
            && c.job.Save? && c.at <= i
            && (Rightly(default, s.commits, i) <==>
                  || c.job.expected.None?
                  || Undisturbed(default, s.commits, i)
                  || (Count(default, s.commits[..c.at], key) == 0
                      && c.job.expected == Some(Count(default, s.commits[..i], key))))
  {
    ReachableInv(default, actions);
    var commits := Reach(default, actions).value.commits;
    assert CommitInv(default, commits, i);
    CountBetween(default, commits, commits[i].at, i, SavedKey(default, commits[i].job));
  }

  // ---------- what callers can arrange ----------

  predicate Saving(default: string, s: State, t: nat, key: Key) {
    t in s.threads && s.threads[t].job.Save? && SavedKey(default, s.threads[t].job) == key
  }

  /** A run in which no save of a document on a branch begins while another is under way. */
  ghost predicate Disjoint(default: string, actions: seq<Action>)
    requires Reach(default, actions).Some?
  {
    actions == [] ||
    var front, a := actions[..|actions| - 1], actions[|actions| - 1];
    Disjoint(default, front) &&
    (a.Begin? && a.job.Save? ==> forall t :: !Saving(default, Reach(default, front).value, t, SavedKey(default, a.job)))
  }

  /** One save at a time, and nothing counted for its document since it was checked. */
  predicate Alone(default: string, s: State, t: nat)
    requires t in s.threads && s.threads[t].at <= |s.commits|
  {
    var key := SavedKey(default, s.threads[t].job);
    && (forall u :: u in s.threads && Saving(default, s, u, key) ==> u == t)
    && (forall j :: s.threads[t].at <= j < |s.commits| ==> SavedKey(default, s.commits[j].job) != key)
  }

  ghost predicate AllAlone(default: string, s: State) {
    && (forall t :: t in s.threads && s.threads[t].job.Save? ==> s.threads[t].at <= |s.commits| && Alone(default, s, t))
    && (forall i :: 0 <= i < |s.commits| ==> Undisturbed(default, s.commits, i))
  }

  lemma {:induction false} QuietKeepsAlone(default: string, s: State, a: Action)
    requires AllAlone(default, s) && Enabled(default, s, a) && Perform(default, s, a).commits == s.commits
    requires a.Begin? && a.job.Save? ==> forall t :: !Saving(default, s, t, SavedKey(default, a.job))
    ensures AllAlone(default, Perform(default, s, a))
  {
    var s' := Perform(default, s, a);
    forall t | t in s'.threads && s'.threads[t].job.Save?
      ensures s'.threads[t].at <= |s'.commits| && Alone(default, s', t)
    {
      var key := SavedKey(default, s'.threads[t].job);
      if t in s.threads {
        assert Alone(default, s, t) && Saving(default, s, t, key);
      }
      forall u | u in s'.threads && Saving(default, s', u, key) ensures u == t {
        assert u in s.threads ==> Saving(default, s, u, key);
      }
    }
  }

  lemma {:induction false} SwapKeepsAlone(default: string, s: State, t: nat)
    requires Inv(default, s) && AllAlone(default, s) && Enabled(default, s, CompareAndSet(t))
    requires s.versions == s.threads[t].seen
    ensures AllAlone(default, Perform(default, s, CompareAndSet(t)))
  {
    var s' := Perform(default, s, CompareAndSet(t));
    var mine := SavedKey(default, s.threads[t].job);
    assert ThreadInv(default, s, s.threads[t]) && Alone(default, s, t);
    forall u | u in s'.threads && s'.threads[u].job.Save? ensures Alone(default, s', u) {
      assert Alone(default, s, u) && Saving(default, s, t, mine);
      forall v | v in s'.threads && Saving(default, s', v, SavedKey(default, s'.threads[u].job)) ensures v == u {
        assert Saving(default, s, v, SavedKey(default, s.threads[u].job));
      }
    }
    forall i | 0 <= i < |s'.commits| ensures Undisturbed(default, s'.commits, i) {
      if i < |s.commits| {
        assert Undisturbed(default, s.commits, i);
      }
    }
  }

  lemma {:induction false} DisjointRunsAreAlone(default: string, actions: seq<Action>)
    requires Reach(default, actions).Some? && Disjoint(default, actions)
    ensures AllAlone(default, Reach(default, actions).value)
  {
    if actions != [] {
      var front := actions[..|actions| - 1];
      DisjointRunsAreAlone(default, front);
      ReachableInv(default, front);
      var s, a := Reach(default, front).value, actions[|actions| - 1];
      if a.CompareAndSet? && s.versions == s.threads[a.thread].seen {
        SwapKeepsAlone(default, s, a.thread);
      } else {
        QuietKeepsAlone(default, s, a);
      }
    }
  }

  /** Of two writes that expected the same version of one document, the earlier took it from 0 to 1. */
  predicate SharesOnlyTheFirst(default: string, commits: seq<Commit>, i: nat, j: nat)
    requires i < j < |commits|
  {
    var key, v, w := SavedKey(default, commits[i].job), commits[i].job, commits[j].job;
    (v.Save? && w.Save? && SavedKey(default, w) == key && v.expected.Some? && v.expected == w.expected) ==>
      Count(default, commits[..i], key) == 0
  }

  /** First committer wins if callers name the branch, or the default branch is main, and saves of one document on one
      branch do not overlap: then every counted write was right. */
  lemma {:induction false} FirstCommitterWinsIfDisjoint(default: string, actions: seq<Action>)
    requires Reach(default, actions).Some? && Disjoint(default, actions)
    requires forall i :: 0 <= i < |Reach(default, actions).value.commits| ==>
               ChecksItsBranch(default, Reach(default, actions).value.commits[i].job)
    ensures var commits := Reach(default, actions).value.commits;
            && (forall i :: 0 <= i < |commits| ==> Rightly(default, commits, i))
            && (forall i, j :: 0 <= i < j < |commits| ==> SharesOnlyTheFirst(default, commits, i, j))
  {
    var commits := Reach(default, actions).value.commits;
    DisjointRunsAreAlone(default, actions);
    forall i | 0 <= i < |commits| ensures Rightly(default, commits, i) && commits[i].job.Save? {
      RightIffUndisturbed(default, actions, i);
    }
    forall i, j | 0 <= i < j < |commits| ensures SharesOnlyTheFirst(default, commits, i, j) {
      var key := SavedKey(default, commits[i].job);
      assert Rightly(default, commits, i) && Rightly(default, commits, j);
      CountBetween(default, commits, i, j, key);
    }
  }

  // ---------- runs in which it does not hold ----------

  lemma {:induction false} ReachStep(default: string, actions: seq<Action>, a: Action)
    ensures Reach(default, actions + [a]) ==
      match Reach(default, actions)
      case None => None
      case Some(s) => if Enabled(default, s, a) then Some(Perform(default, s, a)) else None
  {
  }

  lemma {:induction false} CheckAlone(default: string, actions: seq<Action>, t: nat, job: Job)
    returns (after: seq<Action>)
    requires Reach(default, actions).Some?
    requires t !in Reach(default, actions).value.threads && Passes(Reach(default, actions).value, job)
    ensures var s := Reach(default, actions).value;
            Reach(default, after) == Some(s.(threads := s.threads[t := Verified(job, |s.commits|)]))
  {
    after := actions + [Begin(t, job)];
    ReachStep(default, actions, Begin(t, job));
  }

  /** A checked save goes through while nobody else does anything. */
  lemma {:induction false} SaveAlone(default: string, actions: seq<Action>, t: nat, job: Job, at: nat)
    returns (after: seq<Action>)
    requires Reach(default, actions).Some? && job.Save?
    requires var s := Reach(default, actions).value;
             t in s.threads && s.threads[t] == Verified(job, at) && SavedKey(default, job).1 !in s.holders
    ensures var s := Reach(default, actions).value;
            Reach(default, after) == Some(State(VersionTracker.Bump(s.versions, SavedKey(default, job)), s.holders,
                                                s.threads - {t}, s.commits + [Commit(job, at)]))
  {
    var s := Reach(default, actions).value;
    ReachStep(default, actions, Lock(t));
    ReachStep(default, actions + [Lock(t)], Operate(t, true));
    var saved := actions + [Lock(t)] + [Operate(t, true)];
    assert Reach(default, saved).value.threads == s.threads[t := Stored(job, at)];
    ReachStep(default, saved, Read(t));
    ReachStep(default, saved + [Read(t)], CompareAndSet(t));
    after := saved + [Read(t)] + [CompareAndSet(t)];
    var s' := Reach(default, after).value;
    assert s'.threads == s.threads - {t};
    assert s'.holders == s.holders;
  }

  lemma {:induction false} TwoBefore(default: string, first: Job, save: Job)
    requires save.Save? && save.expected == Some(1) && SavedKey(default, first) == SavedKey(default, save)
    ensures !Rightly(default, [Commit(first, 0), Commit(save, 1), Commit(save, 1)], 2)
  {
    var key, one := SavedKey(default, save), [Commit(first, 0)];
    CommitIsCounted(default, [], Commit(first, 0), key);
    CommitIsCounted(default, one, Commit(save, 1), key);
    assert [] + [Commit(first, 0)] == one;
    assert [Commit(first, 0), Commit(save, 1), Commit(save, 1)][..2] == one + [Commit(save, 1)];
  }

  lemma {:induction false} BothChecked(default: string, first: Job, save: Job) returns (actions: seq<Action>)
    requires first.Save? && first.expected.None? && save.Save? && save.expected == Some(1)
    requires SavedKey(default, first) == SavedKey(default, save) && ChecksItsBranch(default, save)
    ensures Reach(default, actions) == Some(State(map[SavedKey(default, save) := 1], map[],
              map[0 := Verified(save, 1), 1 := Verified(save, 1)], [Commit(first, 0)]))
  {
    actions := CheckAlone(default, [], 0, first);
    actions := SaveAlone(default, actions, 0, first, 0);
    var s := Reach(default, actions).value;
    assert s.versions == map[SavedKey(default, save) := 1] && s.threads == map[] && s.holders == map[];
    assert |s.commits| == 1 && s.commits == [Commit(first, 0)];
    actions := CheckAlone(default, actions, 0, save);
    var t := Reach(default, actions).value;
    actions := CheckAlone(default, actions, 1, save);
    assert t.threads[1 := Verified(save, 1)] == map[0 := Verified(save, 1), 1 := Verified(save, 1)];
  }

  /** The lock does not help: two saves that expect version 1 are both checked, then both saved and counted. */
  lemma {:induction false} OverlappingSavesAreBothCounted(default: string, first: Job, save: Job)
    requires first.Save? && first.expected.None? && save.Save? && save.expected == Some(1)
    requires SavedKey(default, first) == SavedKey(default, save) && ChecksItsBranch(default, save)
    ensures exists actions :: Reach(default, actions).Some?
              && Reach(default, actions).value.commits == [Commit(first, 0), Commit(save, 1), Commit(save, 1)]
              && !Rightly(default, Reach(default, actions).value.commits, 2)
  {
    var a := BothChecked(default, first, save);
    a := SaveAlone(default, a, 0, save, 1);
    a := SaveAlone(default, a, 1, save, 1);
    TwoBefore(default, first, save);
    assert Reach(default, a).value.commits == [Commit(first, 0), Commit(save, 1), Commit(save, 1)];
  }

  /** Without a branch name the check looks at main while the save goes to the default branch: any expectation
      passes. */
  lemma {:induction false} DefaultBranchIsNotChecked(default: string, document: string, expected: int)
    requires default != "main"
    ensures var save := Save(document, None, Some(expected));
            exists actions :: Reach(default, actions).Some?
              && Reach(default, actions).value.commits == [Commit(Save(document, None, None), 0), Commit(save, 1)]
  {
    var a := CheckAlone(default, [], 0, Save(document, None, None));
    a := SaveAlone(default, a, 0, Save(document, None, None), 0);
    a := CheckAlone(default, a, 0, Save(document, None, Some(expected)));
    a := SaveAlone(default, a, 0, Save(document, None, Some(expected)), 1);
  }

  /** In every run a delete leaves versions and counted writes alone, so that an expectation from before it is still
      accepted after it. */
  lemma {:induction false} DeletesAreNotCounted(default: string, actions: seq<Action>, a: Action)
    requires Reach(default, actions + [a]).Some?
    requires a.thread in Reach(default, actions).value.threads
    requires Reach(default, actions).value.threads[a.thread].job.Delete?
    ensures var s, s' := Reach(default, actions).value, Reach(default, actions + [a]).value;
            && s'.versions == s.versions && s'.commits == s.commits
            && forall save: Job :: Passes(s', save) <==> Passes(s, save)
  {
    ReachStep(default, actions, a);
    ReachableInv(default, actions);
    var s := Reach(default, actions).value;
    assert ThreadInv(default, s, s.threads[a.thread]);
  }

  // ---------- deletes are retried ----------

  type Docs = set<string>

  /** One attempt to delete: false, which the retry takes for a failure, if the document is not there. */
  function TryDelete(document: string, others: (Docs, nat) -> Docs)
    : (Docs, nat) -> (Docs, Retry.Attempt<bool, string, string>)
  {
    (docs: Docs, attempt: nat) =>
      var now := others(docs, attempt);
      if document in now then (now - {document}, Retry.Success(true)) else (now, Retry.Falsy)
  }

  /** The documents of the branch that the k-th attempt sees; `others` is what other threads make of them before it. */
  function Seen(document: string, others: (Docs, nat) -> Docs, docs: Docs, k: nat): Docs
    requires k >= 1
  {
    others(Retry.Before(TryDelete(document, others), docs, k), k)
  }

  /** A durable delete returns if and only if one of the attempts allowed sees the document; the first that does takes
      it away.  Otherwise all are made, nothing is taken away, and what is thrown in the end is nil. */
  method DeleteDocument(document: string, others: (Docs, nat) -> Docs, docs: Docs, c: Retry.Config, draws: nat -> real)
    returns (result: Retry.Result<bool, string, string>, final: Docs, calls: nat)
    ensures 1 <= calls <= Retry.Allowed(c)
    ensures result.Returned? <==>
            exists k: nat :: 1 <= k <= Retry.Allowed(c) && document in Seen(document, others, docs, k)
    ensures forall k: nat :: 1 <= k < calls ==> document !in Seen(document, others, docs, k)
    ensures final == Seen(document, others, docs, calls) - {document}
    ensures result.Returned? ==> document in Seen(document, others, docs, calls)
    ensures !result.Returned? ==> result == Retry.ThrownNil && calls == Retry.Allowed(c)
  {
    var acts: seq<Retry.Act<string>>;
    var f := TryDelete(document, others);
    result, final, calls, acts := Retry.WithOccRetry(f, docs, c, draws);
    forall k: nat | 1 <= k <= calls
      ensures Retry.Settles(Retry.Outcome(f, docs, k)) <==> document in Seen(document, others, docs, k)
    {
    }
  }
}
