/** Runs of durable storage over an index that commits now and then, as src/chrondb/index/lucene_nrt.clj does and
    src/chrondb/cli/server.clj opens it: jobs, commits at any moment, and restarts of a process that was killed.  A
    restart finds the documents, the log and the committed writes to the index; the other writes are gone.

    The index works, one job is under way at a time, and no restart interrupts a recovery.
 */
module BufferedIndex {
  import opened WalRecovery

  /** A log entry of the job with this number. */
  datatype Mark = Mark(job: nat, phase: Phase)

  datatype Machine = Machine(
    jobs: seq<Job>,     // all that were logged
    done: nat,          // the steps done of the last one; STEPS if none is under way
    docs: Docs,
    base: Index,        // what the index held at first
    writes: seq<nat>,   // the jobs written to it since, by number
    kept: nat,          // how many of these writes are committed
    wal: seq<Mark>)

  /** A clean shutdown is a commit followed by a restart. */
  datatype Event = Begin(job: Job) | Step | Commit | Restart

  predicate Numbers(writes: seq<nat>, bound: nat) {
    forall i :: 0 <= i < |writes| ==> writes[i] < bound
  }

  predicate Numbered(wal: seq<Mark>, bound: nat) {
    forall i :: 0 <= i < |wal| ==> wal[i].job < bound
  }

  predicate Valid(m: Machine) {
    && m.done <= STEPS && m.kept <= |m.writes|
    && Numbers(m.writes, |m.jobs|) && Numbered(m.wal, |m.jobs|)
    && (m.done < STEPS ==> UnderWay(m))
  }

  predicate UnderWay(m: Machine) {
    && 1 <= m.done <= STEPS && m.jobs != []
    && m.wal != [] && m.wal[|m.wal| - 1] == Mark(|m.jobs| - 1, Marked(Works, m.done))
    && (m.done >= 4 ==> |m.jobs| - 1 in m.writes)
  }

  function StepOn(m: Machine): (r: Machine)
    requires Valid(m) && m.done < STEPS
    ensures Valid(r)
  {
    var k, n := |m.jobs| - 1, m.done + 1;
    m.(done := n,
       docs := if n == 2 then Stored(m.docs, m.jobs[k]) else m.docs,
       writes := if n == 4 then m.writes + [k] else m.writes,
       wal := m.wal[..|m.wal| - 1] + [Mark(k, Marked(Works, n))])
  }

  predicate AllEnded(wal: seq<Mark>) {
    forall i :: 0 <= i < |wal| ==> wal[i].phase.Completed? || wal[i].phase.RolledBack?
  }

  function RecoverMark(m: Machine, mark: Mark): Machine
    requires mark.job < |m.jobs|
  {
    match mark.phase
    case Pending => m.(docs := Stored(m.docs, m.jobs[mark.job]), wal := m.wal + [Mark(mark.job, GitCommitted)])
    case GitCommitted => m.(writes := m.writes + [mark.job])
    case _ => m
  }

  function RecoverMarks(m: Machine, marks: seq<Mark>): (r: Machine)
    requires Valid(m) && m.done == STEPS && Numbered(marks, |m.jobs|)
    ensures Valid(r) && r.jobs == m.jobs && r.done == STEPS && r.base == m.base && r.kept == m.kept
    ensures r.writes[..m.kept] == m.writes[..m.kept]
  {
    if marks == [] then m else RecoverMark(RecoverMarks(m, marks[..|marks| - 1]), marks[|marks| - 1])
  }

  function Restarted(m: Machine): (r: Machine)
    requires Valid(m)
    ensures Valid(r) && r.jobs == m.jobs && r.done == STEPS && r.base == m.base && r.kept == m.kept
    ensures r.writes[..m.kept] == m.writes[..m.kept]
  {
    var found := m.(writes := m.writes[..m.kept], done := STEPS);
    if AllEnded(m.wal) then found else RecoverMarks(found.(wal := []), m.wal)
  }

  /** An event that cannot happen (a job while one is under way, a step while none is) changes nothing. */
  function Apply(m: Machine, e: Event): (r: Machine)
    requires Valid(m)
    ensures Valid(r)
  {
    match e
    case Begin(job) =>
      if m.done < STEPS then m
      else m.(jobs := m.jobs + [job], done := 1, wal := m.wal + [Mark(|m.jobs|, Pending)])
    case Step => if m.done == STEPS then m else StepOn(m)
    case Commit => m.(kept := |m.writes|)
    case Restart => Restarted(m)
  }

  function Run(m: Machine, events: seq<Event>): (r: Machine)
    requires Valid(m)
    ensures Valid(r)
  {
    if events == [] then m else Apply(Run(m, events[..|events| - 1]), events[|events| - 1])
  }

  lemma {:induction false} RunAppend(m: Machine, events: seq<Event>, e: Event)
    requires Valid(m)
    ensures Run(m, events + [e]) == Apply(Run(m, events), e)
  {
  }

  lemma {:induction false} RunSplit(m: Machine, first: seq<Event>, rest: seq<Event>)
    requires Valid(m)
    ensures Run(m, first + rest) == Run(Run(m, first), rest)
  {
    if rest == [] {
      assert first + rest == first;
    } else {
      var front, last := rest[..|rest| - 1], rest[|rest| - 1];
      assert rest == front + [last] && first + rest == (first + front) + [last];
      RunSplit(m, first, front);
      RunAppend(m, first + front, last);
      RunAppend(Run(m, first), front, last);
    }
  }

  // ---------- the recovery of WalRecovery ----------

  function Written(jobs: seq<Job>, writes: seq<nat>): seq<Job>
    requires Numbers(writes, |jobs|)
  {
    seq(|writes|, i requires 0 <= i < |writes| => jobs[writes[i]])
  }

  function LogOf(jobs: seq<Job>, wal: seq<Mark>): seq<Entry>
    requires Numbered(wal, |jobs|)
  {
    seq(|wal|, i requires 0 <= i < |wal| => Entry(jobs[wal[i].job], wal[i].phase))
  }

  function IndexOf(m: Machine): Index
    requires Valid(m)
  {
    AllIndexed(m.base, Written(m.jobs, m.writes))
  }

  /** What the running process has. */
  function View(m: Machine): State
    requires Valid(m)
  {
    State(m.docs, IndexOf(m), LogOf(m.jobs, m.wal))
  }

  /** What is left of it when the process is killed. */
  function Survives(m: Machine): State
    requires Valid(m)
  {
    State(m.docs, AllIndexed(m.base, Written(m.jobs, m.writes[..m.kept])), LogOf(m.jobs, m.wal))
  }

  lemma {:induction false} WriteAppends(base: Index, jobs: seq<Job>, writes: seq<nat>, k: nat)
    requires Numbers(writes, |jobs|) && k < |jobs|
    ensures AllIndexed(base, Written(jobs, writes + [k])) == Indexed(AllIndexed(base, Written(jobs, writes)), jobs[k])
  {
    var all := Written(jobs, writes + [k]);
    assert all[..|all| - 1] == Written(jobs, writes);
  }

  lemma {:induction false} LogAppends(jobs: seq<Job>, wal: seq<Mark>, mark: Mark)
    requires Numbered(wal, |jobs|) && mark.job < |jobs|
    ensures LogOf(jobs, wal + [mark]) == LogOf(jobs, wal) + [Entry(jobs[mark.job], mark.phase)]
  {
  }

  lemma {:induction false} RecoverMarksRefines(m: Machine, marks: seq<Mark>)
    requires Valid(m) && m.done == STEPS && Numbered(marks, |m.jobs|)
    ensures View(RecoverMarks(m, marks)) == RecoverFrom(View(m), LogOf(m.jobs, marks))
  {
    if marks != [] {
      var front, last := marks[..|marks| - 1], marks[|marks| - 1];
      RecoverMarksRefines(m, front);
      var r := RecoverMarks(m, front);
      assert marks == front + [last];
      LogAppends(m.jobs, front, last);
      RecoverAppend(View(m), LogOf(m.jobs, front), Entry(m.jobs[last.job], last.phase));
      RecoverMarkRefines(r, last);
    }
  }

  lemma {:induction false} RecoverMarkRefines(m: Machine, mark: Mark)
    requires Valid(m) && m.done == STEPS && mark.job < |m.jobs|
    ensures Valid(RecoverMark(m, mark))
    ensures View(RecoverMark(m, mark)) == RecoverEntry(View(m), Entry(m.jobs[mark.job], mark.phase))
  {
    WriteAppends(m.base, m.jobs, m.writes, mark.job);
    LogAppends(m.jobs, m.wal, Mark(mark.job, GitCommitted));
  }

  /** A restart is the recovery of what survives. */
  lemma {:induction false} RestartRefines(m: Machine)
    requires Valid(m)
    ensures View(Restarted(m)) == Recover(Survives(m))
  {
    var found := m.(writes := m.writes[..m.kept], done := STEPS);
    assert LogOf(m.jobs, []) == [];
    assert AllEnded(m.wal) <==> Settled(Survives(m)) by {
      forall i | 0 <= i < |m.wal| ensures LogOf(m.jobs, m.wal)[i].phase == m.wal[i].phase {
      }
    }
    if !AllEnded(m.wal) {
      RecoverMarksRefines(found.(wal := []), m.wal);
    }
  }

  // ---------- one job ----------

  predicate Going(events: seq<Event>) {
    forall i :: 0 <= i < |events| ==> events[i].Step? || events[i].Commit?
  }

  /** The steps of a job that has begun, with commits anywhere between. */
  function Steps(events: seq<Event>): (n: nat)
    ensures 1 <= n <= STEPS
  {
    if events == [] then 1
    else
      var n := Steps(events[..|events| - 1]);
      if events[|events| - 1].Step? && n < STEPS then n + 1 else n
  }

  /** There is a commit after the fourth step, which writes to the index. */
  predicate CommitsWrite(events: seq<Event>) {
    exists i :: 0 <= i < |events| && events[i].Commit? && Steps(events[..i]) >= 4
  }

  lemma {:induction false} CommitsWriteStep(front: seq<Event>, last: Event)
    ensures CommitsWrite(front + [last]) <==> CommitsWrite(front) || (last.Commit? && Steps(front) >= 4)
  {
    var events := front + [last];
    assert events[|front|] == last && events[..|front|] == front;
    forall i | 0 <= i < |front| ensures events[i] == front[i] && events[..i] == front[..i] {
    }
  }

  /** Where a job that began in m has come to. */
  predicate Doing(m: Machine, job: Job, events: seq<Event>, r: Machine) {
    var k, n := |m.jobs|, Steps(events);
    && r.jobs == m.jobs + [job] && r.done == n && r.base == m.base
    && r.docs == (if n >= 2 then Stored(m.docs, job) else m.docs)
    && r.writes == (if n >= 4 then m.writes + [k] else m.writes)
    && r.wal == m.wal + [Mark(k, Marked(Works, n))]
    && m.kept <= r.kept && (r.kept > |m.writes| <==> CommitsWrite(events))
  }

  lemma {:induction false} StepsGrow(events: seq<Event>, e: Event)
    ensures Steps(events + [e]) == if e.Step? && Steps(events) < STEPS then Steps(events) + 1 else Steps(events)
  {
    assert (events + [e])[..|events|] == events;
  }

  lemma {:induction false} DoingStep(m: Machine, job: Job, events: seq<Event>, r: Machine)
    requires Valid(m) && Valid(r) && Doing(m, job, events, r)
    ensures Doing(m, job, events + [Step], Apply(r, Step))
  {
    StepsGrow(events, Step);
    CommitsWriteStep(events, Step);
    if r.done < STEPS {
      DoingStepOn(m, job, r);
    }
  }

  lemma {:induction false} DoingStepOn(m: Machine, job: Job, r: Machine)
    requires Valid(m) && Valid(r) && r.done < STEPS && r.jobs == m.jobs + [job]
    requires r.wal == m.wal + [Mark(|m.jobs|, Marked(Works, r.done))]
    ensures StepOn(r) == r.(done := r.done + 1,
                            docs := if r.done == 1 then Stored(r.docs, job) else r.docs,
                            writes := if r.done == 3 then r.writes + [|m.jobs|] else r.writes,
                            wal := m.wal + [Mark(|m.jobs|, Marked(Works, r.done + 1))])
  {
    assert r.wal[..|r.wal| - 1] == m.wal;
  }

  lemma {:induction false} DoingCommit(m: Machine, job: Job, events: seq<Event>, r: Machine)
    requires Valid(m) && Valid(r) && Doing(m, job, events, r)
    ensures Doing(m, job, events + [Commit], Apply(r, Commit))
  {
    StepsGrow(events, Commit);
    CommitsWriteStep(events, Commit);
  }

  lemma {:induction false} OneJobOn(m: Machine, job: Job, events: seq<Event>)
    requires Valid(m) && m.done == STEPS && Going(events)
    ensures Doing(m, job, events, Run(Apply(m, Begin(job)), events))
  {
    if events != [] {
      var front, last := events[..|events| - 1], events[|events| - 1];
      OneJobOn(m, job, front);
      var r := Run(Apply(m, Begin(job)), front);
      assert events == front + [last];
      if last.Step? {
        DoingStep(m, job, front, r);
      } else {
        DoingCommit(m, job, front, r);
      }
    }
  }

  lemma {:induction false} OneJob(m: Machine, job: Job, events: seq<Event>)
    requires Valid(m) && m.done == STEPS && Going(events)
    ensures Doing(m, job, events, Run(m, [Begin(job)] + events))
  {
    OneJobOn(m, job, events);
    RunAppend(m, [], Begin(job));
    assert [] + [Begin(job)] == [Begin(job)];
    RunSplit(m, [Begin(job)], events);
  }

  /** The steps are those of WalRecovery, and commits change nothing that the process sees. */
  lemma {:induction false} StepsRefine(m: Machine, job: Job, events: seq<Event>)
    requires Valid(m) && m.done == STEPS && Going(events)
    ensures View(Run(m, [Begin(job)] + events)) == After(View(m), job, Works, Steps(events))
  {
    OneJob(m, job, events);
    var jobs, k := m.jobs + [job], |m.jobs|;
    assert Written(jobs, m.writes) == Written(m.jobs, m.writes);
    assert LogOf(jobs, m.wal) == LogOf(m.jobs, m.wal);
    WriteAppends(m.base, jobs, m.writes, k);
    LogAppends(jobs, m.wal, Mark(k, Marked(Works, Steps(events))));
  }

  // ---------- how often a job is written ----------

  /** How often the job is among these writes, and how often the log has it in this phase. */
  function Copies(writes: seq<nat>, k: nat): nat {
    multiset(writes)[k]
  }

  function Marks(wal: seq<Mark>, k: nat, phase: Phase): nat {
    multiset(wal)[Mark(k, phase)]
  }

  lemma {:induction false} RecoverMarkCounts(m: Machine, mark: Mark, k: nat)
    requires mark.job < |m.jobs|
    ensures var r := RecoverMark(m, mark);
            && Copies(r.writes, k) == Copies(m.writes, k) + Marks([mark], k, GitCommitted)
            && Marks(r.wal, k, GitCommitted) == Marks(m.wal, k, GitCommitted) + Marks([mark], k, Pending)
            && Marks(r.wal, k, Pending) == Marks(m.wal, k, Pending)
  {
  }

  lemma {:induction false} MarksAdd(front: seq<Mark>, last: Mark, k: nat, phase: Phase)
    ensures Marks(front + [last], k, phase) == Marks(front, k, phase) + Marks([last], k, phase)
  {
  }

  lemma {:induction false} RecoverCounts(m: Machine, marks: seq<Mark>, k: nat)
    requires Valid(m) && m.done == STEPS && Numbered(marks, |m.jobs|)
    ensures var r := RecoverMarks(m, marks);
            && Copies(r.writes, k) == Copies(m.writes, k) + Marks(marks, k, GitCommitted)
            && Marks(r.wal, k, GitCommitted) == Marks(m.wal, k, GitCommitted) + Marks(marks, k, Pending)
            && Marks(r.wal, k, Pending) == Marks(m.wal, k, Pending)
  {
    if marks != [] {
      var front, last := marks[..|marks| - 1], marks[|marks| - 1];
      RecoverCounts(m, front, k);
      RecoverMarkCounts(RecoverMarks(m, front), last, k);
      assert marks == front + [last];
      MarksAdd(front, last, k, Pending);
      MarksAdd(front, last, k, GitCommitted);
    }
  }

  lemma {:induction false} EndedCounts(wal: seq<Mark>, k: nat)
    requires AllEnded(wal)
    ensures Marks(wal, k, Pending) == 0 && Marks(wal, k, GitCommitted) == 0
  {
    assert Mark(k, Pending) !in wal && Mark(k, GitCommitted) !in wal;
  }

  /** A restart keeps the committed copies, writes what was marked stored and nothing else, and marks stored what was
      only logged. */
  lemma {:induction false} RestartCounts(m: Machine, k: nat)
    requires Valid(m)
    ensures var r := Restarted(m);
            && Copies(r.writes, k) == Copies(m.writes[..m.kept], k) + Marks(m.wal, k, GitCommitted)
            && Marks(r.wal, k, GitCommitted) == Marks(m.wal, k, Pending)
            && Marks(r.wal, k, Pending) == 0
  {
    if AllEnded(m.wal) {
      EndedCounts(m.wal, k);
    } else {
      RecoverCounts(m.(writes := m.writes[..m.kept], done := STEPS, wal := []), m.wal, k);
    }
  }

  /** Two restarts, committing in between or not: what the first one writes can be lost to the second. */
  lemma {:induction false} TwoRestartsCount(m: Machine, commit: bool, k: nat)
    requires Valid(m)
    ensures var r := Restarted(m);
            Copies(Restarted(if commit then Apply(r, Commit) else r).writes, k)
            == Copies(m.writes[..m.kept], k) + Marks(m.wal, k, Pending)
               + if commit then Marks(m.wal, k, GitCommitted) else 0
  {
    RestartCounts(m, k);
    var r := Restarted(m);
    RestartCounts(if commit then Apply(r, Commit) else r, k);
    assert r.writes[..|r.writes|] == r.writes;
  }

  lemma {:induction false} FreshNumber(m: Machine)
    requires Valid(m)
    ensures var k := |m.jobs|; Copies(m.writes, k) == 0 && forall phase :: Marks(m.wal, k, phase) == 0
  {
    assert |m.jobs| !in m.writes;
    forall phase ensures Marks(m.wal, |m.jobs|, phase) == 0 {
      assert Mark(|m.jobs|, phase) !in m.wal;
    }
  }

  lemma {:induction false} DoingCounts(m: Machine, job: Job, events: seq<Event>, r: Machine)
    requires Valid(m) && Valid(r) && Doing(m, job, events, r)
    ensures var k, n := |m.jobs|, Steps(events);
            && Copies(r.writes[..r.kept], k) == (if CommitsWrite(events) then 1 else 0)
            && Marks(r.wal, k, Pending) == (if n <= 2 then 1 else 0)
            && Marks(r.wal, k, GitCommitted) == (if 3 <= n <= 4 then 1 else 0)
  {
    var k := |m.jobs|;
    FreshNumber(m);
    if CommitsWrite(events) {
      assert r.writes[..r.kept] == m.writes + [k];
    } else {
      assert r.writes[..r.kept] == m.writes[..r.kept];
      assert k !in m.writes[..r.kept];
    }
  }

  /** How often a job is in the index after it was killed and started twice: if it was killed after at most two of its
      steps, once; after three or four, for its recovery if that was committed before the second kill; and, from the
      fourth on, for its own write if that was committed before the first.  So if recovery is committed, the job is in
      the index if and only if it was killed before its index mark or its write was committed. */
  lemma {:induction false} TwoRestarts(m: Machine, job: Job, events: seq<Event>, commit: bool)
    requires Valid(m) && m.done == STEPS && Going(events)
    ensures var n, first := Steps(events), Restarted(Run(m, [Begin(job)] + events));
            var second := Restarted(if commit then Apply(first, Commit) else first);
            && Copies(second.writes, |m.jobs|) == (if CommitsWrite(events) then 1 else 0)
                                                + (if n <= 2 || (n <= 4 && commit) then 1 else 0)
            && (commit ==> (|m.jobs| in second.writes <==> n <= 4 || CommitsWrite(events)))
  {
    OneJob(m, job, events);
    var r := Run(m, [Begin(job)] + events);
    DoingCounts(m, job, events, r);
    TwoRestartsCount(r, commit, |m.jobs|);
    var first := Restarted(r);
    var second := Restarted(if commit then Apply(first, Commit) else first);
    assert |m.jobs| in second.writes <==> Copies(second.writes, |m.jobs|) > 0;
  }

  // ---------- every run ----------

  /** The log still says that the job has to be written to the index. */
  predicate Owed(m: Machine, k: nat) {
    Mark(k, Pending) in m.wal || Mark(k, GitCommitted) in m.wal
  }

  predicate Held(m: Machine, k: nat) {
    k in m.writes || Owed(m, k)
  }

  /** Its log entry says more than the committed index: if the process is killed now, the job is lost. */
  predicate Exposed(m: Machine, k: nat)
    requires m.kept <= |m.writes|
  {
    k !in m.writes[..m.kept] && !Owed(m, k)
  }

  lemma {:induction false} RestartHoldsIff(m: Machine, k: nat)
    requires Valid(m)
    ensures Held(Restarted(m), k) <==> !Exposed(m, k)
  {
    RestartCounts(m, k);
    assert k in m.writes[..m.kept] <==> Copies(m.writes[..m.kept], k) > 0;
    assert k in Restarted(m).writes <==> Copies(Restarted(m).writes, k) > 0;
  }

  lemma {:induction false} OtherEventsHold(m: Machine, e: Event, k: nat)
    requires Valid(m) && !e.Restart? && k < |m.jobs|
    ensures Held(Apply(m, e), k) <==> Held(m, k)
  {
    if e.Step? && m.done < STEPS {
      var front, last := m.wal[..|m.wal| - 1], m.wal[|m.wal| - 1];
      assert m.wal == front + [last];
    }
  }

  lemma {:induction false} JobsGrow(m: Machine, e: Event)
    requires Valid(m)
    ensures |m.jobs| <= |Apply(m, e).jobs|
  {
  }

  lemma {:induction false} RunGrows(m: Machine, events: seq<Event>, i: nat)
    requires Valid(m) && i <= |events|
    ensures |Run(m, events[..i]).jobs| <= |Run(m, events).jobs|
  {
    if i == |events| {
      assert events[..i] == events;
    } else {
      var front, last := events[..|events| - 1], events[|events| - 1];
      RunGrows(m, front, i);
      assert events[..i] == front[..i];
      JobsGrow(Run(m, front), last);
    }
  }

  /** At the i-th event of the run the process is killed while the job is exposed. */
  predicate KilledExposed(m: Machine, events: seq<Event>, i: nat, k: nat)
    requires Valid(m)
  {
    && i < |events| && events[i].Restart?
    && k < |Run(m, events[..i]).jobs| && Exposed(Run(m, events[..i]), k)
  }

  lemma {:induction false} KilledStep(m: Machine, front: seq<Event>, last: Event, k: nat)
    requires Valid(m)
    ensures (exists i: nat :: KilledExposed(m, front + [last], i, k)) <==>
            (exists i: nat :: KilledExposed(m, front, i, k)) || KilledExposed(m, front + [last], |front|, k)
  {
    var events := front + [last];
    forall i: nat | i < |front| ensures KilledExposed(m, front, i, k) <==> KilledExposed(m, events, i, k) {
      assert events[..i] == front[..i];
    }
    if i: nat :| KilledExposed(m, events, i, k) && i != |front| {
      assert KilledExposed(m, front, i, k);
    }
    if i: nat :| KilledExposed(m, front, i, k) {
      assert KilledExposed(m, events, i, k);
    }
  }

  lemma {:induction false} NotKilledBefore(m: Machine, front: seq<Event>, last: Event, k: nat)
    requires Valid(m) && |Run(m, front).jobs| <= k
    ensures !exists i: nat :: KilledExposed(m, front + [last], i, k)
  {
    forall i: nat | i <= |front| ensures |Run(m, (front + [last])[..i]).jobs| <= k {
      RunGrows(m, front, i);
      assert (front + [last])[..i] == front[..i];
    }
  }

  /** In every run, each job that was logged is in the index or owed to it, if and only if the process was never killed
      while it was exposed. */
  lemma {:induction false} HeldIffNeverExposed(m: Machine, events: seq<Event>, k: nat)
    requires Valid(m) && k < |Run(m, events).jobs| && (k < |m.jobs| ==> Held(m, k))
    ensures Held(Run(m, events), k) <==> !exists i: nat :: KilledExposed(m, events, i, k)
  {
    if events != [] {
      var front, last := events[..|events| - 1], events[|events| - 1];
      var r := Run(m, front);
      assert events == front + [last] && events[..|front|] == front;
      KilledStep(m, front, last, k);
      if k < |r.jobs| {
        HeldIffNeverExposed(m, front, k);
        EventHoldsIff(r, last, k);
      } else {
        BegunIsHeld(r, last, k);
        NotKilledBefore(m, front, last, k);
      }
    }
  }

  lemma {:induction false} EventHoldsIff(m: Machine, e: Event, k: nat)
    requires Valid(m) && k < |m.jobs|
    ensures Held(Apply(m, e), k) <==> Held(m, k) && !(e.Restart? && Exposed(m, k))
  {
    if e.Restart? {
      RestartHoldsIff(m, k);
      assert k in m.writes[..m.kept] ==> k in m.writes;
    } else {
      OtherEventsHold(m, e, k);
    }
  }

  lemma {:induction false} BegunIsHeld(m: Machine, e: Event, k: nat)
    requires Valid(m) && |m.jobs| <= k < |Apply(m, e).jobs|
    ensures e.Begin? && Held(Apply(m, e), k)
  {
    assert Apply(m, e).wal[|m.wal|] == Mark(k, Pending);
  }

  function CleanRestart(m: Machine): (r: Machine)
    requires Valid(m)
    ensures Valid(r)
  {
    Restarted(Apply(m, Commit))
  }

  /** What is held is in the index after two clean restarts, whatever was under way. */
  lemma {:induction false} HeldIsWritten(m: Machine, k: nat)
    requires Valid(m)
    ensures k in CleanRestart(CleanRestart(m)).writes <==> Held(m, k)
  {
    var clean := Apply(m, Commit);
    assert clean.writes[..clean.kept] == m.writes;
    TwoRestartsCount(clean, true, k);
    var after := CleanRestart(CleanRestart(m));
    assert k in after.writes <==> Copies(after.writes, k) > 0;
    assert k in m.writes <==> Copies(m.writes, k) > 0;
  }

  /** The copies there are and the marks that can still make one. */
  function Stakes(m: Machine, k: nat): nat {
    Copies(m.writes, k) + Marks(m.wal, k, Pending) + Marks(m.wal, k, GitCommitted)
  }

  predicate TwiceAtMost(m: Machine, k: nat) {
    Stakes(m, k) <= if k >= |m.jobs| then 0 else if k == |m.jobs| - 1 && m.done < 4 then 1 else 2
  }

  lemma {:induction false} LastReplaced(wal: seq<Mark>, next: Mark, k: nat, phase: Phase)
    requires wal != []
    ensures var front, last := wal[..|wal| - 1], wal[|wal| - 1];
            Marks(front + [next], k, phase) == Marks(wal, k, phase) - Marks([last], k, phase) + Marks([next], k, phase)
  {
    var front, last := wal[..|wal| - 1], wal[|wal| - 1];
    assert wal == front + [last];
    MarksAdd(front, last, k, phase);
    MarksAdd(front, next, k, phase);
  }

  lemma {:induction false} MarkOfStep(job: nat, n: nat, k: nat)
    requires 1 <= n <= STEPS
    ensures var mark := [Mark(job, Marked(Works, n))];
            && Marks(mark, k, Pending) == (if job == k && n <= 2 then 1 else 0)
            && Marks(mark, k, GitCommitted) == (if job == k && 3 <= n <= 4 then 1 else 0)
  {
  }

  lemma {:induction false} StepCopies(m: Machine, k: nat)
    requires Valid(m) && m.done < STEPS
    ensures Copies(StepOn(m).writes, k) == Copies(m.writes, k) + if m.done == 3 && k == |m.jobs| - 1 then 1 else 0
  {
  }

  lemma {:induction false} StepMarks(m: Machine, k: nat, phase: Phase)
    requires Valid(m) && m.done < STEPS
    ensures var job := |m.jobs| - 1;
            Marks(StepOn(m).wal, k, phase)
            == Marks(m.wal, k, phase) - Marks([Mark(job, Marked(Works, m.done))], k, phase)
               + Marks([Mark(job, Marked(Works, m.done + 1))], k, phase)
  {
    var next := Mark(|m.jobs| - 1, Marked(Works, m.done + 1));
    assert StepOn(m).wal == m.wal[..|m.wal| - 1] + [next];
    LastReplaced(m.wal, next, k, phase);
  }

  lemma {:induction false} StepStakes(m: Machine, k: nat)
    requires Valid(m) && m.done < STEPS
    ensures Stakes(StepOn(m), k) <= Stakes(m, k) + if m.done == 3 && k == |m.jobs| - 1 then 1 else 0
  {
    StepCopies(m, k);
    StepMarks(m, k, Pending);
    StepMarks(m, k, GitCommitted);
    MarkOfStep(|m.jobs| - 1, m.done, k);
    MarkOfStep(|m.jobs| - 1, m.done + 1, k);
  }

  lemma {:induction false} RestartStakes(m: Machine, k: nat)
    requires Valid(m)
    ensures Stakes(Restarted(m), k) <= Stakes(m, k)
  {
    RestartCounts(m, k);
    assert m.writes == m.writes[..m.kept] + m.writes[m.kept..];
  }

  lemma {:induction false} EventKeepsTwice(m: Machine, e: Event, k: nat)
    requires Valid(m) && TwiceAtMost(m, k)
    ensures TwiceAtMost(Apply(m, e), k)
  {
    match e
    case Begin(_) =>
      MarksAdd(m.wal, Mark(|m.jobs|, Pending), k, Pending);
      MarksAdd(m.wal, Mark(|m.jobs|, Pending), k, GitCommitted);
    case Step =>
      if m.done < STEPS {
        StepStakes(m, k);
      }
    case Commit =>
    case Restart =>
      RestartStakes(m, k);
  }

  /** In every run no job is ever in the index more than twice. */
  lemma {:induction false} WrittenTwiceAtMost(m: Machine, events: seq<Event>, k: nat)
    requires Valid(m) && TwiceAtMost(m, k)
    ensures TwiceAtMost(Run(m, events), k) && Copies(Run(m, events).writes, k) <= 2
  {
    if events != [] {
      WrittenTwiceAtMost(m, events[..|events| - 1], k);
      EventKeepsTwice(Run(m, events[..|events| - 1]), events[|events| - 1], k);
    }
  }

  // ---------- the documents ----------

  /** The jobs, in order, but for one that is not stored yet; and nothing but it waits to be stored. */
  predicate StoredInOrder(m: Machine, docs: Docs) {
    && m.docs == AllStored(docs, if m.done == 1 && m.jobs != [] then m.jobs[..|m.jobs| - 1] else m.jobs)
    && forall i :: 0 <= i < |m.wal| && m.wal[i].phase.Pending? ==> m.done <= 2 && i == |m.wal| - 1
  }

  lemma {:induction false} StoresNothing(m: Machine, marks: seq<Mark>)
    requires Valid(m) && m.done == STEPS && Numbered(marks, |m.jobs|)
    requires forall i :: 0 <= i < |marks| ==> !marks[i].phase.Pending?
    ensures RecoverMarks(m, marks).docs == m.docs
  {
    if marks != [] {
      StoresNothing(m, marks[..|marks| - 1]);
    }
  }

  lemma {:induction false} RestartStores(m: Machine, docs: Docs)
    requires Valid(m) && StoredInOrder(m, docs)
    ensures Restarted(m).docs == AllStored(docs, m.jobs)
  {
    if !AllEnded(m.wal) {
      var found := m.(writes := m.writes[..m.kept], done := STEPS, wal := []);
      StoresNothing(found, m.wal[..|m.wal| - 1]);
      if m.done <= 2 {
        StoringTwice(AllStored(docs, m.jobs[..|m.jobs| - 1]), m.jobs[|m.jobs| - 1]);
      }
    } else {
      assert m.done <= 2 ==> !m.wal[|m.wal| - 1].phase.Completed?;
    }
  }

  lemma {:induction false} RestartLogsNothing(m: Machine, i: nat)
    requires Valid(m) && i < |Restarted(m).wal|
    ensures !Restarted(m).wal[i].phase.Pending?
  {
    var mark := Restarted(m).wal[i];
    RestartCounts(m, mark.job);
    assert mark in Restarted(m).wal;
  }

  lemma {:induction false} EventStoresInOrder(m: Machine, e: Event, docs: Docs)
    requires Valid(m) && StoredInOrder(m, docs)
    ensures StoredInOrder(Apply(m, e), docs)
  {
    match e
    case Begin(job) =>
      if m.done == STEPS {
        assert (m.jobs + [job])[..|m.jobs|] == m.jobs;
      }
    case Step =>
    case Commit =>
    case Restart =>
      RestartStores(m, docs);
      forall i: nat | i < |Restarted(m).wal| ensures !Restarted(m).wal[i].phase.Pending? {
        RestartLogsNothing(m, i);
      }
  }

  /** In every run, however often the process is killed and whatever the index loses, the documents are those of the
      jobs logged, in order, each stored; but for the one under way, if it has only been logged. */
  lemma {:induction false} DocumentsAreDurable(m: Machine, events: seq<Event>, docs: Docs)
    requires Valid(m) && StoredInOrder(m, docs)
    ensures StoredInOrder(Run(m, events), docs)
  {
    if events != [] {
      DocumentsAreDurable(m, events[..|events| - 1], docs);
      EventStoresInOrder(Run(m, events[..|events| - 1]), events[|events| - 1], docs);
    }
  }

  /** So after every restart each document is what the last job on it that was logged made of it. */
  lemma {:induction false} DocumentsAreTheLastJobs(m: Machine, events: seq<Event>, docs: Docs, i: nat, key: Key)
    requires Valid(m) && StoredInOrder(m, docs)
    requires var jobs := Run(m, events).jobs;
             i < |jobs| && Touches(jobs[i], key) && forall j :: i < j < |jobs| ==> !Touches(jobs[j], key)
    ensures var after, job := Restarted(Run(m, events)).docs, Run(m, events).jobs[i];
            if job.Save? then key in after && after[key] == job.text else key !in after
  {
    DocumentsAreDurable(m, events, docs);
    RestartStores(Run(m, events), docs);
    LastJobDecides(docs, Run(m, events).jobs, i, key);
  }

  // ---------- what indexing the main branch anew mends ----------

  const MAIN := Branch("main")

  datatype Document = Document(id: Id, text: Text)

  /** A listing of the main branch. */
  predicate Lists(documents: seq<Document>, docs: Docs) {
    && (forall d :: d in documents ==> Key(MAIN, d.id) in docs && docs[Key(MAIN, d.id)] == d.text)
    && (forall key :: key in docs && key.branch == MAIN ==> Document(key.id, docs[key]) in documents)
  }

  function MainIds(docs: Docs): set<Id> {
    set key | key in docs && key.branch == MAIN :: key.id
  }

  /** Each document of the main branch has one entry, and all other ids have those they had. */
  function Repopulated(docs: Docs, index: Index): Index {
    map id | id in index.Keys + MainIds(docs) ::
      if Key(MAIN, id) in docs then multiset{docs[Key(MAIN, id)]} else index[id]
  }

  lemma {:induction false} RepopulatedAt(docs: Docs, index: Index, id: Id)
    ensures id in Repopulated(docs, index) <==> Key(MAIN, id) in docs || id in index
    ensures id in Repopulated(docs, index) ==>
              Repopulated(docs, index)[id] == if Key(MAIN, id) in docs then multiset{docs[Key(MAIN, id)]} else index[id]
  {
    assert Key(MAIN, id).branch == MAIN && Key(MAIN, id).id == id;
  }

  predicate PopulatedAt(populated: Index, index: Index, documents: seq<Document>, docs: Docs, id: Id) {
    if Key(MAIN, id) in docs && Document(id, docs[Key(MAIN, id)]) in documents
    then id in populated && populated[id] == multiset{docs[Key(MAIN, id)]}
    else (id in populated <==> id in index) && (id in index ==> populated[id] == index[id])
  }

  /** Deleted from the index and added to it again. */
  function Reentered(index: Index, d: Document): Index {
    Indexed(Indexed(index, Delete(MAIN, d.id)), Save(MAIN, d.id, d.text))
  }

  lemma {:induction false} PopulateOne(populated: Index, index: Index, seen: seq<Document>, d: Document, docs: Docs,
                                       id: Id)
    requires PopulatedAt(populated, index, seen, docs, id)
    requires Key(MAIN, d.id) in docs && docs[Key(MAIN, d.id)] == d.text
    ensures PopulatedAt(Reentered(populated, d), index, seen + [d], docs, id)
  {
    if d.id == id {
      assert Document(id, docs[Key(MAIN, id)]) == d;
    }
  }

  lemma {:induction false} PopulatedIsRepopulated(populated: Index, index: Index, documents: seq<Document>, docs: Docs)
    requires Lists(documents, docs)
    requires forall id :: PopulatedAt(populated, index, documents, docs, id)
    ensures populated == Repopulated(docs, index)
  {
    forall id
      ensures id in populated <==> id in Repopulated(docs, index)
      ensures id in populated ==> populated[id] == Repopulated(docs, index)[id]
    {
      assert PopulatedAt(populated, index, documents, docs, id);
      RepopulatedAt(docs, index, id);
    }
  }

  /** `ensure-index-populated` */
  method Populate(index: Index, documents: seq<Document>, ghost docs: Docs) returns (populated: Index)
    requires Lists(documents, docs)
    ensures populated == Repopulated(docs, index)
  {
    populated := index;
    for i := 0 to |documents|
      invariant forall id :: PopulatedAt(populated, index, documents[..i], docs, id)
    {
      var d := documents[i];
      ghost var seen := documents[..i + 1];
      assert seen == documents[..i] + [d];
      forall id ensures PopulatedAt(Reentered(populated, d), index, seen, docs, id) {
        PopulateOne(populated, index, documents[..i], d, docs, id);
      }
      populated := Reentered(populated, d);
    }
    assert documents[..|documents|] == documents;
    PopulatedIsRepopulated(populated, index, documents, docs);
  }

  /** The two hold the same under the id. */
  predicate SameAt(one: Index, two: Index, id: Id) {
    (id in one <==> id in two) && (id in one && id in two ==> one[id] == two[id])
  }

  lemma {:induction false} SameEverywhere(one: Index, two: Index)
    ensures one == two <==> forall id :: SameAt(one, two, id)
  {
    if forall id :: SameAt(one, two, id) {
      forall id ensures (id in one <==> id in two) && (id in one ==> one[id] == two[id]) {
        assert SameAt(one, two, id);
      }
      assert one == two;
    }
  }

  lemma {:induction false} RepopulatedSameAt(docs: Docs, one: Index, two: Index, id: Id)
    ensures SameAt(Repopulated(docs, one), Repopulated(docs, two), id)
       <==> Key(MAIN, id) in docs || SameAt(one, two, id)
  {
    RepopulatedAt(docs, one, id);
    RepopulatedAt(docs, two, id);
  }

  /** Indexing anew makes two indexes equal if and only if they were equal at all ids that main does not have. */
  lemma {:induction false} RepopulatedAlikeIff(docs: Docs, one: Index, two: Index)
    ensures Repopulated(docs, one) == Repopulated(docs, two)
       <==> forall id :: Key(MAIN, id) in docs || SameAt(one, two, id)
  {
    var first, second := Repopulated(docs, one), Repopulated(docs, two);
    forall id ensures SameAt(first, second, id) <==> Key(MAIN, id) in docs || SameAt(one, two, id) {
      RepopulatedSameAt(docs, one, two, id);
    }
    SameEverywhere(first, second);
  }

  function IndexedTimes(index: Index, job: Job, times: nat): Index
    requires times <= 2
  {
    if times == 0 then index else if times == 1 then Indexed(index, job) else Indexed(Indexed(index, job), job)
  }

  lemma {:induction false} SaveTimesShow(index: Index, job: Job, times: nat)
    requires times <= 2 && job.Save?
    ensures SameAt(IndexedTimes(index, job, times), Indexed(index, job), job.id) <==> times == 1
  {
    var id, entries := job.id, Entries(index, job.id);
    assert |Indexed(index, job)[id]| == |entries| + 1;
    if times == 0 && id in index {
      assert |index[id]| == |entries|;
    } else if times == 2 {
      assert |Indexed(Indexed(index, job), job)[id]| == |entries| + 2;
    }
  }

  lemma {:induction false} TimesShow(index: Index, job: Job, times: nat, id: Id)
    requires times <= 2
    ensures SameAt(IndexedTimes(index, job, times), Indexed(index, job), id)
       <==> id != job.id || times == 1 || (job.Delete? && (times == 2 || id !in index))
  {
    if job.Save? && id == job.id {
      SaveTimesShow(index, job, times);
    }
  }

  lemma {:induction false} EndedAreSkipped(m: Machine, marks: seq<Mark>)
    requires Valid(m) && m.done == STEPS && Numbered(marks, |m.jobs|) && AllEnded(marks)
    ensures RecoverMarks(m, marks) == m
  {
    if marks != [] {
      EndedAreSkipped(m, marks[..|marks| - 1]);
    }
  }

  /** How often one restart leaves the job in the index. */
  function Survivals(events: seq<Event>): nat {
    (if CommitsWrite(events) then 1 else 0) + if 3 <= Steps(events) <= 4 then 1 else 0
  }

  function WrittenTimes(writes: seq<nat>, k: nat, times: nat): seq<nat>
    requires times <= 2
  {
    if times == 0 then writes else if times == 1 then writes + [k] else writes + [k] + [k]
  }

  /** Recovery of a log whose only unfinished entry, if any, is the last. */
  lemma {:induction false} RestartLast(m: Machine, front: seq<Mark>, last: Mark)
    requires Valid(m) && m.wal == front + [last] && AllEnded(front)
    ensures var found := m.(writes := m.writes[..m.kept], done := STEPS);
            Restarted(m) == if AllEnded([last]) then found else RecoverMark(found.(wal := []), last)
  {
    assert m.wal[|front|] == last && m.wal[..|front|] == front;
    forall i | 0 <= i < |front| ensures m.wal[i] == front[i] {
    }
    assert AllEnded(m.wal) <==> AllEnded([last]);
    if !AllEnded(m.wal) {
      EndedAreSkipped(m.(writes := m.writes[..m.kept], done := STEPS, wal := []), front);
    }
  }

  lemma {:induction false} RestartOne(m: Machine, job: Job, events: seq<Event>, r: Machine)
    requires Valid(m) && Valid(r) && Doing(m, job, events, r) && m.kept == |m.writes| && AllEnded(m.wal)
    ensures Survivals(events) <= 2 && Restarted(r).docs == Stored(m.docs, job)
    ensures Restarted(r).writes == WrittenTimes(m.writes, |m.jobs|, Survivals(events))
  {
    var last := Mark(|m.jobs|, Marked(Works, Steps(events)));
    assert r.writes[..r.kept] == if CommitsWrite(events) then m.writes + [|m.jobs|] else m.writes;
    RestartLast(r, m.wal, last);
    assert AllEnded([last]) <==> [last][0].phase.Completed?;
    StoringTwice(m.docs, job);
  }

  lemma {:induction false} WrittenIsIndexed(m: Machine, job: Job, times: nat)
    requires Valid(m) && times <= 2
    ensures Numbers(WrittenTimes(m.writes, |m.jobs|, times), |m.jobs| + 1)
    ensures AllIndexed(m.base, Written(m.jobs + [job], WrittenTimes(m.writes, |m.jobs|, times)))
         == IndexedTimes(IndexOf(m), job, times)
  {
    var jobs, k := m.jobs + [job], |m.jobs|;
    assert Written(jobs, m.writes) == Written(m.jobs, m.writes);
    if times >= 1 {
      WriteAppends(m.base, jobs, m.writes, k);
    }
    if times == 2 {
      WriteAppends(m.base, jobs, m.writes + [k], k);
    }
  }

  lemma {:induction false} IndexAfterRestart(m: Machine, job: Job, events: seq<Event>)
    requires Valid(m) && m.done == STEPS && Going(events) && m.kept == |m.writes| && AllEnded(m.wal)
    ensures Survivals(events) <= 2
    ensures var r := Restarted(Run(m, [Begin(job)] + events));
            r.docs == Stored(m.docs, job) && IndexOf(r) == IndexedTimes(IndexOf(m), job, Survivals(events))
  {
    OneJob(m, job, events);
    RestartOne(m, job, events, Run(m, [Begin(job)] + events));
    WrittenIsIndexed(m, job, Survivals(events));
  }

  /** A job that was killed under way, then a restart that indexes main anew: the index is as if the job had gone
      through if and only if its write survives once, or main has its id now, or it is a delete that survives twice or
      of what the index did not have.  So a save to main is always mended, and a lost delete from main is not. */
  lemma {:induction false} StartMendsIff(m: Machine, job: Job, events: seq<Event>)
    requires Valid(m) && m.done == STEPS && Going(events) && m.kept == |m.writes| && AllEnded(m.wal)
    ensures var r := Restarted(Run(m, [Begin(job)] + events));
            (Repopulated(r.docs, IndexOf(r)) == Repopulated(r.docs, Indexed(IndexOf(m), job)))
            == (Survivals(events) == 1 || Key(MAIN, job.id) in Stored(m.docs, job)
                || (job.Delete? && (Survivals(events) == 2 || job.id !in IndexOf(m))))
  {
    IndexAfterRestart(m, job, events);
    var r, times := Restarted(Run(m, [Begin(job)] + events)), Survivals(events);
    RepopulatedAlikeIff(r.docs, IndexOf(r), Indexed(IndexOf(m), job));
    forall id ensures SameAt(IndexOf(r), Indexed(IndexOf(m), job), id)
                 <==> id != job.id || times == 1 || (job.Delete? && (times == 2 || id !in IndexOf(m))) {
      TimesShow(IndexOf(m), job, times, id);
    }
  }
}
