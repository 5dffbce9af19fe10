/** When the idle loop suspends, and how long it waits while the database cannot be reopened. */
module IdleTiming {
  import opened Wrappers
  import opened Handlers
  import opened Worker

  // ---------- never too early ----------

  predicate Mature(stamps: seq<Stamp>, idle: nat, start: nat) {
    forall j :: 0 <= j < |stamps| && stamps[j].Suspended? ==>
      && start + idle <= stamps[j].at
      && forall i :: 0 <= i < j && stamps[i].Took? ==> stamps[i].at + idle <= stamps[j].at
  }

  predicate Timely<D>(w: Worker<D>, idle: nat, start: nat) {
    && start <= w.lastActivity <= w.now
    && Mature(w.stamps, idle, start)
    && (forall i :: 0 <= i < |w.stamps| && w.stamps[i].Took? ==>
          w.stamps[i].at <= if w.suspended then w.now else w.lastActivity)
    && (w.pc.BackingOff? ==> w.suspended)
  }

  lemma {:induction false} StepIsTimely<D>(cfg: Config<D>, w: Worker<D>, turn: Turn, start: nat)
    requires cfg.idleTimeout.Some? && Timely(w, cfg.idleTimeout.value, start)
    ensures Timely(Step(cfg, w, turn), cfg.idleTimeout.value, start)
  {
  }

  /** The isolate is closed no earlier than `idle` after the loop began and after every command taken before. */
  lemma {:induction false} NeverSuspendsEarly<D>(cfg: Config<D>, st: State<D>, start: nat, script: seq<Turn>)
    requires cfg.idleTimeout.Some?
    ensures Mature(Run(cfg, Start(st, start), script).stamps, cfg.idleTimeout.value, start)
    ensures Timely(Run(cfg, Start(st, start), script), cfg.idleTimeout.value, start)
  {
    if script != [] {
      NeverSuspendsEarly(cfg, st, start, script[..|script| - 1]);
      StepIsTimely(cfg, Run(cfg, Start(st, start), script[..|script| - 1]), script[|script| - 1], start);
    }
  }

  // ---------- never too late ----------

  predicate Quiet(script: seq<Turn>) {
    forall k :: 0 <= k < |script| ==> script[k].wait.TimedOut?
  }

  function Max(a: int, b: int): int {
    if a < b then b else a
  }

  /** What `n` silent intervals make of a loop head whose last activity was `elapsed` ago. */
  ghost predicate Silent<D>(idle: nat, interval: nat, w: Worker<D>, n: nat, passed: nat, after: Worker<D>) {
    var elapsed := w.now - w.lastActivity;
    && after.pc.AtHead?
    && (after.suspended <==> n >= 1 && elapsed + passed >= idle)
    && (if after.suspended
        then exists closed: nat ::
               && after.stamps == w.stamps + [Suspended(closed)]
               && idle <= closed - w.lastActivity <= Max(idle, elapsed) + interval
        else after.stamps == w.stamps && after.now == w.now + passed && after.lastActivity == w.lastActivity)
  }

  lemma {:induction false} SilentStep<D>(cfg: Config<D>, w: Worker<D>, n: nat, passed: nat, before: Worker<D>,
                                         turn: Turn)
    requires cfg.idleTimeout.Some? && turn.wait.TimedOut? && w.lastActivity <= w.now && (n == 0 ==> passed == 0)
    requires Silent(cfg.idleTimeout.value, CheckInterval(cfg.idleTimeout.value), w, n, passed, before)
    ensures var interval := CheckInterval(cfg.idleTimeout.value);
            Silent(cfg.idleTimeout.value, interval, w, n + 1, passed + interval, Step(cfg, before, turn))
  {
  }

  /** The time n check intervals take. */
  function Span(n: nat, interval: nat): nat {
    if n == 0 then 0 else Span(n - 1, interval) + interval
  }

  lemma {:induction false} SpanIsProduct(n: nat, interval: nat)
    ensures Span(n, interval) == n * interval
  {
    if n > 0 {
      SpanIsProduct(n - 1, interval);
    }
  }

  lemma {:induction false} SilenceSpans<D>(cfg: Config<D>, w: Worker<D>, silence: seq<Turn>)
    requires cfg.idleTimeout.Some? && w.pc.AtHead? && !w.suspended && w.lastActivity <= w.now && Quiet(silence)
    ensures var interval := CheckInterval(cfg.idleTimeout.value);
            Silent(cfg.idleTimeout.value, interval, w, |silence|, Span(|silence|, interval), Run(cfg, w, silence))
  {
    if silence != [] {
      var front, turn := silence[..|silence| - 1], silence[|silence| - 1];
      SilenceSpans(cfg, w, front);
      var before, passed := Run(cfg, w, front), Span(|front|, CheckInterval(cfg.idleTimeout.value));
      SilentStep(cfg, w, |front|, passed, before, turn);
    }
  }

  /** From any loop head with the isolate open, the n-th silent receive in a row finds it closed exactly when n
      intervals have made up for the idle time; and the closing falls in the stated window. */
  lemma {:induction false} SilenceSuspends<D>(cfg: Config<D>, w: Worker<D>, silence: seq<Turn>)
    requires cfg.idleTimeout.Some? && w.pc.AtHead? && !w.suspended && w.lastActivity <= w.now && Quiet(silence)
    ensures var interval := CheckInterval(cfg.idleTimeout.value);
            Silent(cfg.idleTimeout.value, interval, w, |silence|, |silence| * interval, Run(cfg, w, silence))
  {
    SilenceSpans(cfg, w, silence);
    SpanIsProduct(|silence|, CheckInterval(cfg.idleTimeout.value));
  }

  /** After a served command that ran for `busy`, silence closes the isolate no later than
      max(idle, busy) + interval from the moment the command was taken up, and no earlier than idle. */
  lemma {:induction false} SuspendedInTime<D>(cfg: Config<D>, w: Worker<D>, turn: Turn, silence: seq<Turn>)
    requires cfg.idleTimeout.Some? && w.pc.AtHead? && turn.wait.Got? && turn.wait.command.Do? && Quiet(silence)
    requires Step(cfg, w, turn).pc.AtHead? && !Step(cfg, w, turn).suspended
    requires |silence| >= 1
             && turn.busy + |silence| * CheckInterval(cfg.idleTimeout.value) >= cfg.idleTimeout.value
    ensures var served := Step(cfg, w, turn);
            var idle := cfg.idleTimeout.value;
            exists closed: nat ::
              && Run(cfg, served, silence).suspended
              && Run(cfg, served, silence).stamps == served.stamps + [Suspended(closed)]
              && idle <= closed - served.lastActivity <= Max(idle, turn.busy) + CheckInterval(idle)
  {
    SilenceSuspends(cfg, Step(cfg, w, turn), silence);
  }

  // ---------- accounting of failed reopens ----------

  /** Receives that end within their timeout, on a channel that stays disconnected once it is. */
  predicate WellTimed<D>(cfg: Config<D>, w: Worker<D>, script: seq<Turn>) {
    if script == [] then true
    else
      var front, turn := script[..|script| - 1], script[|script| - 1];
      var before := Run(cfg, w, front);
      && WellTimed(cfg, w, front)
      && (before.pc.BackingOff? && turn.wait.Got? ==> turn.wait.after <= BackoffTime(before.reopenFailures))
      && (front != [] && front[|front| - 1].wait.Disconnected? ==> turn.wait.Disconnected?)
  }

  /** Failures to reopen since the last success. */
  function Failures(stamps: seq<Stamp>): nat {
    if stamps == [] then 0
    else
      var front, last := stamps[..|stamps| - 1], stamps[|stamps| - 1];
      if last.Reopened? then 0 else Failures(front) + if last.ReopenFailed? then 1 else 0
  }

  /** Time spent in backoff waits since the last success. */
  function TotalWait(stamps: seq<Stamp>): nat {
    if stamps == [] then 0
    else
      var front, last := stamps[..|stamps| - 1], stamps[|stamps| - 1];
      if last.Reopened? then 0 else TotalWait(front) + if last.Waited? then last.duration else 0
  }

  function BackoffSum(n: nat): nat {
    if n == 0 then 0 else BackoffSum(n - 1) + BackoffTime(n)
  }

  lemma {:induction false} BackoffClosedForm(n: nat)
    ensures BackoffSum(n) == SECOND * (if n <= 5 then Pow2(n + 1) - 2 else 62 + 32 * (n - 5))
    ensures n >= 1 ==> BackoffTime(n) <= 32 * SECOND
  {
    assert Pow2(1) == 2 && Pow2(2) == 4 && Pow2(3) == 8 && Pow2(4) == 16 && Pow2(5) == 32 && Pow2(6) == 64;
    if n > 0 {
      BackoffClosedForm(n - 1);
    }
  }

  /** Each failure is followed by exactly one wait, which is either the whole backoff, or cut short by one
      rejected command, or the last thing that happens. */
  predicate Adjacent(a: Stamp, b: Stamp) {
    && (a.ReopenFailed? <==> b.Waited?)
    && (b.Waited? ==>
          && b.failures == a.failures
          && b.duration <= BackoffTime(b.failures)
          && (b.how.Elapsed? ==> b.duration == BackoffTime(b.failures)))
    && !(a.Waited? && a.how.Interrupted?)
  }

  predicate Alternates(stamps: seq<Stamp>, pc: Pc) {
    && (stamps != [] ==> !stamps[0].Waited?)
    && (forall i :: 0 < i < |stamps| ==> Adjacent(stamps[i - 1], stamps[i]))
    && (pc.BackingOff? <==> stamps != [] && stamps[|stamps| - 1].ReopenFailed?)
  }

  function CountFailed(stamps: seq<Stamp>): nat {
    if stamps == [] then 0
    else CountFailed(stamps[..|stamps| - 1]) + if stamps[|stamps| - 1].ReopenFailed? then 1 else 0
  }

  function CountRejected(stamps: seq<Stamp>): nat {
    if stamps == [] then 0
    else
      var last := stamps[|stamps| - 1];
      CountRejected(stamps[..|stamps| - 1]) + if last.Waited? && last.how.Rejected? then 1 else 0
  }

  /** The answers that the dispatcher did not give. */
  function Unserved(answers: seq<Answer>): seq<Answer> {
    if answers == [] then []
    else Unserved(answers[..|answers| - 1]) + if answers[|answers| - 1].served then [] else [answers[|answers| - 1]]
  }

  /** The text that each failure, and each wait cut short by a command, owes to a caller. */
  function TextOf(s: Stamp): seq<string> {
    if s.ReopenFailed? then [REOPEN_FAILED] else if s.Waited? && s.how.Rejected? then [UNAVAILABLE] else []
  }

  function Texts(stamps: seq<Stamp>): (texts: seq<string>)
    ensures |texts| == CountFailed(stamps) + CountRejected(stamps)
  {
    if stamps == [] then [] else Texts(stamps[..|stamps| - 1]) + TextOf(stamps[|stamps| - 1])
  }

  /** The answers not served are the refusals with these texts, one for one and in this order. */
  predicate Refused(answers: seq<Answer>, texts: seq<string>) {
    && |Unserved(answers)| == |texts|
    && forall i :: 0 <= i < |texts| ==> Unserved(answers)[i].body == Rejection(Unserved(answers)[i].request, texts[i])
  }

  /** What the accounting looks at. */
  datatype Ledger = Ledger(stamps: seq<Stamp>, pc: Pc, failures: nat, answers: seq<Answer>)

  function LedgerOf<D>(w: Worker<D>): Ledger {
    Ledger(w.stamps, w.pc, w.reopenFailures, w.answers)
  }

  predicate Accounted(l: Ledger) {
    && l.failures == Failures(l.stamps)
    && (l.pc.BackingOff? ==> l.failures >= 1)
    && TotalWait(l.stamps) <= BackoffSum(if l.pc.BackingOff? then l.failures - 1 else l.failures)
    && Alternates(l.stamps, l.pc)
    && (l.pc.BackingOff? ==> l.stamps[|l.stamps| - 1].failures == l.failures)
    && Refused(l.answers, Texts(l.stamps))
    && CountRejected(l.stamps) + (if l.pc.BackingOff? then 1 else 0) <= CountFailed(l.stamps)
  }

  predicate Over(stamps: seq<Stamp>) {
    stamps != [] && stamps[|stamps| - 1].Waited? && stamps[|stamps| - 1].how.Interrupted?
  }

  lemma {:induction false} Unroll(stamps: seq<Stamp>, s: Stamp)
    ensures Failures(stamps + [s]) == if s.Reopened? then 0 else Failures(stamps) + if s.ReopenFailed? then 1 else 0
    ensures TotalWait(stamps + [s])
         == if s.Reopened? then 0 else TotalWait(stamps) + if s.Waited? then s.duration else 0
    ensures CountFailed(stamps + [s]) == CountFailed(stamps) + if s.ReopenFailed? then 1 else 0
    ensures CountRejected(stamps + [s]) == CountRejected(stamps) + if s.Waited? && s.how.Rejected? then 1 else 0
    ensures Texts(stamps + [s]) == Texts(stamps) + TextOf(s)
  {
  }

  lemma {:induction false} RefusalIsRefused(answers: seq<Answer>, texts: seq<string>, a: Answer, text: string)
    requires Refused(answers, texts) && !a.served && a.body == Rejection(a.request, text)
    ensures Refused(answers + [a], texts + [text])
  {
  }

  lemma {:induction false} AnswerIsAccounted(l: Ledger, a: Answer)
    requires Accounted(l) && a.served
    ensures Accounted(l.(answers := l.answers + [a]))
  {
  }

  lemma {:induction false} StampIsAccounted(l: Ledger, s: Stamp)
    requires Accounted(l) && !l.pc.BackingOff? && !Over(l.stamps) && (s.Took? || s.Suspended? || s.Reopened?)
    ensures Accounted(l.(stamps := l.stamps + [s], failures := if s.Reopened? then 0 else l.failures))
  {
  }

  lemma {:induction false} FailureIsAccounted(l: Ledger, at: nat, a: Answer)
    requires Accounted(l) && !l.pc.BackingOff? && !Over(l.stamps)
    requires !a.served && a.body == Rejection(a.request, REOPEN_FAILED)
    ensures Accounted(Ledger(l.stamps + [ReopenFailed(at, l.failures + 1)], BackingOff, l.failures + 1,
                             l.answers + [a]))
  {
  }

  lemma {:induction false} WaitIsAccounted(l: Ledger, s: Stamp, pc: Pc, rejected: seq<Answer>)
    requires Accounted(l) && l.pc.BackingOff? && !pc.BackingOff? && s.Waited? && s.failures == l.failures
    requires s.duration <= BackoffTime(l.failures) && (s.how.Elapsed? ==> s.duration == BackoffTime(l.failures))
    requires if s.how.Rejected? then |rejected| == 1 && !rejected[0].served
                                     && rejected[0].body == Rejection(rejected[0].request, UNAVAILABLE)
             else rejected == []
    ensures Accounted(Ledger(l.stamps + [s], pc, l.failures, l.answers + rejected))
  {
    Unroll(l.stamps, s);
    if s.how.Rejected? {
      RefusalIsRefused(l.answers, Texts(l.stamps), rejected[0], UNAVAILABLE);
      assert rejected == [rejected[0]];
    } else {
      assert l.answers + rejected == l.answers;
    }
  }

  /** What taking a command does to the ledger: it is served at once, served after a reopen, or refused. */
  predicate TakesInto(l: Ledger, took: Stamp, s: Stamp, a: Answer, l': Ledger) {
    var taken := l.(stamps := l.stamps + [took]);
    && took.Took?
    && if s.ReopenFailed? then
         !a.served && a.body == Rejection(a.request, REOPEN_FAILED) && s.failures == l.failures + 1
         && l' == Ledger(taken.stamps + [s], BackingOff, s.failures, l.answers + [a])
       else
         && a.served
         && l' == if s.Reopened? then taken.(stamps := taken.stamps + [s], failures := 0, answers := l.answers + [a])
                  else taken.(answers := l.answers + [a])
  }

  lemma {:induction false} HeadTakes<D>(cfg: Config<D>, idle: nat, w: Worker<D>, turn: Turn)
    returns (took: Stamp, s: Stamp, a: Answer)
    requires w.pc.AtHead? && turn.wait.Got? && turn.wait.command.Do?
    ensures TakesInto(LedgerOf(w), took, s, a, LedgerOf(HeadStep(cfg, idle, w, turn)))
  {
    var after := HeadStep(cfg, idle, w, turn);
    took := Took(w.now + turn.wait.after);
    s, a := after.stamps[|after.stamps| - 1], after.answers[|w.answers|];
  }

  lemma {:induction false} TakingIsAccounted(l: Ledger, took: Stamp, s: Stamp, a: Answer, l': Ledger)
    requires Accounted(l) && !l.pc.BackingOff? && !Over(l.stamps) && TakesInto(l, took, s, a, l')
    ensures Accounted(l')
  {
    var taken := l.(stamps := l.stamps + [took]);
    StampIsAccounted(l, took);
    if s.ReopenFailed? {
      FailureIsAccounted(taken, s.at, a);
    } else if s.Reopened? {
      StampIsAccounted(taken, s);
      AnswerIsAccounted(taken.(stamps := taken.stamps + [s], failures := 0), a);
    } else {
      AnswerIsAccounted(taken, a);
    }
  }

  /** A silent receive leaves the ledger alone or adds the stamp of a suspension. */
  lemma {:induction false} SilenceIsAccounted(l: Ledger, s: Stamp, l': Ledger)
    requires Accounted(l) && !l.pc.BackingOff? && !Over(l.stamps) && s.Suspended?
    requires l' == l || l' == l.(stamps := l.stamps + [s])
    ensures Accounted(l')
  {
  }

  lemma {:induction false} ExitIsAccounted(l: Ledger)
    requires Accounted(l) && !l.pc.BackingOff?
    ensures Accounted(l.(pc := Exited))
  {
  }

  lemma {:induction false} HeadIsAccounted<D>(cfg: Config<D>, idle: nat, w: Worker<D>, turn: Turn)
    requires Accounted(LedgerOf(w)) && w.pc.AtHead? && (Over(w.stamps) ==> turn.wait.Disconnected?)
    ensures Accounted(LedgerOf(HeadStep(cfg, idle, w, turn)))
  {
    var l, l' := LedgerOf(w), LedgerOf(HeadStep(cfg, idle, w, turn));
    if turn.wait.Got? && turn.wait.command.Do? {
      var took, s, a := HeadTakes(cfg, idle, w, turn);
      TakingIsAccounted(l, took, s, a, l');
    } else if turn.wait.TimedOut? {
      SilenceIsAccounted(l, Suspended(w.now + CheckInterval(idle)), l');
    } else {
      ExitIsAccounted(l);
    }
  }

  lemma {:induction false} BackoffIsAccounted<D>(w: Worker<D>, turn: Turn)
    requires Accounted(LedgerOf(w)) && w.pc.BackingOff?
    requires turn.wait.Got? ==> turn.wait.after <= BackoffTime(w.reopenFailures)
    ensures Accounted(LedgerOf(BackoffStep(w, turn)))
  {
    var after := BackoffStep(w, turn);
    var rejected := after.answers[|w.answers|..];
    assert after.answers == w.answers + rejected;
    WaitIsAccounted(LedgerOf(w), after.stamps[|w.stamps|], after.pc, rejected);
  }

  lemma {:induction false} StepIsOver<D>(cfg: Config<D>, w: Worker<D>, turn: Turn)
    requires cfg.idleTimeout.Some? && (Over(w.stamps) ==> w.pc.Exited? || turn.wait.Disconnected?)
    ensures Over(Step(cfg, w, turn).stamps) ==> Step(cfg, w, turn).pc.Exited? || turn.wait.Disconnected?
  {
  }

  lemma {:induction false} StepIsAccounted<D>(cfg: Config<D>, w: Worker<D>, turn: Turn)
    requires cfg.idleTimeout.Some? && Accounted(LedgerOf(w))
    requires Over(w.stamps) ==> w.pc.Exited? || turn.wait.Disconnected?
    requires w.pc.BackingOff? && turn.wait.Got? ==> turn.wait.after <= BackoffTime(w.reopenFailures)
    ensures Accounted(LedgerOf(Step(cfg, w, turn)))
    ensures Over(Step(cfg, w, turn).stamps) ==> Step(cfg, w, turn).pc.Exited? || turn.wait.Disconnected?
  {
    StepIsOver(cfg, w, turn);
    if w.pc.AtHead? {
      HeadIsAccounted(cfg, cfg.idleTimeout.value, w, turn);
    } else if w.pc.BackingOff? {
      BackoffIsAccounted(w, turn);
    }
  }

  /** Over every well-timed run: attempts and waits alternate, each wait is at most the backoff of its failure and
      all of it unless a command was rejected or the loop is ending; the waits since the last success add up to
      no more than the sum of the backoffs; and the answers not served are one refusal for each failure and at most
      one more for its wait, in that order and with their own texts. */
  lemma {:induction false} ReopenIsAccounted<D>(cfg: Config<D>, st: State<D>, start: nat, script: seq<Turn>)
    requires cfg.idleTimeout.Some? && WellTimed(cfg, Start(st, start), script)
    ensures var w := Run(cfg, Start(st, start), script);
            && Accounted(LedgerOf(w))
            && (Over(w.stamps) ==> w.pc.Exited? || (script != [] && script[|script| - 1].wait.Disconnected?))
            && |Unserved(w.answers)| <= 2 * CountFailed(w.stamps)
  {
    if script != [] {
      var front, turn := script[..|script| - 1], script[|script| - 1];
      ReopenIsAccounted(cfg, st, start, front);
      StepIsAccounted(cfg, Run(cfg, Start(st, start), front), turn);
    }
  }
}
