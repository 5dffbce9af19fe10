/** Client threads, the command channel and the worker, interleaved in every way: opening further instances,
    sending a command, waiting for the reply, dropping instances, and the worker's receives.

    The worker is the state machine of `Worker`; the system remembers the turns the worker took, so whatever is
    proved of every run of the worker holds in every reachable state here.
 */
module ClientProtocol {
  import opened Wrappers
  import opened Handlers
  import opened Worker
  import opened Sequential
  import Transparency

  datatype Event = Invoked(call: nat, request: Request) | Returned(call: nat, body: Reply)

  /** Calls are numbered as they are sent; a call's number also names its private reply channel.  `requests`
      records what each call asked, `waiting` which instance each unreturned call borrows. */
  datatype System<D> = System(
    worker: Worker<D>, turns: seq<Turn>, channel: seq<Command>, instances: set<nat>,
    waiting: map<nat, nat>, requests: seq<Request>, history: seq<Event>)

  datatype Action =
    | Open(instance: nat)                      // another instance on the same paths, by upgrading the weak reference
    | Send(from: nat, request: Request)
    | Receive(call: nat, at: nat)              // the call returns with the answer at `at`
    | Drop(dropped: nat)
    | Work(turn: Turn)

  predicate Enabled<D>(s: System<D>, a: Action) {
    match a
    case Open(h) => s.instances != {} && h !in s.instances
    case Send(h, _) => h in s.instances
    case Receive(call, at) => call in s.waiting && at < |s.worker.answers| && s.worker.answers[at].reply == call
    case Drop(h) => h in s.instances && h !in s.waiting.Values  // a call borrows its instance
    case Work(turn) =>
      && !s.worker.pc.Exited?
      && match turn.wait
         case Got(command, _) => s.channel != [] && s.channel[0] == command
         case TimedOut => true
         case Disconnected => false  // the sender outlives the worker
  }

  function Perform<D>(cfg: Config<D>, s: System<D>, a: Action): System<D>
    requires Enabled(s, a)
  {
    match a
    case Open(h) => s.(instances := s.instances + {h})
    case Send(h, request) =>
      var call := |s.requests|;
      s.(channel := s.channel + [Do(request, call)], waiting := s.waiting[call := h],
         requests := s.requests + [request], history := s.history + [Invoked(call, request)])
    case Receive(call, at) =>
      s.(waiting := s.waiting - {call}, history := s.history + [Returned(call, s.worker.answers[at].body)])
    case Drop(h) =>
      var instances := s.instances - {h};
      s.(instances := instances, channel := if instances == {} then s.channel + [Shutdown] else s.channel)
    case Work(turn) =>
      s.(worker := Step(cfg, s.worker, turn), turns := s.turns + [turn],
         channel := if turn.wait.Got? then s.channel[1..] else s.channel)
  }

  function Initial<D>(st: State<D>, now: nat): System<D> {
    System(Start(st, now), [], [], {0}, map[], [], [])
  }

  /** The states that a sequence of actions leads to; `None` once an action was not enabled. */
  function Reach<D>(cfg: Config<D>, st: State<D>, now: nat, actions: seq<Action>): Option<System<D>> {
    if actions == [] then Some(Initial(st, now))
    else match Reach(cfg, st, now, actions[..|actions| - 1])
      case None => None
      case Some(s) => if Enabled(s, actions[|actions| - 1]) then Some(Perform(cfg, s, actions[|actions| - 1])) else None
  }

  // ---------- the invariant ----------

  /** The k-th command sent is the k-th answered; those not answered yet are in the channel, in order, and after
      them, once the last instance is gone, the shutdown. */
  predicate Queued(answers: seq<Answer>, requests: seq<Request>, channel: seq<Command>, closing: bool) {
    var n := |answers|;
    && n <= |requests|
    && (forall k :: 0 <= k < n ==> answers[k].reply == k && answers[k].request == requests[k])
    && |channel| == |requests| - n + (if closing then 1 else 0)
    && (forall i :: 0 <= i < |requests| - n ==> channel[i] == Do(requests[n + i], n + i))
    && (closing ==> channel[|requests| - n] == Shutdown)
  }

  /** Unanswered calls are waiting, and a waiting call's instance is alive. */
  predicate Borrowed(answered: nat, sent: nat, waiting: map<nat, nat>, instances: set<nat>) {
    && (forall c :: c in waiting ==> c < sent && waiting[c] in instances)
    && (forall c :: answered <= c < sent ==> c in waiting)
  }

  predicate Recorded(history: seq<Event>, answers: seq<Answer>, requests: seq<Request>, waiting: map<nat, nat>) {
    && (forall i :: 0 <= i < |history| && history[i].Invoked? ==>
          history[i].call < |requests| && history[i].request == requests[history[i].call])
    && (forall c :: 0 <= c < |requests| ==> Invoked(c, requests[c]) in history)
    && (forall i :: 0 <= i < |history| && history[i].Returned? ==>
          var c := history[i].call;
          c < |answers| && c < |requests| && c !in waiting && history[i].body == answers[c].body)
    && (forall i, j :: 0 <= i < j < |history| && history[j].Invoked? ==> history[i].call < history[j].call)
    && (forall i, j :: 0 <= i < j < |history| && history[i].Returned? && history[j].Returned? ==>
          history[i].call != history[j].call)
  }

  predicate Closing<D>(s: System<D>) {
    s.instances == {} && !s.worker.pc.Exited?
  }

  predicate Inv<D(==)>(cfg: Config<D>, st: State<D>, now: nat, s: System<D>) {
    && s.worker == Run(cfg, Start(st, now), s.turns)
    && Queued(s.worker.answers, s.requests, s.channel, Closing(s))
    && (s.worker.pc.Exited? ==> s.instances == {})
    && Borrowed(|s.worker.answers|, |s.requests|, s.waiting, s.instances)
    && Recorded(s.history, s.worker.answers, s.requests, s.waiting)
  }

  lemma {:induction false} StepExits<D>(cfg: Config<D>, w: Worker<D>, turn: Turn)
    requires !w.pc.Exited? && !turn.wait.Disconnected?
    ensures Step(cfg, w, turn).pc.Exited? <==> turn.wait.Got? && turn.wait.command.Shutdown?
  {
  }

  lemma {:induction false} AnsweredIsQueued(answers: seq<Answer>, requests: seq<Request>, channel: seq<Command>,
                                            closing: bool, a: Answer)
    requires Queued(answers, requests, channel, closing) && channel != []
    requires channel[0] == Do(a.request, a.reply)
    ensures Queued(answers + [a], requests, channel[1..], closing)
  {
  }

  lemma {:induction false} WorkKeepsInv<D>(cfg: Config<D>, st: State<D>, now: nat, s: System<D>, turn: Turn)
    requires Inv(cfg, st, now, s) && Enabled(s, Work(turn))
    ensures Inv(cfg, st, now, Perform(cfg, s, Work(turn)))
  {
    var s' := Perform(cfg, s, Work(turn));
    assert s'.turns[..|s'.turns| - 1] == s.turns;
    StepAnswers(cfg, s.worker, turn);
    StepExits(cfg, s.worker, turn);
    if turn.wait.Got? && turn.wait.command.Do? {
      var a := s'.worker.answers[|s.worker.answers|];
      AnsweredIsQueued(s.worker.answers, s.requests, s.channel, Closing(s), a);
    }
  }

  lemma {:induction false} InvokedIsRecorded(history: seq<Event>, answers: seq<Answer>, requests: seq<Request>,
                                             waiting: map<nat, nat>, request: Request, h: nat)
    requires Recorded(history, answers, requests, waiting)
    requires |answers| <= |requests|
    ensures Recorded(history + [Invoked(|requests|, request)], answers, requests + [request], waiting[|requests| := h])
  {
  }

  lemma {:induction false} ReturnedIsRecorded(history: seq<Event>, answers: seq<Answer>, requests: seq<Request>,
                                              waiting: map<nat, nat>, call: nat)
    requires Recorded(history, answers, requests, waiting) && call in waiting && call < |answers| <= |requests|
    ensures Recorded(history + [Returned(call, answers[call].body)], answers, requests, waiting - {call})
  {
  }

  lemma {:induction false} SendKeepsInv<D>(cfg: Config<D>, st: State<D>, now: nat, s: System<D>, from: nat,
                                           request: Request)
    requires Inv(cfg, st, now, s) && Enabled(s, Send(from, request))
    ensures Inv(cfg, st, now, Perform(cfg, s, Send(from, request)))
  {
    InvokedIsRecorded(s.history, s.worker.answers, s.requests, s.waiting, request, from);
  }

  lemma {:induction false} ReceiveKeepsInv<D>(cfg: Config<D>, st: State<D>, now: nat, s: System<D>, call: nat, at: nat)
    requires Inv(cfg, st, now, s) && Enabled(s, Receive(call, at))
    ensures Inv(cfg, st, now, Perform(cfg, s, Receive(call, at)))
  {
    ReturnedIsRecorded(s.history, s.worker.answers, s.requests, s.waiting, call);
  }

  lemma {:induction false} InstancesKeepInv<D>(cfg: Config<D>, st: State<D>, now: nat, s: System<D>, a: Action)
    requires Inv(cfg, st, now, s) && Enabled(s, a) && (a.Open? || a.Drop?)
    ensures Inv(cfg, st, now, Perform(cfg, s, a))
  {
  }

  lemma {:induction false} ActionKeepsInv<D>(cfg: Config<D>, st: State<D>, now: nat, s: System<D>, a: Action)
    requires Inv(cfg, st, now, s) && Enabled(s, a)
    ensures Inv(cfg, st, now, Perform(cfg, s, a))
  {
    match a
    case Work(turn) => WorkKeepsInv(cfg, st, now, s, turn);
    case Send(from, request) => SendKeepsInv(cfg, st, now, s, from, request);
    case Receive(call, at) => ReceiveKeepsInv(cfg, st, now, s, call, at);
    case Drop(_) => InstancesKeepInv(cfg, st, now, s, a);
    case Open(_) => InstancesKeepInv(cfg, st, now, s, a);
  }

  lemma {:induction false} ReachableInv<D>(cfg: Config<D>, st: State<D>, now: nat, actions: seq<Action>)
    requires Reach(cfg, st, now, actions).Some?
    ensures Inv(cfg, st, now, Reach(cfg, st, now, actions).value)
  {
    if actions != [] {
      var front := actions[..|actions| - 1];
      ReachableInv(cfg, st, now, front);
      ActionKeepsInv(cfg, st, now, Reach(cfg, st, now, front).value, actions[|actions| - 1]);
    }
  }

  // ---------- what clients can rely on ----------

  /** `Shutdown` is only ever the last command in the channel; when it is there nothing else is, because every
      call has returned; and the worker exits only after the last instance is gone and every call has its answer, so
      that no send or wait ever finds the worker dead. */
  lemma {:induction false} ShutdownIsLast<D>(cfg: Config<D>, st: State<D>, now: nat, actions: seq<Action>)
    requires Reach(cfg, st, now, actions).Some?
    ensures var s := Reach(cfg, st, now, actions).value;
            && (Shutdown in s.channel ==> s.channel == [Shutdown] && s.waiting == map[] && s.instances == {})
            && (s.worker.pc.Exited? ==>
                  s.instances == {} && s.channel == [] && s.waiting == map[] && |s.worker.answers| == |s.requests|)
            && (s.instances == {} ==> forall h, request :: !Enabled(s, Send(h, request)))
  {
    ReachableInv(cfg, st, now, actions);
    var s := Reach(cfg, st, now, actions).value;
    var pending := |s.requests| - |s.worker.answers|;
    if i :| 0 <= i < |s.channel| && s.channel[i] == Shutdown {
      assert i == pending;
    }
    assert pending > 0 ==> |s.worker.answers| in s.waiting;
    assert s.instances == {} ==> s.waiting.Keys == {};
  }

  lemma {:induction false} AnsweredOrInChannel(answers: seq<Answer>, requests: seq<Request>, channel: seq<Command>,
                                               closing: bool, c: nat)
    requires Queued(answers, requests, channel, closing) && c < |requests|
    ensures c < |answers| <==> Do(requests[c], c) !in channel
  {
    forall i | 0 <= i < |channel| && c < |answers| ensures channel[i] != Do(requests[c], c) {
    }
    if c >= |answers| {
      assert channel[c - |answers|] == Do(requests[c], c);
    }
  }

  /** Exactly one answer for each call, on its own reply channel, in the order the calls were sent. */
  lemma {:induction false} ExactlyOneAnswer<D>(cfg: Config<D>, st: State<D>, now: nat, actions: seq<Action>)
    requires Reach(cfg, st, now, actions).Some?
    ensures var s := Reach(cfg, st, now, actions).value;
            && (forall k :: 0 <= k < |s.worker.answers| ==>
                  s.worker.answers[k].reply == k < |s.requests| && s.worker.answers[k].request == s.requests[k])
            && (forall c :: 0 <= c < |s.requests| ==>
                  (c < |s.worker.answers| <==> Do(s.requests[c], c) !in s.channel))
  {
    ReachableInv(cfg, st, now, actions);
    var s := Reach(cfg, st, now, actions).value;
    forall c | 0 <= c < |s.requests|
      ensures c < |s.worker.answers| <==> Do(s.requests[c], c) !in s.channel
    {
      AnsweredOrInChannel(s.worker.answers, s.requests, s.channel, Closing(s), c);
    }
  }

  /** `answers` is a linearization of `history`: each answer is to an invocation, each return is an answer to an
      earlier invocation, no call is answered twice, and a call that returned before another was invoked is
      answered before it. */
  predicate LinearizedBy(history: seq<Event>, answers: seq<Answer>) {
    && (forall k :: 0 <= k < |answers| ==> Invoked(answers[k].reply, answers[k].request) in history)
    && (forall i :: 0 <= i < |history| && history[i].Returned? ==> AnswersEarlierInvocation(history, answers, i))
    && (forall k, l :: 0 <= k < l < |answers| ==> answers[k].reply != answers[l].reply)
    && (forall i, j, k, l ::
          (&& 0 <= i < j < |history| && history[i].Returned? && history[j].Invoked?
           && 0 <= k < |answers| && 0 <= l < |answers|
           && answers[k].reply == history[i].call && answers[l].reply == history[j].call) ==> k < l)
  }

  predicate AnswersEarlierInvocation(history: seq<Event>, answers: seq<Answer>, i: int)
    requires 0 <= i < |history| && history[i].Returned?
  {
    exists a :: a in answers && a.reply == history[i].call && a.body == history[i].body
                && Invoked(a.reply, a.request) in history[..i]
  }

  lemma {:induction false} RecordedIsLinearized(history: seq<Event>, answers: seq<Answer>, requests: seq<Request>,
                                                channel: seq<Command>, closing: bool, waiting: map<nat, nat>)
    requires Recorded(history, answers, requests, waiting) && Queued(answers, requests, channel, closing)
    ensures LinearizedBy(history, answers)
  {
  }

  /** Over all interleavings, for both loops and however reopening goes: the calls are linearizable, and the
      linearization is a sequential execution, text for text, of the served commands in the order of their answers,
      with the database reopened before some of them and refusals in between. */
  lemma {:induction false} Linearizable<D>(cfg: Config<D>, st: State<D>, now: nat, actions: seq<Action>)
    requires Reach(cfg, st, now, actions).Some?
    ensures var s := Reach(cfg, st, now, actions).value;
            && LinearizedBy(s.history, s.worker.answers)
            && PlayedFrom(cfg.lib, st.disk, st.slot, s.worker)
  {
    ReachableInv(cfg, st, now, actions);
    var s := Reach(cfg, st, now, actions).value;
    RunIsPlayed(cfg, st, now, s.turns);
    RecordedIsLinearized(s.history, s.worker.answers, s.requests, s.channel, Closing(s), s.waiting);
  }

  /** In every reachable state each answer is the one owed by the receive of the worker that took its call: served, or
      refused with the text that says whether reopening had just failed or the worker was backing off. */
  lemma {:induction false} CallsAreTold<D>(cfg: Config<D>, st: State<D>, now: nat, actions: seq<Action>, k: nat)
    returns (i: nat)
    requires Reach(cfg, st, now, actions).Some?
    requires k < |Reach(cfg, st, now, actions).value.worker.answers|
    ensures var s := Reach(cfg, st, now, actions).value;
            && i < |s.turns| && Told(cfg, Run(cfg, Start(st, now), s.turns[..i]), s.turns[i], s.worker.answers[k])
            && k < |s.requests| && s.worker.answers[k].request == s.requests[k]
  {
    ReachableInv(cfg, st, now, actions);
    i := EveryAnswerIsTold(cfg, st, now, Reach(cfg, st, now, actions).value.turns, k);
  }

  /** Without idle suspension the linearization is one sequential execution, text for text. */
  lemma {:induction false} PlainCallsAreSequential<D>(cfg: Config<D>, st: State<D>, now: nat, actions: seq<Action>)
    requires Reach(cfg, st, now, actions).Some? && cfg.idleTimeout.None? && st.slot.None?
    ensures var w := Reach(cfg, st, now, actions).value.worker;
            && Replay(cfg.lib, st.disk, Requests(w.answers)) == Session(w.state.disk, w.state.slot, Bodies(w.answers))
  {
    ReachableInv(cfg, st, now, actions);
    PlainLoopIsSequential(cfg, st, now, Reach(cfg, st, now, actions).value.turns);
  }

  /** If every reopen succeeds no call is ever refused. */
  lemma {:induction false} NoRefusalWhileReopensSucceed<D>(cfg: Config<D>, st: State<D>, now: nat, actions: seq<Action>)
    requires Reach(cfg, st, now, actions).Some? && !PathsHaveNul(cfg)
    requires forall i :: 0 <= i < |actions| && actions[i].Work? ==> actions[i].turn.opening.Opens?
    ensures AllServed(Reach(cfg, st, now, actions).value.worker.answers)
  {
    var s := Reach(cfg, st, now, actions).value;
    ReachableInv(cfg, st, now, actions);
    TurnsAreActions(cfg, st, now, actions);
    Transparency.RunsMakeSameCalls(cfg, st, now, s.turns);
  }

  lemma {:induction false} TurnsAreActions<D>(cfg: Config<D>, st: State<D>, now: nat, actions: seq<Action>)
    requires Reach(cfg, st, now, actions).Some?
    ensures forall k :: 0 <= k < |Reach(cfg, st, now, actions).value.turns| ==>
              Work(Reach(cfg, st, now, actions).value.turns[k]) in actions
  {
    if actions != [] {
      var front := actions[..|actions| - 1];
      TurnsAreActions(cfg, st, now, front);
      var before, after := Reach(cfg, st, now, front).value.turns, Reach(cfg, st, now, actions).value.turns;
      forall k | 0 <= k < |after| ensures Work(after[k]) in actions {
        if k < |before| {
          assert Work(before[k]) in front;
        } else {
          assert actions[|front|] == Work(after[k]);
        }
      }
    }
  }
}
