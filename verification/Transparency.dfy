/** When idle suspension is invisible.  Reopening indexes the documents of the default branch anew, so the loop that
    suspends answers like the loop that does not exactly if no caller can tell a store from its reopened form.
 */
module Transparency {
  import opened Wrappers
  import opened ChronDBLib
  import opened Handlers
  import opened Worker
  import opened IdleTiming
  import opened Sequential

  function NeverIdle<D>(cfg: Config<D>): Config<D> {
    cfg.(idleTimeout := None)
  }

  predicate AllOpen(script: seq<Turn>) {
    forall k :: 0 <= k < |script| ==> script[k].opening.Opens?
  }

  /** The same commands without the reopening. */
  function Unmarked(moves: seq<Move>): seq<Move> {
    seq(|moves|, i requires 0 <= i < |moves| => Move(moves[i].request, false))
  }

  lemma {:induction false} UnmarkedAppend(moves: seq<Move>, move: Move)
    ensures Unmarked(moves + [move]) == Unmarked(moves) + [Move(move.request, false)]
  {
  }

  // ---------- the two loops side by side ----------

  /** Both loops have taken and served the same calls. */
  predicate SameCalls<D>(idle: Worker<D>, plain: Worker<D>) {
    && idle.pc == plain.pc && !idle.pc.BackingOff?
    && AllServed(idle.answers) && AllServed(plain.answers)
    && Replies(idle.answers) == Replies(plain.answers)
    && Requests(idle.answers) == Requests(plain.answers)
    && plain.moves == Unmarked(idle.moves)
  }

  /** Before it serves a command the loop reopens at most. */
  lemma {:induction false} StepServes<D>(cfg: Config<D>, w: Worker<D>, turn: Turn) returns (a: Answer, reopened: bool)
    requires !PathsHaveNul(cfg) && turn.opening.Opens? && w.pc.AtHead? && turn.wait.Got? && turn.wait.command.Do?
    ensures var Do(request, reply) := turn.wait.command;
            && Step(cfg, w, turn).answers == w.answers + [a]
            && a.served && a.request == request && a.reply == reply
            && Step(cfg, w, turn).moves == w.moves + [Move(request, reopened)]
            && Step(cfg, w, turn).pc == w.pc
    ensures cfg.idleTimeout.None? ==> !reopened
  {
    var w' := Step(cfg, w, turn);
    a, reopened := w'.answers[|w.answers|], cfg.idleTimeout.Some? && w.suspended;
  }

  lemma {:induction false} CallsAppend(answers: seq<Answer>, a: Answer)
    ensures Replies(answers + [a]) == Replies(answers) + [a.reply]
    ensures Requests(answers + [a]) == Requests(answers) + [a.request]
  {
  }

  lemma {:induction false} StepKeepsSameCalls<D>(cfg: Config<D>, idle: Worker<D>, plain: Worker<D>, turn: Turn)
    requires !PathsHaveNul(cfg) && turn.opening.Opens? && SameCalls(idle, plain)
    ensures SameCalls(Step(cfg, idle, turn), Step(NeverIdle(cfg), plain, turn))
  {
    if !idle.pc.Exited? && turn.wait.Got? && turn.wait.command.Do? {
      var a, reopened := StepServes(cfg, idle, turn);
      var b, never := StepServes(NeverIdle(cfg), plain, turn);
      UnmarkedAppend(idle.moves, Move(a.request, reopened));
      CallsAppend(idle.answers, a);
      CallsAppend(plain.answers, b);
    }
  }

  lemma {:induction false} RunsMakeSameCalls<D>(cfg: Config<D>, st: State<D>, now: nat, script: seq<Turn>)
    requires !PathsHaveNul(cfg) && AllOpen(script)
    ensures SameCalls(Run(cfg, Start(st, now), script), Run(NeverIdle(cfg), Start(st, now), script))
  {
    if script != [] {
      var front := script[..|script| - 1];
      RunsMakeSameCalls(cfg, st, now, front);
      StepKeepsSameCalls(cfg, Run(cfg, Start(st, now), front), Run(NeverIdle(cfg), Start(st, now), front),
                         script[|script| - 1]);
    }
  }

  /** While every command is served the answers are the replies to the moves. */
  lemma {:induction false} BodiesArePlayed<D>(cfg: Config<D>, st: State<D>, now: nat, script: seq<Turn>)
    requires AllServed(Run(cfg, Start(st, now), script).answers)
    ensures var w := Run(cfg, Start(st, now), script);
            var session := Play(cfg.lib, st.disk, st.slot, w.moves);
            Bodies(w.answers) == session.replies && w.state.disk == session.disk
  {
    RunIsPlayed(cfg, st, now, script);
    AllServedAreServed(Run(cfg, Start(st, now), script).answers);
  }

  // ---------- a relation that reopening respects ----------

  /** Stores that no command tells apart, ever, even if the first of them is reopened now and then. */
  ghost predicate Respected<D(!new)>(lib: Library<D>, alike: (D, D) -> bool) {
    && (forall a, b, op: Op, args, branch :: alike(a, b) ==>
          && lib.run(a, op, args, branch).1 == lib.run(b, op, args, branch).1
          && alike(lib.run(a, op, args, branch).0, lib.run(b, op, args, branch).0))
    && (forall a, b :: alike(a, b) ==> alike(lib.onOpen(a), b))
  }

  lemma {:induction false} ExecutedAlike<D(!new)>(lib: Library<D>, alike: (D, D) -> bool, a: D, b: D,
                                                  slot1: Option<string>, slot2: Option<string>, request: Request)
    requires Respected(lib, alike) && alike(a, b)
    ensures alike(Execute(lib, a, slot1, request).0, Execute(lib, b, slot2, request).0)
    ensures SameButStaleText(lib, b, request, Execute(lib, a, slot1, request).2, Execute(lib, b, slot2, request).2)
    ensures slot1 == slot2 ==> Execute(lib, a, slot1, request).2 == Execute(lib, b, slot2, request).2
  {
    if request.Call? {
      assert lib.run(a, request.op, request.args, request.branch).1
          == lib.run(b, request.op, request.args, request.branch).1;
    }
  }

  /** The store that the k-th request finds when no database is ever reopened. */
  function StoreBefore<D>(lib: Library<D>, disk: D, moves: seq<Move>, k: nat): D
    requires k <= |moves|
  {
    Play(lib, disk, None, Unmarked(moves[..k])).disk
  }

  predicate SameUpToStaleText<D>(lib: Library<D>, disk: D, moves: seq<Move>, a: seq<Reply>, b: seq<Reply>) {
    && |a| == |b| == |moves|
    && forall k :: 0 <= k < |moves| ==>
         SameButStaleText(lib, StoreBefore(lib, disk, moves, k), moves[k].request, a[k], b[k])
  }

  lemma {:induction false} PlayedAlike<D(!new)>(lib: Library<D>, alike: (D, D) -> bool, disk: D, moves: seq<Move>)
    requires Respected(lib, alike) && alike(disk, disk)
    ensures var reopening, plain := Play(lib, disk, None, moves), Play(lib, disk, None, Unmarked(moves));
            && alike(reopening.disk, plain.disk)
            && SameUpToStaleText(lib, disk, moves, reopening.replies, plain.replies)
            && (Contained(lib) ==> reopening.replies == plain.replies)
  {
    if moves != [] {
      var front, last := moves[..|moves| - 1], moves[|moves| - 1];
      assert front + [last] == moves;
      PlayedAlike(lib, alike, disk, front);
      var a, b := Play(lib, disk, None, front), Play(lib, disk, None, Unmarked(front));
      UnmarkedAppend(front, last);
      PlayAppend(lib, disk, None, front, last);
      PlayAppend(lib, disk, None, Unmarked(front), Move(last.request, false));
      if Contained(lib) {
        PlaysWithEmptySlot(lib, disk, front);
        PlaysWithEmptySlot(lib, disk, Unmarked(front));
      }
      if last.reopened {
        ExecutedAlike(lib, alike, lib.onOpen(a.disk), b.disk, None, b.slot, last.request);
      } else {
        ExecutedAlike(lib, alike, a.disk, b.disk, a.slot, b.slot, last.request);
      }
      PrefixesAlike(lib, disk, front, last, a.replies, b.replies);
    }
  }

  lemma {:induction false} PrefixesAlike<D>(lib: Library<D>, disk: D, front: seq<Move>, last: Move, a: seq<Reply>,
                                            b: seq<Reply>)
    requires SameUpToStaleText(lib, disk, front, a, b)
    ensures StoreBefore(lib, disk, front + [last], |front|) == Play(lib, disk, None, Unmarked(front)).disk
    ensures forall k :: 0 <= k < |front| ==>
              SameButStaleText(lib, StoreBefore(lib, disk, front + [last], k), (front + [last])[k].request, a[k], b[k])
  {
    assert (front + [last])[..|front|] == front;
    forall k | 0 <= k < |front|
      ensures SameButStaleText(lib, StoreBefore(lib, disk, front + [last], k), (front + [last])[k].request, a[k], b[k])
    {
      assert (front + [last])[..k] == front[..k];
      assert SameButStaleText(lib, StoreBefore(lib, disk, front, k), front[k].request, a[k], b[k]);
    }
  }

  /** If some relation holds of the store to itself and is respected by every command and by reopening then, whatever
      is received and wherever the timeouts fall, the loop that suspends takes the same calls, exits like the
      other and gives the same answers; only a text left in the slot by an earlier command can differ (it dies
      with the isolate).  No text differs if get, list and history never throw, as is so behind this library. */
  lemma {:induction false} SuspensionIsTransparent<D(!new)>(cfg: Config<D>, alike: (D, D) -> bool,
                                                            st: State<D>, now: nat, script: seq<Turn>)
    requires !PathsHaveNul(cfg) && AllOpen(script) && st.slot.None?
    requires Respected(cfg.lib, alike) && alike(st.disk, st.disk)
    ensures var idle, plain := Run(cfg, Start(st, now), script), Run(NeverIdle(cfg), Start(st, now), script);
            && SameCalls(idle, plain)
            && SameUpToStaleText(cfg.lib, st.disk, idle.moves, Bodies(idle.answers), Bodies(plain.answers))
            && alike(idle.state.disk, plain.state.disk)
            && (Contained(cfg.lib) ==> idle.answers == plain.answers)
  {
    var idle, plain := Run(cfg, Start(st, now), script), Run(NeverIdle(cfg), Start(st, now), script);
    RunsMakeSameCalls(cfg, st, now, script);
    BodiesArePlayed(cfg, st, now, script);
    BodiesArePlayed(NeverIdle(cfg), st, now, script);
    PlayedAlike(cfg.lib, alike, st.disk, idle.moves);
    if Contained(cfg.lib) {
      SameAnswersFromBodies(idle.answers, plain.answers);
    }
  }

  lemma {:induction false} SameAnswersFromBodies(a: seq<Answer>, b: seq<Answer>)
    requires AllServed(a) && AllServed(b)
    requires Replies(a) == Replies(b) && Requests(a) == Requests(b) && Bodies(a) == Bodies(b)
    ensures a == b
  {
    forall k | 0 <= k < |a| ensures k < |b| && a[k] == b[k] {
      assert Replies(a)[k] == Replies(b)[k] && Requests(a)[k] == Requests(b)[k] && Bodies(a)[k] == Bodies(b)[k];
    }
    assert |a| == |Replies(b)|;
  }

  /** The stores that whole worker threads leave behind are alike, with and without suspension. */
  lemma {:induction false} FinalStoreIsTransparent<D(!new)>(cfg: Config<D>, alike: (D, D) -> bool, disk: D,
                                                            first: Opening, now: nat, script: seq<Turn>)
    requires AllOpen(script) && Respected(cfg.lib, alike) && alike(cfg.lib.onOpen(disk), cfg.lib.onOpen(disk))
    ensures var idle, plain := ThreadBody(cfg, disk, first, now, script).disk,
                               ThreadBody(NeverIdle(cfg), disk, first, now, script).disk;
            if Init(cfg, NewProcess(disk), first).1.None? then alike(idle, plain) else idle == plain == disk
  {
    var (st, failure) := Init(cfg, NewProcess(disk), first);
    if failure.None? {
      SuspensionIsTransparent(cfg, alike, st, now, script);
    }
  }

  // ---------- the exact condition ----------

  /** These requests do not tell the store from its reopened form. */
  predicate NotTold<D>(lib: Library<D>, disk: D, requests: seq<Request>) {
    Replay(lib, disk, requests).replies == Replay(lib, lib.onOpen(disk), requests).replies
  }

  /** No requests tell any store that the callers can bring about from its reopened form. */
  ghost predicate Stable<D(!new)>(lib: Library<D>, disk: D) {
    forall moves: seq<Move>, requests: seq<Request> ::
      NotTold(lib, Play(lib, disk, None, moves).disk, requests)
  }

  predicate SameReplies<D>(lib: Library<D>, disk: D, moves: seq<Move>) {
    Play(lib, disk, None, moves).replies == Play(lib, disk, None, Unmarked(moves)).replies
  }

  /** Reopening for the first command is starting from the reopened store. */
  lemma {:induction false} ReopenFirst<D>(lib: Library<D>, disk: D, request: Request, rest: seq<Move>)
    ensures Play(lib, disk, None, [Move(request, true)] + rest)
         == Play(lib, lib.onOpen(disk), None, [Move(request, false)] + rest)
  {
    PlaySplit(lib, disk, None, [Move(request, true)], rest);
    PlaySplit(lib, lib.onOpen(disk), None, [Move(request, false)], rest);
    PlayAppend(lib, disk, None, [], Move(request, true));
    PlayAppend(lib, lib.onOpen(disk), None, [], Move(request, false));
    assert [] + [Move(request, true)] == [Move(request, true)] && [] + [Move(request, false)] == [Move(request, false)];
  }

  function RequestsOf(moves: seq<Move>): seq<Request> {
    seq(|moves|, i requires 0 <= i < |moves| => moves[i].request)
  }

  /** From every store reached, the moves and the moves without reopening get the same replies. */
  lemma {:induction false} StableStoresReplySame<D(!new)>(lib: Library<D>, disk: D, prefix: seq<Move>, moves: seq<Move>)
    requires Contained(lib) && Stable(lib, disk)
    ensures SameReplies(lib, Play(lib, disk, None, prefix).disk, moves)
    decreases |moves|
  {
    var store := Play(lib, disk, None, prefix).disk;
    if moves == [] {
      assert Unmarked(moves) == [];
    } else {
      var move, rest := moves[0], moves[1..];
      var plain := Move(move.request, false);
      assert moves == [move] + rest && Unmarked(moves) == [plain] + Unmarked(rest);
      StableStoresReplySame(lib, disk, prefix + [move], rest);
      AfterOne(lib, disk, prefix, move);
      SplitFirst(lib, store, move, rest);
      if move.reopened {
        SplitFirst(lib, store, move, Unmarked(rest));
        ReopenFirst(lib, store, move.request, Unmarked(rest));
        assert NotTold(lib, store, RequestsOf(moves));
        assert Asks(RequestsOf(moves)) == [plain] + Unmarked(rest);
      } else {
        SplitFirst(lib, store, move, Unmarked(rest));
      }
    }
  }

  lemma {:induction false} AfterOne<D(!new)>(lib: Library<D>, disk: D, prefix: seq<Move>, move: Move)
    requires Contained(lib)
    ensures Play(lib, disk, None, prefix + [move]).disk
         == Play(lib, Play(lib, disk, None, prefix).disk, None, [move]).disk
  {
  }

  /** The first reply, then those of the rest from where the first command led. */
  lemma {:induction false} SplitFirst<D(!new)>(lib: Library<D>, disk: D, move: Move, rest: seq<Move>)
    requires Contained(lib)
    ensures var first := Play(lib, disk, None, [move]);
            Play(lib, disk, None, [move] + rest).replies == first.replies + Play(lib, first.disk, None, rest).replies
  {
    PlaysWithEmptySlot(lib, disk, [move]);
    PlaySplit(lib, disk, None, [move], rest);
  }

  lemma {:induction false} SuffixesAgree(front: seq<Reply>, a: seq<Reply>, b: seq<Reply>)
    requires front + a == front + b
    ensures a == b
  {
    assert (front + a)[|front|..] == a && (front + b)[|front|..] == b;
  }

  lemma {:induction false} PlayOn<D(!new)>(lib: Library<D>, disk: D, front: seq<Move>, rest: seq<Move>)
    requires Contained(lib)
    ensures Play(lib, disk, None, front + rest).replies
         == Play(lib, disk, None, front).replies + Play(lib, Play(lib, disk, None, front).disk, None, rest).replies
  {
    PlaysWithEmptySlot(lib, disk, front);
    PlaySplit(lib, disk, None, front, rest);
  }

  lemma {:induction false} SameOnFrom<D(!new)>(lib: Library<D>, disk: D, front: seq<Move>, a: seq<Move>, b: seq<Move>)
    requires Contained(lib) && Unmarked(front + a) == Unmarked(front + b)
    requires SameReplies(lib, disk, front + a) && SameReplies(lib, disk, front + b)
    ensures var store := Play(lib, disk, None, front).disk;
            Play(lib, store, None, a).replies == Play(lib, store, None, b).replies
  {
    var store := Play(lib, disk, None, front).disk;
    PlayOn(lib, disk, front, a);
    PlayOn(lib, disk, front, b);
    SuffixesAgree(Play(lib, disk, None, front).replies,
                  Play(lib, store, None, a).replies, Play(lib, store, None, b).replies);
  }

  /** The requests, with or without reopening for the first one. */
  function Beginning(more: seq<Request>, reopened: bool): (moves: seq<Move>)
    requires more != []
  {
    [Move(more[0], reopened)] + Asks(more)[1..]
  }

  lemma {:induction false} BeginningAsks(front: seq<Move>, more: seq<Request>, reopened: bool)
    requires more != []
    ensures RequestsOf(front + Beginning(more, reopened)) == RequestsOf(front) + more
    ensures Unmarked(front + Beginning(more, reopened)) == Unmarked(front) + Asks(more)
    ensures Beginning(more, false) == Asks(more)
  {
    assert RequestsOf(Beginning(more, reopened)) == more;
    assert Unmarked(Beginning(more, reopened)) == Asks(more);
  }

  lemma {:induction false} ToldStoresDiffer<D(!new)>(lib: Library<D>, disk: D, front: seq<Move>, more: seq<Request>)
    requires Contained(lib) && more != [] && !NotTold(lib, Play(lib, disk, None, front).disk, more)
    ensures !SameReplies(lib, disk, front + Beginning(more, false))
         || !SameReplies(lib, disk, front + Beginning(more, true))
  {
    BeginningAsks(front, more, false);
    BeginningAsks(front, more, true);
    ReopenFirst(lib, Play(lib, disk, None, front).disk, more[0], Asks(more)[1..]);
    if SameReplies(lib, disk, front + Beginning(more, false)) && SameReplies(lib, disk, front + Beginning(more, true)) {
      SameOnFrom(lib, disk, front, Beginning(more, false), Beginning(more, true));
      assert false;
    }
  }

  /** Conversely, if a store reached is told from its reopened form, then going on with those requests, with or
      without reopening first, gets replies that it would not get if nothing were ever reopened. */
  lemma {:induction false} ToldStoresReplyOtherwise<D(!new)>(lib: Library<D>, disk: D, front: seq<Move>,
                                                             more: seq<Request>) returns (moves: seq<Move>)
    requires Contained(lib) && !NotTold(lib, Play(lib, disk, None, front).disk, more)
    ensures RequestsOf(moves) == RequestsOf(front) + more && !SameReplies(lib, disk, moves)
  {
    ToldStoresDiffer(lib, disk, front, more);
    var reopened := SameReplies(lib, disk, front + Beginning(more, false));
    BeginningAsks(front, more, reopened);
    moves := front + Beginning(more, reopened);
  }

  // ---------- every sequence of moves is a run of the loop ----------

  const SILENCE := Turn(TimedOut, Opens(0), 0, 0)

  predicate ReadyToServe<D>(w: Worker<D>) {
    w.pc.AtHead? && !w.suspended && w.lastActivity <= w.now
  }

  lemma {:induction false} SilenceKeepsMoves<D>(cfg: Config<D>, w: Worker<D>, silence: seq<Turn>)
    requires w.pc.AtHead? && Quiet(silence)
    ensures Run(cfg, w, silence).moves == w.moves && Run(cfg, w, silence).pc.AtHead?
  {
    if silence != [] {
      SilenceKeepsMoves(cfg, w, silence[..|silence| - 1]);
    }
  }

  lemma {:induction false} LongEnough(idle: nat, interval: nat)
    requires interval >= 1
    ensures (idle + 1) * interval >= idle
  {
  }

  lemma {:induction false} FallSilent<D>(cfg: Config<D>, w: Worker<D>) returns (silence: seq<Turn>)
    requires cfg.idleTimeout.Some? && ReadyToServe(w)
    ensures AllOpen(silence)
    ensures Run(cfg, w, silence).suspended && Run(cfg, w, silence).pc.AtHead? && Run(cfg, w, silence).moves == w.moves
  {
    var idle := cfg.idleTimeout.value;
    silence := seq(idle + 1, _ => SILENCE);
    SilenceSuspends(cfg, w, silence);
    SilenceKeepsMoves(cfg, w, silence);
    LongEnough(idle, CheckInterval(idle));
  }

  lemma {:induction false} TakeNext<D>(cfg: Config<D>, w: Worker<D>, request: Request) returns (turn: Turn)
    requires cfg.idleTimeout.Some? && !PathsHaveNul(cfg) && w.pc.AtHead?
    ensures turn.opening.Opens?
    ensures ReadyToServe(Step(cfg, w, turn)) && Step(cfg, w, turn).moves == w.moves + [Move(request, w.suspended)]
  {
    turn := Turn(Got(Do(request, 0), 0), Opens(0), 0, 0);
  }

  lemma {:induction false} NextMove<D>(cfg: Config<D>, w: Worker<D>, move: Move) returns (turns: seq<Turn>)
    requires cfg.idleTimeout.Some? && !PathsHaveNul(cfg) && ReadyToServe(w)
    ensures AllOpen(turns) && ReadyToServe(Run(cfg, w, turns)) && Run(cfg, w, turns).moves == w.moves + [move]
  {
    var silence := [];
    if move.reopened {
      silence := FallSilent(cfg, w);
    }
    var before := Run(cfg, w, silence);
    var turn := TakeNext(cfg, before, move.request);
    turns := silence + [turn];
    assert turns[..|turns| - 1] == silence;
    assert Run(cfg, w, turns) == Step(cfg, before, turn);
  }

  /** Some script, with timeouts before each command that is to be served after reopening, makes the loop do
      exactly these moves. */
  lemma {:induction false} EveryMoveIsRun<D>(cfg: Config<D>, st: State<D>, now: nat, moves: seq<Move>)
    returns (script: seq<Turn>)
    requires cfg.idleTimeout.Some? && !PathsHaveNul(cfg)
    ensures AllOpen(script)
    ensures Run(cfg, Start(st, now), script).moves == moves && ReadyToServe(Run(cfg, Start(st, now), script))
  {
    script := [];
    if moves != [] {
      var front := EveryMoveIsRun(cfg, st, now, moves[..|moves| - 1]);
      var turns := NextMove(cfg, Run(cfg, Start(st, now), front), moves[|moves| - 1]);
      RunSplit(cfg, Start(st, now), front, turns);
      script := front + turns;
    }
  }

  /** What the callers of one worker see, whatever they send and wherever timeouts fall, if every reopening succeeds. */
  ghost predicate Invisible<D>(cfg: Config<D>, st: State<D>, now: nat) {
    forall script :: AllOpen(script) ==> SameAnswers(cfg, st, now, script)
  }

  predicate SameAnswers<D>(cfg: Config<D>, st: State<D>, now: nat, script: seq<Turn>) {
    var idle, plain := Run(cfg, Start(st, now), script), Run(NeverIdle(cfg), Start(st, now), script);
    idle.pc == plain.pc && idle.answers == plain.answers
  }

  lemma {:induction false} SameAnswersIff<D>(cfg: Config<D>, st: State<D>, now: nat, script: seq<Turn>)
    requires !PathsHaveNul(cfg) && AllOpen(script) && st.slot.None?
    ensures SameAnswers(cfg, st, now, script)
       <==> SameReplies(cfg.lib, st.disk, Run(cfg, Start(st, now), script).moves)
  {
    var idle, plain := Run(cfg, Start(st, now), script), Run(NeverIdle(cfg), Start(st, now), script);
    RunsMakeSameCalls(cfg, st, now, script);
    BodiesArePlayed(cfg, st, now, script);
    BodiesArePlayed(NeverIdle(cfg), st, now, script);
    if SameReplies(cfg.lib, st.disk, idle.moves) {
      SameAnswersFromBodies(idle.answers, plain.answers);
    }
  }

  /** If some store that `requests` bring about is told from its reopened form by `more`, then sending all of them,
      with silence in between, gets other answers with suspension than without. */
  lemma {:induction false} ToldStoresShow<D(!new)>(cfg: Config<D>, st: State<D>, now: nat, requests: seq<Request>,
                                                   more: seq<Request>) returns (script: seq<Turn>)
    requires cfg.idleTimeout.Some? && !PathsHaveNul(cfg) && st.slot.None? && Contained(cfg.lib)
    requires !NotTold(cfg.lib, Replay(cfg.lib, st.disk, requests).disk, more)
    ensures AllOpen(script) && !SameAnswers(cfg, st, now, script)
    ensures RequestsOf(Run(cfg, Start(st, now), script).moves) == requests + more
  {
    var moves := ToldStoresReplyOtherwise(cfg.lib, st.disk, Asks(requests), more);
    assert RequestsOf(Asks(requests)) == requests;
    script := EveryMoveIsRun(cfg, st, now, moves);
    SameAnswersIff(cfg, st, now, script);
  }

  /** Suspension is invisible if and only if no store that the callers can bring about is told from its reopened
      form by any requests. */
  lemma {:induction false} InvisibleIffStable<D(!new)>(cfg: Config<D>, st: State<D>, now: nat)
    requires cfg.idleTimeout.Some? && !PathsHaveNul(cfg) && st.slot.None? && Contained(cfg.lib)
    ensures Invisible(cfg, st, now) <==> Stable(cfg.lib, st.disk)
  {
    if Stable(cfg.lib, st.disk) {
      forall script | AllOpen(script) ensures SameAnswers(cfg, st, now, script) {
        SameAnswersIff(cfg, st, now, script);
        StableStoresReplySame(cfg.lib, st.disk, [], Run(cfg, Start(st, now), script).moves);
      }
    }
    if Invisible(cfg, st, now) {
      forall moves: seq<Move> ensures SameReplies(cfg.lib, st.disk, moves) {
        var script := EveryMoveIsRun(cfg, st, now, moves);
        assert SameAnswers(cfg, st, now, script);
        SameAnswersIff(cfg, st, now, script);
      }
      forall moves: seq<Move>, requests: seq<Request>
        ensures NotTold(cfg.lib, Play(cfg.lib, st.disk, None, moves).disk, requests)
      {
        if !NotTold(cfg.lib, Play(cfg.lib, st.disk, None, moves).disk, requests) {
          var different := ToldStoresReplyOtherwise(cfg.lib, st.disk, moves, requests);
          assert false;
        }
      }
    }
  }

  lemma {:induction false} PlayThenReplay<D(!new)>(lib: Library<D>, disk: D, moves: seq<Move>, requests: seq<Request>)
    requires Contained(lib)
    ensures Play(lib, disk, None, moves + Asks(requests)).replies
         == Play(lib, disk, None, moves).replies + Replay(lib, Play(lib, disk, None, moves).disk, requests).replies
  {
    PlayOn(lib, disk, moves, Asks(requests));
  }

  lemma {:induction false} StablePlaysStayAlike<D(!new)>(lib: Library<D>, disk: D, moves: seq<Move>,
                                                         requests: seq<Request>)
    requires Contained(lib) && Stable(lib, disk)
    ensures Replay(lib, Play(lib, disk, None, moves).disk, requests).replies
         == Replay(lib, Play(lib, disk, None, Unmarked(moves)).disk, requests).replies
  {
    StableStoresReplySame(lib, disk, [], moves);
    StableStoresReplySame(lib, disk, [], moves + Asks(requests));
    assert Unmarked(moves + Asks(requests)) == Unmarked(moves) + Asks(requests);
    PlayThenReplay(lib, disk, moves, requests);
    PlayThenReplay(lib, disk, Unmarked(moves), requests);
    SuffixesAgree(Play(lib, disk, None, moves).replies,
                  Replay(lib, Play(lib, disk, None, moves).disk, requests).replies,
                  Replay(lib, Play(lib, disk, None, Unmarked(moves)).disk, requests).replies);
  }

  /** Then the stores of the two loops, too, are never told apart. */
  lemma {:induction false} StableStoresStayAlike<D(!new)>(cfg: Config<D>, st: State<D>, now: nat, script: seq<Turn>,
                                                          requests: seq<Request>)
    requires !PathsHaveNul(cfg) && AllOpen(script) && st.slot.None?
    requires Contained(cfg.lib) && Stable(cfg.lib, st.disk)
    ensures Replay(cfg.lib, Run(cfg, Start(st, now), script).state.disk, requests).replies
         == Replay(cfg.lib, Run(NeverIdle(cfg), Start(st, now), script).state.disk, requests).replies
  {
    RunsMakeSameCalls(cfg, st, now, script);
    BodiesArePlayed(cfg, st, now, script);
    BodiesArePlayed(NeverIdle(cfg), st, now, script);
    StablePlaysStayAlike(cfg.lib, st.disk, Run(cfg, Start(st, now), script).moves, requests);
  }

  // ---------- stores that reopening leaves alone ----------

  /** Reopening changes no store that the plain execution of the moves passes through. */
  predicate Unmoved<D(==)>(lib: Library<D>, disk: D, moves: seq<Move>) {
    forall k :: 0 <= k < |moves| ==> lib.onOpen(StoreBefore(lib, disk, moves, k)) == StoreBefore(lib, disk, moves, k)
  }

  lemma {:induction false} UnmovedPlaysSame<D(!new)>(lib: Library<D>, disk: D, moves: seq<Move>)
    requires Contained(lib) && Unmoved(lib, disk, moves)
    ensures Play(lib, disk, None, moves) == Play(lib, disk, None, Unmarked(moves))
  {
    if moves != [] {
      var front, last := moves[..|moves| - 1], moves[|moves| - 1];
      assert front + [last] == moves;
      forall k | 0 <= k < |front|
        ensures lib.onOpen(StoreBefore(lib, disk, front, k)) == StoreBefore(lib, disk, front, k)
      {
        assert front[..k] == moves[..k];
        assert lib.onOpen(StoreBefore(lib, disk, moves, k)) == StoreBefore(lib, disk, moves, k);
      }
      UnmovedPlaysSame(lib, disk, front);
      assert lib.onOpen(StoreBefore(lib, disk, moves, |front|)) == StoreBefore(lib, disk, moves, |front|);
      UnmarkedAppend(front, last);
      PlaysWithEmptySlot(lib, disk, front);
      PlayAppend(lib, disk, None, front, last);
      PlayAppend(lib, disk, None, Unmarked(front), Move(last.request, false));
    }
  }

  /** If reopening would change no store that the plain loop passes through, the loop that suspends gives the same
      answers and leaves the same store. */
  lemma {:induction false} UnmovedIsTransparent<D(!new)>(cfg: Config<D>, st: State<D>, now: nat, script: seq<Turn>)
    requires !PathsHaveNul(cfg) && AllOpen(script) && st.slot.None? && Contained(cfg.lib)
    requires Unmoved(cfg.lib, st.disk, Run(cfg, Start(st, now), script).moves)
    ensures SameAnswers(cfg, st, now, script)
    ensures Run(cfg, Start(st, now), script).state.disk == Run(NeverIdle(cfg), Start(st, now), script).state.disk
  {
    UnmovedPlaysSame(cfg.lib, st.disk, Run(cfg, Start(st, now), script).moves);
    SameAnswersIff(cfg, st, now, script);
    RunsMakeSameCalls(cfg, st, now, script);
    BodiesArePlayed(cfg, st, now, script);
    BodiesArePlayed(NeverIdle(cfg), st, now, script);
  }
}
