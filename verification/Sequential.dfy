/** Every run of either loop is a sequential execution: the commands that were served, one after the other in the
    order of their answers, with the database opened again before some of them, and refusals in between that
    touch nothing.  Texts left over in the error slot are part of it.
 */
module Sequential {
  import opened Wrappers
  import opened Handlers
  import opened Worker

  /** The answers that the dispatcher gave. */
  function Served(answers: seq<Answer>): seq<Answer> {
    if answers == [] then []
    else Served(answers[..|answers| - 1]) + if answers[|answers| - 1].served then [answers[|answers| - 1]] else []
  }

  predicate Refusal(a: Answer) {
    a.body == Rejection(a.request, REOPEN_FAILED) || a.body == Rejection(a.request, UNAVAILABLE)
  }

  /** The served answers are those that playing the moves gives, and the others are refusals. */
  predicate Answered(answers: seq<Answer>, moves: seq<Move>, replies: seq<Reply>)
    requires |replies| == |moves|
  {
    && |Served(answers)| == |moves|
    && (forall k :: 0 <= k < |moves| ==>
          Served(answers)[k].request == moves[k].request && Served(answers)[k].body == replies[k])
    && (forall k :: 0 <= k < |answers| && !answers[k].served ==> Refusal(answers[k]))
  }

  /** What the worker has done since it found `disk` and `slot` is what its moves do. */
  predicate PlayedFrom<D(==)>(lib: Library<D>, disk: D, slot: Option<string>, w: Worker<D>) {
    var session := Play(lib, disk, slot, w.moves);
    && w.state.disk == session.disk
    && (!w.suspended ==> w.state.slot == session.slot)
    && Answered(w.answers, w.moves, session.replies)
  }

  lemma {:induction false} ServedIsAnswered(answers: seq<Answer>, moves: seq<Move>, replies: seq<Reply>, a: Answer,
                                            move: Move)
    requires |replies| == |moves| && Answered(answers, moves, replies) && a.served && a.request == move.request
    ensures Answered(answers + [a], moves + [move], replies + [a.body])
  {
  }

  lemma {:induction false} RefusalIsAnswered(answers: seq<Answer>, moves: seq<Move>, replies: seq<Reply>, a: Answer)
    requires |replies| == |moves| && Answered(answers, moves, replies) && !a.served && Refusal(a)
    ensures Answered(answers + [a], moves, replies)
  {
  }

  /** One receive that executes a command on the store, reopened for it or not. */
  predicate Executes<D(==)>(lib: Library<D>, w: Worker<D>, w': Worker<D>, a: Answer, move: Move) {
    && w'.answers == w.answers + [a] && a.served && a.request == move.request
    && w'.moves == w.moves + [move]
    && !w'.suspended && (w.suspended ==> move.reopened)
    && PlayOne(lib, w.state.disk, w.state.slot, move) == (w'.state.disk, w'.state.slot, a.body)
  }

  /** One receive that executes nothing: it closes the isolate, refuses a command, or does neither. */
  predicate ExecutesNothing<D(==)>(w: Worker<D>, w': Worker<D>) {
    && w'.moves == w.moves
    && w'.state.disk == w.state.disk
    && (w'.suspended || (!w.suspended && w'.state.slot == w.state.slot))
    && (|| w'.answers == w.answers
        || (&& |w'.answers| == |w.answers| + 1 && w'.answers[..|w.answers|] == w.answers
            && !w'.answers[|w.answers|].served && Refusal(w'.answers[|w.answers|])))
  }

  /** Each receive does one or the other. */
  lemma {:induction false} StepExecutesOrNot<D>(cfg: Config<D>, w: Worker<D>, turn: Turn)
    requires cfg.idleTimeout.None? ==> !w.suspended
    ensures var w' := Step(cfg, w, turn);
            || ExecutesNothing(w, w')
            || (&& |w'.answers| > 0 && |w'.moves| > 0
                && Executes(cfg.lib, w, w', w'.answers[|w'.answers| - 1], w'.moves[|w'.moves| - 1]))
    ensures cfg.idleTimeout.None? ==> !Step(cfg, w, turn).suspended
  {
  }

  lemma {:induction false} StepIsPlayed<D>(cfg: Config<D>, disk: D, slot: Option<string>, w: Worker<D>, turn: Turn)
    requires PlayedFrom(cfg.lib, disk, slot, w) && (cfg.idleTimeout.None? ==> !w.suspended)
    ensures PlayedFrom(cfg.lib, disk, slot, Step(cfg, w, turn))
  {
    var w' := Step(cfg, w, turn);
    StepExecutesOrNot(cfg, w, turn);
    var session := Play(cfg.lib, disk, slot, w.moves);
    if !ExecutesNothing(w, w') {
      var a, move := w'.answers[|w'.answers| - 1], w'.moves[|w'.moves| - 1];
      PlayAppend(cfg.lib, disk, slot, w.moves, move);
      ServedIsAnswered(w.answers, w.moves, session.replies, a, move);
    } else if |w'.answers| > |w.answers| {
      var a := w'.answers[|w.answers|];
      assert w'.answers == w.answers + [a];
      RefusalIsAnswered(w.answers, w.moves, session.replies, a);
    }
  }

  /** For either loop, wherever timeouts fall and however reopening goes, the answers, the store and the slot are
      those of the moves played in order, text for text. */
  lemma {:induction false} RunIsPlayed<D>(cfg: Config<D>, st: State<D>, now: nat, script: seq<Turn>)
    ensures PlayedFrom(cfg.lib, st.disk, st.slot, Run(cfg, Start(st, now), script))
    ensures cfg.idleTimeout.None? ==> !Run(cfg, Start(st, now), script).suspended
  {
    if script != [] {
      var front := script[..|script| - 1];
      RunIsPlayed(cfg, st, now, front);
      var before := Run(cfg, Start(st, now), front);
      StepExecutesOrNot(cfg, before, script[|script| - 1]);
      StepIsPlayed(cfg, st.disk, st.slot, before, script[|script| - 1]);
    }
  }

  lemma {:induction false} StepKeepsSlotEmpty<D(!new)>(cfg: Config<D>, w: Worker<D>, turn: Turn)
    requires Contained(cfg.lib) && w.state.slot == None
    ensures Step(cfg, w, turn).state.slot == None
  {
    if turn.wait.Got? && turn.wait.command.Do? {
      ContainedKeepsSlotEmpty(cfg.lib, w.state.disk, turn.wait.command.request);
      ContainedKeepsSlotEmpty(cfg.lib, cfg.lib.onOpen(w.state.disk), turn.wait.command.request);
    }
  }

  /** If get, list and history never throw, as is so behind this library, the slot is empty whenever the loop is at
      its head, so that no text is ever left over. */
  lemma {:induction false} SlotIsEmptyAtLoopHead<D(!new)>(cfg: Config<D>, st: State<D>, now: nat, script: seq<Turn>)
    requires Contained(cfg.lib) && st.slot.None?
    ensures Run(cfg, Start(st, now), script).state.slot == None
  {
    if script != [] {
      SlotIsEmptyAtLoopHead(cfg, st, now, script[..|script| - 1]);
      StepKeepsSlotEmpty(cfg, Run(cfg, Start(st, now), script[..|script| - 1]), script[|script| - 1]);
    }
  }

  // ---------- what is told during an outage ----------

  /** The database could not be opened. */
  predicate CannotOpen<D>(cfg: Config<D>, opening: Opening) {
    !opening.Opens? || '\0' in cfg.dataPath || '\0' in cfg.indexPath
  }

  /** The answer to the command of this receive: it is not served exactly if it comes while the loop is backing off, or
      finds the database suspended and cannot open it; and then it says which, unless the caller asked for the last
      error, who is told that there is none. */
  predicate Told<D(==)>(cfg: Config<D>, w: Worker<D>, turn: Turn, a: Answer) {
    && turn.wait.Got? && turn.wait.command == Do(a.request, a.reply)
    && (a.served <==> cfg.idleTimeout.None? || (!w.pc.BackingOff? && !(w.suspended && CannotOpen(cfg, turn.opening))))
    && (!a.served && a.request.LastError? ==> a.body == Message(None))
    && (!a.served && a.request.Call? ==>
          a.body == Failed(OperationFailed(
                             if w.pc.BackingOff? then "database unavailable after reopen failure"
                             else "failed to reopen database after idle suspend")))
  }

  lemma {:induction false} PathsHaveNulIff<D>(cfg: Config<D>)
    ensures PathsHaveNul(cfg) <==> '\0' in cfg.dataPath || '\0' in cfg.indexPath
  {
    var paths := [cfg.dataPath, cfg.indexPath];
    assert paths[0] == cfg.dataPath && paths[1] == cfg.indexPath;
  }

  lemma {:induction false} StepTells<D>(cfg: Config<D>, w: Worker<D>, turn: Turn)
    requires |Step(cfg, w, turn).answers| > |w.answers|
    ensures var answers := Step(cfg, w, turn).answers;
            answers == w.answers + [answers[|w.answers|]] && Told(cfg, w, turn, answers[|w.answers|])
  {
    StepAnswers(cfg, w, turn);
    PathsHaveNulIff(cfg);
  }

  lemma {:induction false} AnswersGrow<D>(cfg: Config<D>, w: Worker<D>, turn: Turn)
    ensures w.answers <= Step(cfg, w, turn).answers
  {
    StepAnswers(cfg, w, turn);
  }

  /** In every run of either loop each answer is the one that the receive which took its command owed to it. */
  lemma {:induction false} EveryAnswerIsTold<D>(cfg: Config<D>, st: State<D>, now: nat, script: seq<Turn>, k: nat)
    returns (i: nat)
    requires k < |Run(cfg, Start(st, now), script).answers|
    ensures i < |script| && |Run(cfg, Start(st, now), script[..i]).answers| == k
    ensures Told(cfg, Run(cfg, Start(st, now), script[..i]), script[i], Run(cfg, Start(st, now), script).answers[k])
  {
    var front, last := script[..|script| - 1], script[|script| - 1];
    var before := Run(cfg, Start(st, now), front);
    AnswersGrow(cfg, before, last);
    if k < |before.answers| {
      i := EveryAnswerIsTold(cfg, st, now, front, k);
      assert script[..i] == front[..i];
    } else {
      i := |front|;
      StepTells(cfg, before, last);
    }
  }

  // ---------- without suspension ----------

  function Requests(answers: seq<Answer>): seq<Request> {
    seq(|answers|, i requires 0 <= i < |answers| => answers[i].request)
  }

  function Bodies(answers: seq<Answer>): seq<Reply> {
    seq(|answers|, i requires 0 <= i < |answers| => answers[i].body)
  }

  predicate AllServed(answers: seq<Answer>) {
    forall k :: 0 <= k < |answers| ==> answers[k].served
  }

  lemma {:induction false} AllServedAreServed(answers: seq<Answer>)
    requires AllServed(answers)
    ensures Served(answers) == answers
  {
    if answers != [] {
      AllServedAreServed(answers[..|answers| - 1]);
    }
  }

  lemma {:induction false} PlainServesAll<D>(cfg: Config<D>, w: Worker<D>, script: seq<Turn>)
    requires cfg.idleTimeout.None? && AllServed(w.answers) && w.moves == Asks(Requests(w.answers))
    ensures var w' := Run(cfg, w, script);
            AllServed(w'.answers) && w'.moves == Asks(Requests(w'.answers))
  {
    if script != [] {
      PlainServesAll(cfg, w, script[..|script| - 1]);
    }
  }

  /** The plain loop serves every command, and its answers, its store and its slot are those of executing the
      requests one after the other. */
  lemma {:induction false} PlainLoopIsSequential<D>(cfg: Config<D>, st: State<D>, now: nat, script: seq<Turn>)
    requires cfg.idleTimeout.None? && st.slot.None?
    ensures var w := Run(cfg, Start(st, now), script);
            && AllServed(w.answers)
            && Replay(cfg.lib, st.disk, Requests(w.answers)) == Session(w.state.disk, w.state.slot, Bodies(w.answers))
  {
    var w := Run(cfg, Start(st, now), script);
    RunIsPlayed(cfg, st, now, script);
    PlainServesAll(cfg, Start(st, now), script);
    AllServedAreServed(w.answers);
    assert Bodies(w.answers) == Replay(cfg.lib, st.disk, Requests(w.answers)).replies;
  }

  // ---------- one answer for each command taken ----------

  /** The commands that the script hands to the loop before it exits, by their reply channels. */
  function Taken<D>(cfg: Config<D>, w: Worker<D>, script: seq<Turn>): seq<nat> {
    if script == [] then []
    else
      var front, wait := script[..|script| - 1], script[|script| - 1].wait;
      Taken(cfg, w, front) +
        if !Run(cfg, w, front).pc.Exited? && wait.Got? && wait.command.Do? then [wait.command.reply] else []
  }

  function Replies(answers: seq<Answer>): seq<nat> {
    seq(|answers|, i requires 0 <= i < |answers| => answers[i].reply)
  }

  lemma {:induction false} StepAnswers<D>(cfg: Config<D>, w: Worker<D>, turn: Turn)
    ensures var w' := Step(cfg, w, turn);
            if !w.pc.Exited? && turn.wait.Got? && turn.wait.command.Do?
            then exists body, served ::
                   w'.answers == w.answers + [Answer(turn.wait.command.reply, turn.wait.command.request, body, served)]
            else w'.answers == w.answers
    ensures !w.pc.Exited? && turn.wait.Got? && turn.wait.command.Shutdown? ==> Step(cfg, w, turn).pc.Exited?
  {
  }

  /** Every command taken gets exactly one answer, on its own reply channel, in the order taken. */
  lemma {:induction false} OneAnswerEach<D>(cfg: Config<D>, w: Worker<D>, script: seq<Turn>)
    ensures Replies(Run(cfg, w, script).answers) == Replies(w.answers) + Taken(cfg, w, script)
  {
    if script != [] {
      var front := script[..|script| - 1];
      OneAnswerEach(cfg, w, front);
      StepAnswers(cfg, Run(cfg, w, front), script[|script| - 1]);
      var before, after := Run(cfg, w, front).answers, Run(cfg, w, script).answers;
      if after != before {
        assert Replies(after) == Replies(before) + [after[|before|].reply];
      }
    } else {
      assert Replies(w.answers) + [] == Replies(w.answers);
    }
  }
}
