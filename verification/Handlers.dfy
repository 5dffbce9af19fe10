/** The command handlers of bindings/rust/src/lib.rs as functions of the store and the error slot, and who
    can be blamed for the error text a caller receives.
 */
module Handlers {
  import opened Wrappers
  import opened ChronDBLib
  import Decimal

  /** The native library: what each function does to the store, what opening the database in a new isolate does to
      it (it indexes every document of the default branch anew), and which strings parse as JSON. */
  datatype Library<!D> = Library(
    run: (D, Op, seq<string>, Option<string>) -> (D, Outcome),
    onOpen: D -> D,
    parses: string -> bool)

  datatype Request =
    | Call(op: Op, args: seq<string>, branch: Option<string>)
    | LastError

  datatype Error =
    | NotFound | OperationFailed(text: string) | JsonError | OpenFailed(text: string) | IsolateCreationFailed

  datatype Reply =
    | Value(json: string)
    | Done
    | Failed(error: Error)
    | Message(text: Option<string>)

  // ---------- C strings ----------

  function FirstNul(s: string): (i: Option<nat>)
    ensures i.Some? ==> i.value < |s| && s[i.value] == '\0' && '\0' !in s[..i.value]
    ensures i.None? ==> '\0' !in s
  {
    if s == [] then None
    else if s[0] == '\0' then Some(0)
    else match FirstNul(s[1..]) case None => None case Some(k) => Some(k + 1)
  }

  function NulText(position: nat): string {
    "nul byte found in provided data at position: " + Decimal.Digits(position)
  }

  /** The strings a handler converts, in the order it converts them. */
  function Converted(args: seq<string>, branch: Option<string>): seq<string> {
    args + if branch.Some? then [branch.value] else []
  }

  /** The string at `i` is the first with a NUL in it. */
  predicate FirstRefused(strings: seq<string>, i: nat) {
    && i < |strings| && FirstNul(strings[i]).Some?
    && forall j :: 0 <= j < i ==> '\0' !in strings[j]
  }

  /** The text of the first conversion that fails. */
  function ConversionError(strings: seq<string>): (error: Option<string>)
    ensures error.None? <==> forall i :: 0 <= i < |strings| ==> '\0' !in strings[i]
    ensures error.Some? ==>
              exists i: nat :: FirstRefused(strings, i) && error.value
                == "nul byte found in provided data at position: " + Decimal.Digits(FirstNul(strings[i]).value)
  {
    if strings == [] then None
    else match FirstNul(strings[0])
      case Some(position) =>
        assert FirstRefused(strings, 0);
        Some(NulText(position))
      case None =>
        var error := ConversionError(strings[1..]);
        assert error.Some? ==>
          var i: nat :| FirstRefused(strings[1..], i) && error.value == NulText(FirstNul(strings[1..][i]).value);
          FirstRefused(strings, i + 1);
        error
  }

  // ---------- handlers ----------

  function DefaultText(op: Op): string {
    if op.Put? then "null result" else EntryName(op) + " failed"
  }

  /** Failing calls whose text comes out of the slot, which they thereby empty. */
  function FromSlot(slot: Option<string>, default: string): Reply {
    Failed(OperationFailed(if slot.Some? then slot.value else default))
  }

  predicate Lists(op: Op) {
    op.ListByPrefix? || op.ListByTable? || op.History?
  }

  /** The reply a handler makes of a native result, with the slot it leaves. */
  function Interpret(parses: string -> bool, op: Op, outcome: Outcome, slot: Option<string>): (Option<string>, Reply) {
    if op.Delete? then
      var code := if outcome.ReturnsNumber? then outcome.n else -1;
      if code == 0 then (slot, Done)
      else if code == 1 then (slot, Failed(NotFound))
      else (None, FromSlot(slot, DefaultText(op)))
    else if outcome.ReturnsString? then
      (slot, if parses(outcome.text) then Value(outcome.text) else Failed(JsonError))
    else if op.Get? then (slot, Failed(NotFound))
    else if Lists(op) then (slot, Value("[]"))
    else (None, FromSlot(slot, DefaultText(op)))
  }

  /** One command run to its reply: the new store, the new slot, the reply. */
  function Execute<D>(lib: Library<D>, disk: D, slot: Option<string>, request: Request): (D, Option<string>, Reply) {
    match request
    case LastError => (disk, None, Message(slot))
    case Call(op, args, branch) =>
      match ConversionError(Converted(args, branch))
      case Some(text) => (disk, slot, Failed(OperationFailed(text)))
      case None =>
        var (disk', outcome) := lib.run(disk, op, args, branch);
        var (slot', reply) := Interpret(lib.parses, op, outcome, SlotAfter(op, outcome, slot));
        (disk', slot', reply)
  }

  // ---------- which reply each outcome gets ----------

  predicate NulFree(args: seq<string>, branch: Option<string>) {
    (forall arg :: arg in args ==> '\0' !in arg) && (branch.Some? ==> '\0' !in branch.value)
  }

  lemma {:induction false} NulFreeConverts(args: seq<string>, branch: Option<string>)
    ensures NulFree(args, branch) <==> ConversionError(Converted(args, branch)).None?
  {
    var strings := Converted(args, branch);
    if NulFree(args, branch) {
      forall k | 0 <= k < |strings| ensures '\0' !in strings[k] {
        assert k < |args| ==> strings[k] == args[k];
      }
    } else if branch.Some? && '\0' in branch.value {
      assert strings[|args|] == branch.value;
    } else {
      var arg :| arg in args && '\0' in arg;
      var k :| 0 <= k < |args| && args[k] == arg;
      assert strings[k] == arg;
    }
  }

  /** What a caller is told when the native function did its work: a deleted document is done and a missing one not
      found, a string is passed on if it is JSON, and a null pointer is nothing found for get and an empty list for
      lists. */
  lemma {:induction false} OutcomeDecidesReply<D>(lib: Library<D>, disk: D, slot: Option<string>, op: Op,
                                                  args: seq<string>, branch: Option<string>)
    requires NulFree(args, branch)
    ensures var (after, outcome) := lib.run(disk, op, args, branch);
            var (disk', slot', reply) := Execute(lib, disk, slot, Call(op, args, branch));
            && disk' == after
            && (op.Delete? && outcome == ReturnsNumber(0) ==> reply == Done && slot' == slot)
            && (op.Delete? && outcome == ReturnsNumber(1) ==> reply == Failed(NotFound) && slot' == slot)
            && (!op.Delete? && outcome.ReturnsString? ==>
                  slot' == slot &&
                  reply == if lib.parses(outcome.text) then Value(outcome.text) else Failed(JsonError))
            && (op.Get? && !outcome.ReturnsString? ==> reply == Failed(NotFound))
            && ((op.ListByPrefix? || op.ListByTable? || op.History?) && !outcome.ReturnsString? ==>
                  reply == Value("[]"))
  {
    NulFreeConverts(args, branch);
  }

  lemma {:induction false} TextsOfFailures()
    ensures EntryName(Put) + " returned null" == "put returned null"
    ensures EntryName(ExecuteSql) + " returned null" == "execute_sql returned null"
    ensures DefaultText(Delete) == "delete failed" && DefaultText(Query) == "query failed"
  {
    assert "put" + " returned null" == "put returned null";
    assert "execute_sql" + " returned null" == "execute_sql returned null";
    assert "delete" + " failed" == "delete failed" && "query" + " failed" == "query failed";
  }

  /** Neither the result that the entry point looks for nor one of get and the lists, which have none to report. */
  predicate FailsLoudly(op: Op, outcome: Outcome) {
    if op.Delete? then outcome != ReturnsNumber(0) && outcome != ReturnsNumber(1)
    else !outcome.ReturnsString? && !op.Get? && !op.ListByPrefix? && !op.ListByTable? && !op.History?
  }

  /** What a caller is told when it did not: the exception's message; for a delete or query without an exception, what
      was left in the slot; for all others that they returned null; and a default where there is no text.  The slot is
      emptied. */
  lemma {:induction false} FailureDecidesText<D>(lib: Library<D>, disk: D, slot: Option<string>, op: Op,
                                                 args: seq<string>, branch: Option<string>)
    requires NulFree(args, branch) && FailsLoudly(op, lib.run(disk, op, args, branch).1)
    ensures var (after, outcome) := lib.run(disk, op, args, branch);
            var (disk', slot', reply) := Execute(lib, disk, slot, Call(op, args, branch));
            var told := if outcome.Throws? then outcome.message
                        else if op.Delete? || op.Query? then slot
                        else if op.Put? then Some("put returned null")
                        else if op.ExecuteSql? then Some("execute_sql returned null")
                        else Some(EntryName(op) + " returned null");
            && disk' == after && slot' == None
            && reply == Failed(OperationFailed(if told.Some? then told.value
                                               else if op.Put? then "null result"
                                               else if op.Delete? then "delete failed"
                                               else if op.Query? then "query failed"
                                               else EntryName(op) + " failed"))
  {
    NulFreeConverts(args, branch);
    TextsOfFailures();
  }

  // ---------- a sequential execution ----------

  /** A request, and whether the database was opened again, in a new isolate, to serve it. */
  datatype Move = Move(request: Request, reopened: bool)

  datatype Session<D> = Session(disk: D, slot: Option<string>, replies: seq<Reply>)

  function PlayOne<D>(lib: Library<D>, disk: D, slot: Option<string>, move: Move): (D, Option<string>, Reply) {
    if move.reopened then Execute(lib, lib.onOpen(disk), None, move.request) else Execute(lib, disk, slot, move.request)
  }

  /** The moves one after the other. */
  function Play<D>(lib: Library<D>, disk: D, slot: Option<string>, moves: seq<Move>): (s: Session<D>)
    ensures |s.replies| == |moves|
  {
    if moves == [] then Session(disk, slot, [])
    else
      var before := Play(lib, disk, slot, moves[..|moves| - 1]);
      var (disk', slot', reply) := PlayOne(lib, before.disk, before.slot, moves[|moves| - 1]);
      Session(disk', slot', before.replies + [reply])
  }

  function Asks(requests: seq<Request>): seq<Move> {
    seq(|requests|, i requires 0 <= i < |requests| => Move(requests[i], false))
  }

  /** The requests one after the other in one new isolate. */
  function Replay<D>(lib: Library<D>, disk: D, requests: seq<Request>): (s: Session<D>)
    ensures |s.replies| == |requests|
  {
    Play(lib, disk, None, Asks(requests))
  }

  lemma {:induction false} PlayAppend<D>(lib: Library<D>, disk: D, slot: Option<string>, moves: seq<Move>, move: Move)
    ensures var before := Play(lib, disk, slot, moves);
            var (disk', slot', reply) := PlayOne(lib, before.disk, before.slot, move);
            Play(lib, disk, slot, moves + [move]) == Session(disk', slot', before.replies + [reply])
  {
  }

  /** Playing on from where a session ended. */
  lemma {:induction false} PlaySplit<D>(lib: Library<D>, disk: D, slot: Option<string>, first: seq<Move>,
                                        rest: seq<Move>)
    ensures var a := Play(lib, disk, slot, first);
            var b := Play(lib, a.disk, a.slot, rest);
            Play(lib, disk, slot, first + rest) == Session(b.disk, b.slot, a.replies + b.replies)
  {
    if rest == [] {
      assert first + rest == first;
    } else {
      var front, last := rest[..|rest| - 1], rest[|rest| - 1];
      PlaySplit(lib, disk, slot, first, front);
      PlayAppend(lib, disk, slot, first + front, last);
      assert first + front + [last] == first + rest;
    }
  }

  /** Each reply is that of its move, played where the moves before it have led. */
  lemma {:induction false} ReplyOfMove<D>(lib: Library<D>, disk: D, slot: Option<string>, moves: seq<Move>, k: nat)
    requires k < |moves|
    ensures var before := Play(lib, disk, slot, moves[..k]);
            Play(lib, disk, slot, moves).replies[k] == PlayOne(lib, before.disk, before.slot, moves[k]).2
  {
    var first, rest := moves[..k + 1], moves[k + 1..];
    assert moves == first + rest && first == moves[..k] + [moves[k]];
    PlaySplit(lib, disk, slot, first, rest);
    PlayAppend(lib, disk, slot, moves[..k], moves[k]);
  }

  lemma {:induction false} AsksAppend(requests: seq<Request>, request: Request)
    ensures Asks(requests + [request]) == Asks(requests) + [Move(request, false)]
  {
  }

  lemma {:induction false} ReplayAppend<D>(lib: Library<D>, disk: D, requests: seq<Request>, request: Request)
    ensures var before := Replay(lib, disk, requests);
            var (disk', slot', reply) := Execute(lib, before.disk, before.slot, request);
            Replay(lib, disk, requests + [request]) == Session(disk', slot', before.replies + [reply])
  {
    AsksAppend(requests, request);
    PlayAppend(lib, disk, None, Asks(requests), Move(request, false));
  }

  // ---------- what a reply owes to the slot ----------

  /** A query or delete that fails without an exception of its own: it has nothing to report but what is in the slot. */
  predicate FailsSilently<D>(lib: Library<D>, disk: D, request: Request) {
    && request.Call? && (request.op.Delete? || request.op.Query?)
    && ConversionError(Converted(request.args, request.branch)).None?
    && !lib.run(disk, request.op, request.args, request.branch).1.Throws?
  }

  /** Replies to one request on one store that differ at most in what an earlier command left in the slot. */
  predicate SameButStaleText<D>(lib: Library<D>, disk: D, request: Request, a: Reply, b: Reply) {
    || a == b
    || (request.LastError? && a.Message? && b.Message?)
    || (FailsSilently(lib, disk, request)
        && a.Failed? && a.error.OperationFailed? && b.Failed? && b.error.OperationFailed?)
  }

  /** Neither the store nor, but for stale text, the reply depends on the slot. */
  lemma {:induction false} SlotOnlyChangesText<D>(lib: Library<D>, disk: D, slot1: Option<string>,
                                                  slot2: Option<string>, request: Request)
    ensures Execute(lib, disk, slot1, request).0 == Execute(lib, disk, slot2, request).0
    ensures SameButStaleText(lib, disk, request,
                             Execute(lib, disk, slot1, request).2, Execute(lib, disk, slot2, request).2)
  {
  }

  /** Get, list and history calls never throw: the functions behind them catch everything and return. */
  ghost predicate Contained<D(!new)>(lib: Library<D>) {
    forall disk, op: Op, args, branch :: op.Get? || Lists(op) ==> !lib.run(disk, op, args, branch).1.Throws?
  }

  /** Then the slot is empty between commands, and so no text is ever left over. */
  lemma {:induction false} ContainedKeepsSlotEmpty<D(!new)>(lib: Library<D>, disk: D, request: Request)
    requires Contained(lib)
    ensures Execute(lib, disk, None, request).1 == None
  {
  }

  lemma {:induction false} PlaysWithEmptySlot<D(!new)>(lib: Library<D>, disk: D, moves: seq<Move>)
    requires Contained(lib)
    ensures Play(lib, disk, None, moves).slot == None
  {
    if moves != [] {
      var front, last := moves[..|moves| - 1], moves[|moves| - 1];
      PlaysWithEmptySlot(lib, disk, front);
      var before := Play(lib, disk, None, front);
      ContainedKeepsSlotEmpty(lib, if last.reopened then lib.onOpen(before.disk) else before.disk, last.request);
    }
  }

  // ---------- error attribution over runs ----------

  /** One native call as the dispatcher saw it, or a read of the slot. */
  datatype Event = Native(op: Op, outcome: Outcome) | ReadSlot

  function SlotStep(e: Event, slot: Option<string>): Option<string> {
    match e
    case ReadSlot => None
    case Native(op, outcome) => Interpret(_ => true, op, outcome, SlotAfter(op, outcome, slot)).0
  }

  /** The slot between commands, after a run of the dispatcher in a new isolate. */
  function SlotAfterRun(run: seq<Event>): Option<string> {
    if run == [] then None else SlotStep(run[|run| - 1], SlotAfterRun(run[..|run| - 1]))
  }

  /** What the sequential execution of `requests` does to the slot, call by call. */
  function Events<D>(lib: Library<D>, disk: D, requests: seq<Request>): seq<Event> {
    if requests == [] then []
    else
      var front, last := requests[..|requests| - 1], requests[|requests| - 1];
      Events(lib, disk, front) +
      match last
      case LastError => [ReadSlot]
      case Call(op, args, branch) =>
        if ConversionError(Converted(args, branch)).Some? then []
        else [Native(op, lib.run(Replay(lib, disk, front).disk, op, args, branch).1)]
  }

  /** One request gives one event, or none if it is refused before the native call; either way the slot follows. */
  lemma {:induction false} EventsAppend<D>(lib: Library<D>, disk: D, front: seq<Request>, last: Request)
    returns (events: seq<Event>)
    ensures |events| <= 1 && Events(lib, disk, front + [last]) == Events(lib, disk, front) + events
    ensures var before := Replay(lib, disk, front);
            Execute(lib, before.disk, before.slot, last).1
            == if events == [] then before.slot else SlotStep(events[0], before.slot)
  {
    assert (front + [last])[..|front + [last]| - 1] == front;
    events := Events(lib, disk, front + [last])[|Events(lib, disk, front)|..];
  }

  lemma {:induction false} SlotAppend(run: seq<Event>, events: seq<Event>)
    requires |events| <= 1
    ensures SlotAfterRun(run + events)
         == if events == [] then SlotAfterRun(run) else SlotStep(events[0], SlotAfterRun(run))
  {
    if events == [] {
      assert run + events == run;
    } else {
      assert (run + events)[..|run|] == run;
    }
  }

  lemma {:induction false} SlotFollows<D>(lib: Library<D>, disk: D, front: seq<Request>, last: Request)
    requires Replay(lib, disk, front).slot == SlotAfterRun(Events(lib, disk, front))
    ensures Replay(lib, disk, front + [last]).slot == SlotAfterRun(Events(lib, disk, front + [last]))
  {
    ReplayAppend(lib, disk, front, last);
    var events := EventsAppend(lib, disk, front, last);
    SlotAppend(Events(lib, disk, front), events);
  }

  lemma {:induction false} ReplaySlot<D>(lib: Library<D>, disk: D, requests: seq<Request>)
    ensures Replay(lib, disk, requests).slot == SlotAfterRun(Events(lib, disk, requests))
  {
    if requests == [] {
      assert Asks([]) == [];
    } else {
      var front, last := requests[..|requests| - 1], requests[|requests| - 1];
      assert requests == front + [last];
      ReplaySlot(lib, disk, front);
      SlotFollows(lib, disk, front, last);
    }
  }

  /** A get, list or history call whose exception the Rust side swallowed, leaving `text` behind. */
  predicate Swallowed(e: Event, text: string) {
    e.Native? && e.outcome == Throws(Some(text)) && (e.op.Get? || Lists(e.op))
  }

  /** Commands that leave the slot as they found it, whatever it holds. */
  predicate LeavesSlot(e: Event) {
    && e.Native?
    && !e.outcome.Throws?
    && (Expected(e.op, e.outcome) || e.op.Get? || Lists(e.op))
    && (e.op.Delete? ==> e.outcome.ReturnsNumber? && (e.outcome.n == 0 || e.outcome.n == 1))
  }

  /** `text` was left by the call at `i`, and no later command wrote or emptied the slot. */
  predicate LeftBy(run: seq<Event>, i: nat, text: string) {
    && i < |run|
    && Swallowed(run[i], text)
    && forall j :: i < j < |run| ==> LeavesSlot(run[j])
  }

  lemma {:induction false} StepHoldsIff(e: Event, slot: Option<string>, text: string)
    ensures SlotStep(e, slot) == Some(text) <==> Swallowed(e, text) || (slot == Some(text) && LeavesSlot(e))
  {
  }

  lemma {:induction false} LeftByLast(front: seq<Event>, last: Event, text: string)
    ensures (exists i: nat :: LeftBy(front + [last], i, text)) <==>
            Swallowed(last, text) || (LeavesSlot(last) && exists i: nat :: LeftBy(front, i, text))
  {
    var run := front + [last];
    if Swallowed(last, text) {
      assert LeftBy(run, |front|, text);
    }
    if i: nat :| LeavesSlot(last) && LeftBy(front, i, text) {
      assert LeftBy(run, i, text);
    }
    if i: nat :| LeftBy(run, i, text) && i < |front| {
      forall j | i < j < |front| ensures LeavesSlot(front[j]) {
        assert run[j] == front[j];
      }
      assert run[|front|] == last && run[i] == front[i] && LeftBy(front, i, text);
    }
  }

  /** Between commands the slot holds a text exactly when a swallowed failure left it there. */
  lemma {:induction false} SlotHoldsOnlySwallowedFailures(run: seq<Event>, text: string)
    ensures SlotAfterRun(run) == Some(text) <==> exists i: nat :: LeftBy(run, i, text)
  {
    if run != [] {
      var front, last := run[..|run| - 1], run[|run| - 1];
      SlotHoldsOnlySwallowedFailures(front, text);
      StepHoldsIff(last, SlotAfterRun(front), text);
      LeftByLast(front, last, text);
      assert front + [last] == run;
    }
  }

  /** The text of a failing native call, run after `run`. */
  function ReportedText(run: seq<Event>, op: Op, outcome: Outcome): Option<string> {
    var reply := Interpret(_ => true, op, outcome, SlotAfter(op, outcome, SlotAfterRun(run))).1;
    if reply.Failed? && reply.error.OperationFailed? then Some(reply.error.text) else None
  }

  /** The text the call itself produced. */
  predicate OwnText(op: Op, outcome: Outcome, text: string) {
    || outcome == Throws(Some(text))
    || (!outcome.Throws? && !Silent(op) && text == EntryName(op) + " returned null")
  }

  /** Every reported text is the call's own, the default, or one that a swallowed failure left behind; and
      only a query or delete that failed without an exception can report a left-over, and then always does. */
  lemma {:induction false} ReportedTextIsAttributed(run: seq<Event>, op: Op, outcome: Outcome, text: string)
    requires ReportedText(run, op, outcome) == Some(text)
    ensures || OwnText(op, outcome, text)
            || text == DefaultText(op)
            || ((op.Query? || op.Delete?) && !outcome.Throws? && exists i: nat :: LeftBy(run, i, text))
    ensures (op.Query? || op.Delete?) && !outcome.Throws? ==>
              (forall left: string, i: nat :: LeftBy(run, i, left) ==> text == left)
  {
    SlotHoldsOnlySwallowedFailures(run, text);
    forall left: string, i: nat | LeftBy(run, i, left) && (op.Query? || op.Delete?) && !outcome.Throws?
      ensures text == left
    {
      SlotHoldsOnlySwallowedFailures(run, left);
    }
  }

  /** Asked for the last error, after any requests, the caller is told a text exactly if a swallowed failure left it. */
  lemma {:induction false} LastErrorTells<D>(lib: Library<D>, disk: D, requests: seq<Request>)
    ensures var before := Replay(lib, disk, requests);
            var (disk', slot', reply) := Execute(lib, before.disk, before.slot, LastError);
            && disk' == before.disk && slot' == None && reply.Message?
            && forall text :: reply.text == Some(text) <==>
                              exists i: nat :: LeftBy(Events(lib, disk, requests), i, text)
  {
    ReplaySlot(lib, disk, requests);
    forall text
      ensures Replay(lib, disk, requests).slot == Some(text) <==>
              exists i: nat :: LeftBy(Events(lib, disk, requests), i, text)
    {
      SlotHoldsOnlySwallowedFailures(Events(lib, disk, requests), text);
    }
  }
}
