/** The worker thread of bindings/rust/src/lib.rs in its own form: a state whose handle and isolate are
    overwritten in place, and the two receive loops, proved to run as the state machine of `Worker` says.
 */
module WorkerLoop {
  import opened Wrappers
  import opened ChronDBLib
  import opened Handlers
  import opened Worker

  class FfiWorkerState<D> {
    const cfg: Config<D>
    var disk: D
    var isolate: ChronDBLib?  // the null pointer is null
    var isolateId: nat
    var handle: int
    var created: nat
    var answers: seq<Answer>  // what was sent on the reply channels
    ghost var native: seq<NativeCall>
    ghost var stamps: seq<Stamp>
    ghost var moves: seq<Move>

    ghost function View(): State<D>
      reads this, isolate
    {
      State(disk, if isolate == null then None else Some(isolateId),
            if isolate == null then None else isolate.lastError, handle, created, native)
    }

    /** This state with the loop's variables, as the step machine sees them. */
    ghost function Snapshot(suspended: bool, lastActivity: nat, reopenFailures: nat, now: nat, pc: Pc): Worker<D>
      reads this, isolate
    {
      Worker(View(), suspended, lastActivity, reopenFailures, now, pc, answers, stamps, moves)
    }

    constructor (cfg: Config<D>, disk: D)
      ensures this.cfg == cfg && View() == NewProcess(disk)
      ensures answers == [] && stamps == [] && moves == []
    {
      this.cfg, this.disk := cfg, disk;
      isolate, isolateId, handle, created := null, 0, -1, 0;
      answers, native, stamps, moves := [], [], [], [];
    }

    /** Opens an isolate and the database in it; on failure the old thread and handle stay. */
    method InitWorker(opening: Opening) returns (failure: Option<Error>)
      modifies this`disk, this`isolate, this`isolateId, this`handle, this`created, this`native
      ensures (View(), failure) == Init(cfg, old(View()), opening)
      ensures isolate == old(isolate) || fresh(isolate)
    {
      if opening.CreateFails? {
        return Some(IsolateCreationFailed);
      }
      var id := created;
      created := created + 1;
      native := native + [CreateIsolate(id)];
      match ConversionError([cfg.dataPath, cfg.indexPath])
      case Some(text) =>
        return Some(OpenFailed(text));
      case None =>
        var lib := new ChronDBLib();
        match opening
        case OpenFails(message) =>
          native := native + [OpenDatabase(id, None), TearDown(id)];
          return Some(OpenFailed(message));
        case Opens(h) =>
          native := native + [OpenDatabase(id, Some(h))];
          disk := cfg.lib.onOpen(disk);
          isolate, isolateId, handle := lib, id, h;
          return None;
    }

    method CloseState()
      modifies this`isolate, this`handle, this`native
      ensures View() == Close(old(View()))
      ensures isolate == null
    {
      if handle >= 0 {
        native := native + [CloseDatabase(if isolate == null then None else Some(isolateId), handle)];
        handle := -1;
      }
      if isolate != null {
        native := native + [TearDown(isolateId)];
        isolate := null;
      }
    }

    /** Runs one handler on the open database and sends its reply. */
    method DispatchCommand(request: Request, reply: nat, ghost reopened: bool)
      requires isolate != null
      modifies this`disk, this`answers, this`native, this`moves, isolate
      ensures isolate == old(isolate)
      ensures View() == Dispatch(cfg, old(View()), request).0
      ensures answers == old(answers) + [Answer(reply, request, Dispatch(cfg, old(View()), request).1, true)]
      ensures moves == old(moves) + [Move(request, reopened)]
    {
      moves := moves + [Move(request, reopened)];
      native := native + [RunCommand(Some(isolateId), handle)];
      var body: Reply;
      match request {
        case LastError =>
          var text := isolate.GetLastError();
          body := Message(text);
        case Call(op, args, branch) =>
          match ConversionError(Converted(args, branch)) {
            case Some(text) => body := Failed(OperationFailed(text));
            case None => body := HandleCall(op, args, branch);
          }
      }
      answers := answers + [Answer(reply, request, body, true)];
    }

    method HandleCall(op: Op, args: seq<string>, branch: Option<string>) returns (body: Reply)
      requires isolate != null
      modifies this`disk, isolate
      ensures var (disk', outcome) := cfg.lib.run(old(disk), op, args, branch);
              disk == disk' &&
              (isolate.lastError, body)
              == Interpret(cfg.lib.parses, op, outcome, SlotAfter(op, outcome, old(isolate.lastError)))
    {
      var (disk', outcome) := cfg.lib.run(disk, op, args, branch);
      disk := disk';
      if op.Delete? {
        var code := isolate.InvokeDelete(outcome);
        if code == 0 {
          body := Done;
        } else if code == 1 {
          body := Failed(NotFound);
        } else {
          body := LastErrorOr(DefaultText(op));
        }
      } else {
        var pointer := isolate.InvokeText(op, outcome);
        if pointer.Some? {
          body := if cfg.lib.parses(pointer.value) then Value(pointer.value) else Failed(JsonError);
        } else if op.Get? {
          body := Failed(NotFound);
        } else if Lists(op) {
          body := Value("[]");
        } else {
          body := LastErrorOr(DefaultText(op));
        }
      }
    }

    method LastErrorOr(default: string) returns (body: Reply)
      requires isolate != null
      modifies isolate
      ensures body == FromSlot(old(isolate.lastError), default) && isolate.lastError == None
    {
      var text := isolate.GetLastError();
      body := Failed(OperationFailed(if text.Some? then text.value else default));
    }

    method ReplyError(request: Request, reply: nat, text: string)
      modifies this`answers
      ensures answers == old(answers) + [Answer(reply, request, Rejection(request, text), false)]
    {
      var body := if request.LastError? then Message(None) else Failed(OperationFailed(text));
      answers := answers + [Answer(reply, request, body, false)];
    }

    /** The loop without idle suspension, over as much of its run as `script` covers. */
    method RunWorkerLoop(start: nat, script: seq<Turn>) returns (lastActivity: nat, now: nat, pc: Pc)
      requires cfg.idleTimeout.None? && isolate != null && answers == [] && stamps == [] && moves == []
      modifies this`disk, this`answers, this`native, this`moves, isolate
      ensures isolate == old(isolate)
      ensures Snapshot(false, lastActivity, 0, now, pc) == Run(cfg, Start(old(View()), start), script)
    {
      ghost var begin := Start(View(), start);
      lastActivity, now, pc := start, start, AtHead;
      var i := 0;
      assert script[..0] == [];
      while i < |script| && pc != Exited
        invariant i <= |script| && isolate == old(isolate) && stamps == []
        invariant Snapshot(false, lastActivity, 0, now, pc) == Run(cfg, begin, script[..i])
      {
        var turn := script[i];
        i := i + 1;
        assert script[..i][..i - 1] == script[..i - 1];
        match turn.wait {
          case TimedOut =>  // recv has no timeout
          case Disconnected => pc := Exited;
          case Got(Shutdown, after) => now, pc := now + after, Exited;
          case Got(Do(request, reply), after) =>
            now := now + after;
            lastActivity := now;
            DispatchCommand(request, reply, false);
            now := now + turn.busy;
        }
      }
      if pc == Exited {
        ExitedStays(cfg, begin, script, i);
      }
      assert script[..|script|] == script;
    }

    /** One command on the open database, at the time `start`. */
    method ServeCommand(request: Request, reply: nat, busy: nat, ghost failures: nat, start: nat,
                        ghost reopened: bool, ghost w: Worker<D>)
      returns (now: nat)
      requires isolate != null && w == Snapshot(false, w.lastActivity, failures, start, w.pc)
      modifies this`disk, this`answers, this`native, this`moves, isolate
      ensures isolate == old(isolate)
      ensures Snapshot(false, start, failures, now, w.pc) == Serve(cfg, w, request, reply, busy, reopened)
    {
      DispatchCommand(request, reply, reopened);
      now := start + busy;
    }

    /** A command other than shutdown at the head of the idle loop: reopen if suspended, then serve or refuse. */
    method TakeCommand(request: Request, reply: nat, turn: Turn, wasSuspended: bool, activity: nat, failures: nat,
                       start: nat, ghost w: Worker<D>)
      returns (suspended: bool, lastActivity: nat, reopenFailures: nat, now: nat, pc: Pc)
      requires cfg.idleTimeout.Some? && (wasSuspended <==> isolate == null)
      requires turn.wait.Got? && turn.wait.command == Do(request, reply)
      requires w == Snapshot(wasSuspended, activity, failures, start, AtHead)
      modifies this, isolate
      ensures suspended <==> isolate == null
      ensures isolate == null || isolate == old(isolate) || fresh(isolate)
      ensures Snapshot(suspended, lastActivity, reopenFailures, now, pc)
              == HeadStep(cfg, cfg.idleTimeout.value, w, turn)
    {
      suspended, lastActivity, reopenFailures, pc := wasSuspended, activity, failures, AtHead;
      now := start + turn.wait.after;
      stamps := stamps + [Took(now)];
      if suspended {
        var failure := InitWorker(turn.opening);
        now := now + turn.openTime;
        if failure.Some? {
          reopenFailures := reopenFailures + 1;
          ReplyError(request, reply, REOPEN_FAILED);
          stamps := stamps + [ReopenFailed(now, reopenFailures)];
          pc := BackingOff;
          return;
        }
        suspended := false;
        reopenFailures := 0;
        stamps := stamps + [Reopened(now)];
      }
      lastActivity := now;
      now := ServeCommand(request, reply, turn.busy, reopenFailures, now, wasSuspended,
                          Snapshot(false, activity, reopenFailures, now, pc));
    }

    /** The one receive with the backoff as its timeout, so that a shutdown is still seen. */
    method WaitOutBackoff(turn: Turn, reopenFailures: nat, start: nat, ghost w: Worker<D>) returns (now: nat, pc: Pc)
      requires w == Snapshot(w.suspended, w.lastActivity, reopenFailures, start, BackingOff)
      modifies this`answers, this`stamps
      ensures Snapshot(w.suspended, w.lastActivity, reopenFailures, now, pc) == BackoffStep(w, turn)
    {
      now, pc := start, AtHead;
      match turn.wait {
        case Disconnected =>
          stamps := stamps + [Waited(reopenFailures, 0, Interrupted)];
        case TimedOut =>
          now := now + BackoffTime(reopenFailures);
          stamps := stamps + [Waited(reopenFailures, BackoffTime(reopenFailures), Elapsed)];
        case Got(Shutdown, after) =>
          now, pc := now + after, Exited;
          stamps := stamps + [Waited(reopenFailures, after, Interrupted)];
        case Got(Do(request, reply), after) =>
          now := now + after;
          ReplyError(request, reply, UNAVAILABLE);
          stamps := stamps + [Waited(reopenFailures, after, Rejected)];
      }
    }

    /** The receive at the head of the loop, with the check interval as its timeout. */
    method ReceiveAtHead(turn: Turn, checkInterval: nat, wasSuspended: bool, activity: nat, failures: nat,
                         start: nat, ghost w: Worker<D>)
      returns (suspended: bool, lastActivity: nat, reopenFailures: nat, now: nat, pc: Pc)
      requires cfg.idleTimeout.Some? && (wasSuspended <==> isolate == null)
      requires checkInterval == CheckInterval(cfg.idleTimeout.value)
      requires w == Snapshot(wasSuspended, activity, failures, start, AtHead)
      modifies this, isolate
      ensures suspended <==> isolate == null
      ensures isolate == null || isolate == old(isolate) || fresh(isolate)
      ensures Snapshot(suspended, lastActivity, reopenFailures, now, pc)
              == HeadStep(cfg, cfg.idleTimeout.value, w, turn)
    {
      suspended, lastActivity, reopenFailures, now, pc := wasSuspended, activity, failures, start, AtHead;
      match turn.wait {
        case Disconnected =>
          pc := Exited;
        case TimedOut =>
          now := now + checkInterval;
          if !suspended && now - lastActivity >= cfg.idleTimeout.value {
            CloseState();
            suspended := true;
            stamps := stamps + [Suspended(now)];
            now := now + turn.busy;
          }
        case Got(Shutdown, after) =>
          now, pc := now + after, Exited;
        case Got(Do(request, reply), after) =>
          suspended, lastActivity, reopenFailures, now, pc :=
            TakeCommand(request, reply, turn, suspended, lastActivity, reopenFailures, now, w);
      }
    }

    /** The loop that closes the isolate when idle and reopens it on the next command. */
    method RunWorkerLoopWithIdle(start: nat, script: seq<Turn>)
      returns (suspended: bool, lastActivity: nat, reopenFailures: nat, now: nat, pc: Pc)
      requires cfg.idleTimeout.Some? && isolate != null && answers == [] && stamps == [] && moves == []
      modifies this, isolate
      ensures suspended <==> isolate == null
      ensures Snapshot(suspended, lastActivity, reopenFailures, now, pc)
              == Run(cfg, Start(old(View()), start), script)
    {
      ghost var begin := Start(View(), start);
      var checkInterval := CheckInterval(cfg.idleTimeout.value);
      suspended, lastActivity, reopenFailures, now, pc := false, start, 0, start, AtHead;
      var i := 0;
      assert script[..0] == [];
      while i < |script| && pc != Exited
        invariant i <= |script|
        invariant suspended <==> isolate == null
        invariant isolate == null || isolate == old(isolate) || fresh(isolate)
        invariant pc == BackingOff ==> i == |script|
        invariant Snapshot(suspended, lastActivity, reopenFailures, now, pc)
                  == Run(cfg, begin, script[..i])
      {
        var turn := script[i];
        i := i + 1;
        assert script[..i][..i - 1] == script[..i - 1];
        suspended, lastActivity, reopenFailures, now, pc :=
          ReceiveAtHead(turn, checkInterval, suspended, lastActivity, reopenFailures, now,
                        Run(cfg, begin, script[..i - 1]));
        if pc == BackingOff && i < |script| {
          i := i + 1;
          assert script[..i][..i - 1] == script[..i - 1];
          now, pc := WaitOutBackoff(script[i - 1], reopenFailures, now, Run(cfg, begin, script[..i - 1]));
        }
      }
      if pc == Exited {
        ExitedStays(cfg, begin, script, i);
      }
      assert script[..|script|] == script;
    }
  }

  /** The worker thread: open, run the loop that the configuration asks for, close. */
  method WorkerThread<D>(cfg: Config<D>, disk: D, first: Opening, start: nat, script: seq<Turn>)
    returns (state: FfiWorkerState<D>, failure: Option<Error>)
    ensures state.cfg == cfg
    ensures failure == Init(cfg, NewProcess(disk), first).1
    ensures failure == None <==> first.Opens? && '\0' !in cfg.dataPath && '\0' !in cfg.indexPath
    ensures state.View() == ThreadBody(cfg, disk, first, start, script)
    ensures failure.None? ==>
              state.answers == Run(cfg, Start(Init(cfg, NewProcess(disk), first).0, start), script).answers
  {
    state := new FfiWorkerState(cfg, disk);
    OpeningFailsIff(cfg, NewProcess(disk), first);
    failure := state.InitWorker(first);
    if failure.None? {
      if cfg.idleTimeout.None? {
        var lastActivity, now, pc := state.RunWorkerLoop(start, script);
      } else {
        var suspended, lastActivity, failures, now, pc := state.RunWorkerLoopWithIdle(start, script);
      }
      state.CloseState();
    }
  }
}
