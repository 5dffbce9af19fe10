/** The FFI worker of bindings/rust/src/lib.rs as a state machine: what one receive on the command channel does
    to the worker, for the plain loop and for the loop with idle suspension.

    The environment is a script of turns, one for each receive: what was received and when, how long the work
    took, and how an attempt to open the database would go.  Times are in nanoseconds, timers are exact.
 */
module Worker {
  import opened Wrappers
  import opened Handlers
  import Decimal

  const SECOND: nat := 1_000_000_000

  datatype Command = Do(request: Request, reply: nat) | Shutdown

  datatype Opening = CreateFails | OpenFails(message: string) | Opens(handle: nat)

  datatype Wait = Got(command: Command, after: nat) | TimedOut | Disconnected

  datatype Turn = Turn(wait: Wait, opening: Opening, openTime: nat, busy: nat)

  datatype Config<!D> = Config(lib: Library<D>, dataPath: string, indexPath: string, idleTimeout: Option<nat>)

  /** Calls into the native library, with the raw thread pointer and handle that were passed. */
  datatype NativeCall =
    | CreateIsolate(id: nat)
    | OpenDatabase(opener: nat, handle: Option<nat>)
    | RunCommand(thread: Option<nat>, on: int)
    | CloseDatabase(closer: Option<nat>, closed: int)
    | TearDown(torn: nat)

  /** `FfiWorkerState`, the store on disk, and the calls made so far.  The slot lives in the isolate. */
  datatype State<D> = State(
    disk: D, thread: Option<nat>, slot: Option<string>, handle: int, created: nat, native: seq<NativeCall>)

  /** `served` tells the answers of the dispatcher from those of `reply_error`. */
  datatype Answer = Answer(reply: nat, request: Request, body: Reply, served: bool)

  datatype Backoff = Elapsed | Rejected | Interrupted

  /** What the idle loop did, for its timing and for the accounting of failed reopens. */
  datatype Stamp =
    | Took(at: nat)
    | Suspended(at: nat)
    | Reopened(at: nat)
    | ReopenFailed(at: nat, failures: nat)
    | Waited(failures: nat, duration: nat, how: Backoff)

  datatype Pc = AtHead | BackingOff | Exited

  /** `moves` are the commands executed so far, and which of them found the database just reopened. */
  datatype Worker<D> = Worker(
    state: State<D>, suspended: bool, lastActivity: nat, reopenFailures: nat, now: nat,
    pc: Pc, answers: seq<Answer>, stamps: seq<Stamp>, moves: seq<Move>)

  // ---------- the native state ----------

  predicate PathsHaveNul<D>(cfg: Config<D>) {
    ConversionError([cfg.dataPath, cfg.indexPath]).Some?
  }

  /** `init_worker`: on failure the caller keeps its old thread and handle, and the store is untouched. */
  function Init<D>(cfg: Config<D>, st: State<D>, opening: Opening): (State<D>, Option<Error>) {
    if opening.CreateFails? then (st, Some(IsolateCreationFailed))
    else
      var id := st.created;
      var created := st.(created := id + 1, native := st.native + [CreateIsolate(id)]);
      if PathsHaveNul(cfg) then
        // the conversion error returns before the new isolate is torn down
        (created, Some(OpenFailed(ConversionError([cfg.dataPath, cfg.indexPath]).value)))
      else if opening.OpenFails? then
        (created.(native := created.native + [OpenDatabase(id, None), TearDown(id)]), Some(OpenFailed(opening.message)))
      else
        (created.(disk := cfg.lib.onOpen(st.disk), thread := Some(id), slot := None, handle := opening.handle,
                  native := created.native + [OpenDatabase(id, Some(opening.handle))]), None)
  }

  /** The first path with a NUL has its first one here. */
  predicate NulAt<D>(cfg: Config<D>, k: nat) {
    var path := if '\0' in cfg.dataPath then cfg.dataPath else cfg.indexPath;
    k < |path| && path[k] == '\0' && '\0' !in path[..k]
  }

  /** Opening fails exactly if no isolate can be created, a path has a NUL, or the library refuses; the caller gets the
      error of the first of these. */
  lemma {:induction false} OpeningFailsIff<D>(cfg: Config<D>, st: State<D>, opening: Opening)
    ensures var failure := Init(cfg, st, opening).1;
            && (failure == None <==> opening.Opens? && '\0' !in cfg.dataPath && '\0' !in cfg.indexPath)
            && (opening.CreateFails? ==> failure == Some(IsolateCreationFailed))
            && (forall k: nat :: !opening.CreateFails? && NulAt(cfg, k) ==>
                  failure == Some(OpenFailed("nul byte found in provided data at position: " + Decimal.Digits(k))))
            && (opening.OpenFails? && '\0' !in cfg.dataPath && '\0' !in cfg.indexPath ==>
                  failure == Some(OpenFailed(opening.message)))
  {
    var paths := [cfg.dataPath, cfg.indexPath];
    assert paths[0] == cfg.dataPath && paths[1] == cfg.indexPath && paths[1..] == [cfg.indexPath];
  }

  function Close<D>(st: State<D>): State<D> {
    var closed :=
      if st.handle >= 0 then st.(handle := -1, native := st.native + [CloseDatabase(st.thread, st.handle)]) else st;
    if closed.thread.Some? then
      closed.(thread := None, slot := None, native := closed.native + [TearDown(closed.thread.value)])
    else closed
  }

  /** `dispatch_command` on anything but `Shutdown`. */
  function Dispatch<D>(cfg: Config<D>, st: State<D>, request: Request): (State<D>, Reply) {
    var (disk, slot, body) := Execute(cfg.lib, st.disk, st.slot, request);
    (st.(disk := disk, slot := slot, native := st.native + [RunCommand(st.thread, st.handle)]), body)
  }

  const REOPEN_FAILED := "failed to reopen database after idle suspend"
  const UNAVAILABLE := "database unavailable after reopen failure"

  /** `reply_error` */
  function Rejection(request: Request, text: string): Reply {
    if request.LastError? then Message(None) else Failed(OperationFailed(text))
  }

  // ---------- one receive ----------

  /** The idle timeout itself where it is between 1 and 30 seconds, the nearer of these bounds where it is not. */
  function CheckInterval(idle: nat): (interval: nat)
    ensures SECOND <= idle <= 30 * SECOND ==> interval == idle
    ensures idle < SECOND ==> interval == SECOND
    ensures idle > 30 * SECOND ==> interval == 30 * SECOND
  {
    var capped := if idle < 30 * SECOND then idle else 30 * SECOND;
    if capped < SECOND then SECOND else capped
  }

  function Pow2(n: nat): nat {
    if n == 0 then 1 else 2 * Pow2(n - 1)
  }

  /** The wait after the k-th consecutive failure to reopen. */
  function BackoffTime(failures: nat): nat {
    SECOND * Pow2(if failures < 5 then failures else 5)
  }

  function Serve<D>(cfg: Config<D>, w: Worker<D>, request: Request, reply: nat, busy: nat, reopened: bool): Worker<D> {
    var (st, body) := Dispatch(cfg, w.state, request);
    w.(state := st, lastActivity := w.now, now := w.now + busy,
       answers := w.answers + [Answer(reply, request, body, true)], moves := w.moves + [Move(request, reopened)])
  }

  function PlainStep<D>(cfg: Config<D>, w: Worker<D>, turn: Turn): Worker<D> {
    if w.pc.Exited? then w
    else match turn.wait
      case TimedOut => w  // recv has no timeout
      case Disconnected => w.(pc := Exited)
      case Got(Shutdown, after) => w.(now := w.now + after, pc := Exited)
      case Got(Do(request, reply), after) =>
        Serve(cfg, w.(now := w.now + after), request, reply, turn.busy, false)
  }

  /** A receive at the head of the idle loop. */
  function HeadStep<D>(cfg: Config<D>, idle: nat, w: Worker<D>, turn: Turn): Worker<D> {
    match turn.wait
    case Disconnected => w.(pc := Exited)
    case TimedOut =>
      var now := w.now + CheckInterval(idle);
      if !w.suspended && now - w.lastActivity >= idle then
        w.(state := Close(w.state), suspended := true, now := now + turn.busy, stamps := w.stamps + [Suspended(now)])
      else w.(now := now)
    case Got(Shutdown, after) => w.(now := w.now + after, pc := Exited)
    case Got(Do(request, reply), after) =>
      var taken := w.(now := w.now + after, stamps := w.stamps + [Took(w.now + after)]);
      if !w.suspended then Serve(cfg, taken, request, reply, turn.busy, false)
      else
        var (st, failure) := Init(cfg, w.state, turn.opening);
        var now := taken.now + turn.openTime;
        if failure.None? then
          Serve(cfg, taken.(state := st, suspended := false, reopenFailures := 0, now := now,
                            stamps := taken.stamps + [Reopened(now)]), request, reply, turn.busy, true)
        else
          var failures := w.reopenFailures + 1;
          taken.(state := st, reopenFailures := failures, now := now, pc := BackingOff,
                 answers := w.answers + [Answer(reply, request, Rejection(request, REOPEN_FAILED), false)],
                 stamps := taken.stamps + [ReopenFailed(now, failures)])
  }

  /** The one receive that waits out the backoff. */
  function BackoffStep<D>(w: Worker<D>, turn: Turn): Worker<D> {
    var k := w.reopenFailures;
    match turn.wait
    case Disconnected => w.(pc := AtHead, stamps := w.stamps + [Waited(k, 0, Interrupted)])
    case TimedOut =>
      w.(pc := AtHead, now := w.now + BackoffTime(k), stamps := w.stamps + [Waited(k, BackoffTime(k), Elapsed)])
    case Got(Shutdown, after) =>
      w.(pc := Exited, now := w.now + after, stamps := w.stamps + [Waited(k, after, Interrupted)])
    case Got(Do(request, reply), after) =>
      w.(pc := AtHead, now := w.now + after,
         answers := w.answers + [Answer(reply, request, Rejection(request, UNAVAILABLE), false)],
         stamps := w.stamps + [Waited(k, after, Rejected)])
  }

  function Step<D>(cfg: Config<D>, w: Worker<D>, turn: Turn): Worker<D> {
    match cfg.idleTimeout
    case None => PlainStep(cfg, w, turn)
    case Some(idle) =>
      match w.pc
      case Exited => w
      case AtHead => HeadStep(cfg, idle, w, turn)
      case BackingOff => BackoffStep(w, turn)
  }

  // ---------- runs ----------

  function Run<D>(cfg: Config<D>, w: Worker<D>, script: seq<Turn>): Worker<D> {
    if script == [] then w
    else Step(cfg, Run(cfg, w, script[..|script| - 1]), script[|script| - 1])
  }

  /** The worker as the loop finds it, over a state that was just opened. */
  function Start<D>(st: State<D>, now: nat): Worker<D> {
    Worker(st, false, now, 0, now, AtHead, [], [], [])
  }

  function NewProcess<D>(disk: D): State<D> {
    State(disk, None, None, -1, 0, [])
  }

  /** The body of the worker thread: open, run the loop, close. */
  function ThreadBody<D>(cfg: Config<D>, disk: D, first: Opening, now: nat, script: seq<Turn>): State<D> {
    var (st, failure) := Init(cfg, NewProcess(disk), first);
    if failure.Some? then st else Close(Run(cfg, Start(st, now), script).state)
  }

  /** A run goes on from where an earlier part of its script has led. */
  lemma {:induction false} RunSplit<D>(cfg: Config<D>, w: Worker<D>, first: seq<Turn>, rest: seq<Turn>)
    ensures Run(cfg, w, first + rest) == Run(cfg, Run(cfg, w, first), rest)
  {
    if rest == [] {
      assert first + rest == first;
    } else {
      RunSplit(cfg, w, first, rest[..|rest| - 1]);
      assert (first + rest)[..|first + rest| - 1] == first + rest[..|rest| - 1];
    }
  }

  lemma {:induction false} ExitedStays<D>(cfg: Config<D>, w: Worker<D>, script: seq<Turn>, n: nat)
    requires n <= |script|
    requires Run(cfg, w, script[..n]).pc.Exited?
    ensures Run(cfg, w, script) == Run(cfg, w, script[..n])
    decreases |script|
  {
    if n < |script| {
      assert script[..|script| - 1][..n] == script[..n];
      ExitedStays(cfg, w, script[..|script| - 1], n);
    } else {
      assert script[..n] == script;
    }
  }
}
