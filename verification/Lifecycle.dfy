/** Every isolate is accounted for: a monitor of the native calls, and the proof that it accepts every run of the
    worker thread, whatever is received, whenever the loop suspends, and however reopening goes.
 */
module Lifecycle {
  import opened Wrappers
  import opened Handlers
  import opened Worker

  // ---------- the discipline ----------

  datatype Current = NoIsolate | Bare(id: nat) | Serving(id: nat, handle: nat)

  datatype Life = Life(created: nat, current: Current)

  /** At most one isolate at a time, fresh ids, commands only on the open database, close before tear-down. */
  function Accept(life: Life, call: NativeCall): Option<Life> {
    match call
    case CreateIsolate(id) =>
      if life.current.NoIsolate? && id == life.created then Some(Life(id + 1, Bare(id))) else None
    case OpenDatabase(opener, handle) =>
      if life.current != Bare(opener) then None
      else Some(life.(current := if handle.Some? then Serving(opener, handle.value) else Bare(opener)))
    case RunCommand(thread, on) =>
      if life.current.Serving? && thread == Some(life.current.id) && on == life.current.handle then Some(life) else None
    case CloseDatabase(closer, closed) =>
      if life.current.Serving? && closer == Some(life.current.id) && closed == life.current.handle
      then Some(life.(current := Bare(life.current.id))) else None
    case TearDown(torn) =>
      if life.current == Bare(torn) then Some(life.(current := NoIsolate)) else None
  }

  function Monitor(calls: seq<NativeCall>): Option<Life> {
    if calls == [] then Some(Life(0, NoIsolate))
    else match Monitor(calls[..|calls| - 1])
      case None => None
      case Some(life) => Accept(life, calls[|calls| - 1])
  }

  lemma {:induction false} MonitorAppend(calls: seq<NativeCall>, call: NativeCall)
    ensures Monitor(calls + [call]) == match Monitor(calls) case None => None case Some(life) => Accept(life, call)
  {
  }

  function Count(calls: seq<NativeCall>, call: NativeCall): nat {
    if calls == [] then 0 else Count(calls[..|calls| - 1], call) + if calls[|calls| - 1] == call then 1 else 0
  }

  /** What acceptance means for one isolate id: created once, torn down once unless it is the one still alive. */
  lemma {:induction false} AcceptedMeansConserved(calls: seq<NativeCall>, id: nat)
    requires Monitor(calls).Some?
    ensures var life := Monitor(calls).value;
            && Count(calls, CreateIsolate(id)) == (if id < life.created then 1 else 0)
            && Count(calls, TearDown(id))
               == (if id < life.created && (life.current.NoIsolate? || life.current.id != id) then 1 else 0)
            && (!life.current.NoIsolate? ==> life.current.id < life.created)
  {
    if calls != [] {
      AcceptedMeansConserved(calls[..|calls| - 1], id);
      if !Monitor(calls).value.current.NoIsolate? {
        AcceptedMeansConserved(calls[..|calls| - 1], Monitor(calls).value.current.id);
      }
    }
  }

  lemma {:induction false} AcceptedPrefix(calls: seq<NativeCall>, n: nat)
    requires n <= |calls| && Monitor(calls).Some?
    ensures Monitor(calls[..n]).Some?
  {
    if n < |calls| {
      assert calls[..|calls| - 1][..n] == calls[..n];
      AcceptedPrefix(calls[..|calls| - 1], n);
    } else {
      assert calls[..n] == calls;
    }
  }

  predicate Live(calls: seq<NativeCall>, id: nat) {
    Count(calls, CreateIsolate(id)) > Count(calls, TearDown(id))
  }

  /** At no instant of an accepted run are two isolates alive. */
  lemma {:induction false} AtMostOneLive(calls: seq<NativeCall>, n: nat, id1: nat, id2: nat)
    requires Monitor(calls).Some? && n <= |calls|
    requires Live(calls[..n], id1) && Live(calls[..n], id2)
    ensures id1 == id2
  {
    AcceptedPrefix(calls, n);
    AcceptedMeansConserved(calls[..n], id1);
    AcceptedMeansConserved(calls[..n], id2);
  }

  /** `id` was opened with `handle` at `j`, and neither closed nor torn down since. */
  predicate OpenSince(calls: seq<NativeCall>, j: nat, id: nat, handle: nat) {
    && j < |calls|
    && calls[j] == OpenDatabase(id, Some(handle))
    && forall k :: j < k < |calls| ==> calls[k] != TearDown(id) && calls[k] != CloseDatabase(Some(id), handle)
  }

  lemma {:induction false} ServingMeansOpen(calls: seq<NativeCall>, id: nat, handle: nat)
    requires Monitor(calls).Some? && Monitor(calls).value.current == Serving(id, handle)
    ensures exists j: nat :: OpenSince(calls, j, id, handle)
  {
    var front, last := calls[..|calls| - 1], calls[|calls| - 1];
    if last.OpenDatabase? {
      assert OpenSince(calls, |front|, id, handle);
    } else {
      ServingMeansOpen(front, id, handle);
      var j: nat :| OpenSince(front, j, id, handle);
      assert OpenSince(calls, j, id, handle);
    }
  }

  /** In an accepted run every command runs on a handle that is open at that moment. */
  lemma {:induction false} CommandsRunOnOpenHandles(calls: seq<NativeCall>, n: nat)
    requires Monitor(calls).Some? && n < |calls| && calls[n].RunCommand?
    ensures calls[n].thread.Some? && calls[n].on >= 0
    ensures exists j: nat :: OpenSince(calls[..n], j, calls[n].thread.value, calls[n].on)
  {
    AcceptedPrefix(calls, n + 1);
    assert calls[..n + 1] == calls[..n] + [calls[n]];
    MonitorAppend(calls[..n], calls[n]);
    ServingMeansOpen(calls[..n], calls[n].thread.value, calls[n].on);
  }

  // ---------- the worker keeps it ----------

  predicate Tracked<D>(st: State<D>) {
    && Monitor(st.native) == Some(Life(st.created,
         if st.thread.Some? && st.handle >= 0 then Serving(st.thread.value, st.handle) else NoIsolate))
    && (st.thread.Some? <==> st.handle >= 0)
    && st.handle >= -1
    && (st.thread.None? ==> st.slot.None?)
  }

  /** Handle and thread are closed exactly while the loop is suspended. */
  predicate Ready<D>(w: Worker<D>) {
    && Tracked(w.state)
    && (w.suspended <==> w.state.thread.None? && w.state.handle == -1)
    && (w.pc.BackingOff? ==> w.suspended)
  }

  /** Opening in a process without an isolate, and giving up if that fails. */
  lemma {:induction false} OpeningAccepted(calls: seq<NativeCall>, id: nat, handle: Option<nat>)
    requires Monitor(calls) == Some(Life(id, NoIsolate))
    ensures var made := calls + [CreateIsolate(id)];
            && Monitor(made) == Some(Life(id + 1, Bare(id)))
            && Monitor(made + [OpenDatabase(id, handle)])
               == Some(Life(id + 1, if handle.Some? then Serving(id, handle.value) else Bare(id)))
            && (handle.None? ==>
                  Monitor(made + [OpenDatabase(id, handle), TearDown(id)]) == Some(Life(id + 1, NoIsolate)))
  {
    var made, open := calls + [CreateIsolate(id)], OpenDatabase(id, handle);
    MonitorAppend(calls, CreateIsolate(id));
    MonitorAppend(made, open);
    MonitorAppend(made + [open], TearDown(id));
    assert made + [open] + [TearDown(id)] == made + [open, TearDown(id)];
  }

  lemma {:induction false} InitTracked<D>(cfg: Config<D>, st: State<D>, opening: Opening)
    requires Tracked(st) && st.thread.None? && !PathsHaveNul(cfg)
    ensures var (st', failure) := Init(cfg, st, opening);
            && Tracked(st') && (st'.thread.Some? <==> failure.None?)
            && st'.disk == if failure.None? then cfg.lib.onOpen(st.disk) else st.disk
  {
    match opening
    case CreateFails =>
    case OpenFails(_) => OpeningAccepted(st.native, st.created, None);
    case Opens(handle) => OpeningAccepted(st.native, st.created, Some(handle));
  }

  lemma {:induction false} CloseTracked<D>(st: State<D>)
    requires Tracked(st)
    ensures Tracked(Close(st)) && Close(st).thread.None? && Close(st).disk == st.disk
  {
  }

  lemma {:induction false} DispatchTracked<D>(cfg: Config<D>, st: State<D>, request: Request)
    requires Tracked(st) && st.thread.Some?
    ensures Tracked(Dispatch(cfg, st, request).0)
  {
  }

  lemma {:induction false} StepReady<D>(cfg: Config<D>, w: Worker<D>, turn: Turn)
    requires !PathsHaveNul(cfg) && Ready(w) && (cfg.idleTimeout.None? ==> !w.suspended)
    ensures Ready(Step(cfg, w, turn)) && (cfg.idleTimeout.None? ==> !Step(cfg, w, turn).suspended)
  {
    CloseTracked(w.state);
    if turn.wait.Got? && turn.wait.command.Do? {
      var request := turn.wait.command.request;
      if w.state.thread.Some? {
        DispatchTracked(cfg, w.state, request);
      } else {
        InitTracked(cfg, w.state, turn.opening);
        if Init(cfg, w.state, turn.opening).1.None? {
          DispatchTracked(cfg, Init(cfg, w.state, turn.opening).0, request);
        }
      }
    }
  }

  lemma {:induction false} RunReady<D>(cfg: Config<D>, w: Worker<D>, script: seq<Turn>)
    requires !PathsHaveNul(cfg) && Ready(w) && !w.suspended
    ensures Ready(Run(cfg, w, script)) && (cfg.idleTimeout.None? ==> !Run(cfg, w, script).suspended)
  {
    if script != [] {
      RunReady(cfg, w, script[..|script| - 1]);
      StepReady(cfg, Run(cfg, w, script[..|script| - 1]), script[|script| - 1]);
    }
  }

  /** Whenever the worker thread is in its loop, its calls so far are accepted and its state says what is open. */
  lemma {:induction false} LoopIsTracked<D>(cfg: Config<D>, disk: D, first: Opening, now: nat, script: seq<Turn>)
    requires Init(cfg, NewProcess(disk), first).1.None?
    ensures Ready(Run(cfg, Start(Init(cfg, NewProcess(disk), first).0, now), script))
  {
    InitTracked(cfg, NewProcess(disk), first);
    RunReady(cfg, Start(Init(cfg, NewProcess(disk), first).0, now), script);
  }

  /** At thread exit every isolate that was created has been torn down exactly once, except when a path holds a
      NUL: then, and only then, the one isolate that was created is never torn down. */
  lemma {:induction false} NoIsolateOutlivesTheThread<D>(cfg: Config<D>, disk: D, first: Opening, now: nat,
                                                         script: seq<Turn>)
    ensures var st := ThreadBody(cfg, disk, first, now, script);
            && Monitor(st.native).Some?
            && ((forall id: nat :: id < st.created ==> Count(st.native, TearDown(id)) == 1)
                <==> !(PathsHaveNul(cfg) && !first.CreateFails?))
            && (forall id: nat :: Count(st.native, CreateIsolate(id)) == (if id < st.created then 1 else 0))
  {
    var st := ThreadBody(cfg, disk, first, now, script);
    var (ready, failure) := Init(cfg, NewProcess(disk), first);
    if PathsHaveNul(cfg) && !first.CreateFails? {
      MonitorAppend([], CreateIsolate(0));
      assert [] + [CreateIsolate(0)] == st.native;
      AcceptedMeansConserved(st.native, 0);
    } else {
      if !first.CreateFails? {
        InitTracked(cfg, NewProcess(disk), first);
      }
      if failure.None? {
        LoopIsTracked(cfg, disk, first, now, script);
        CloseTracked(Run(cfg, Start(ready, now), script).state);
      }
      assert Tracked(st) && st.thread.None?;
    }
    forall id: nat
      ensures Count(st.native, CreateIsolate(id)) == (if id < st.created then 1 else 0)
      ensures !(PathsHaveNul(cfg) && !first.CreateFails?) && id < st.created ==> Count(st.native, TearDown(id)) == 1
    {
      AcceptedMeansConserved(st.native, id);
    }
  }
}
