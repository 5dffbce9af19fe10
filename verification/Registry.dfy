/** The global registry of weak references to workers: opening and dropping instances, interleaved between the
    points where the registry lock is taken and released.

    Every operation concerns one key of the registry, so the state is kept key by key.
 */
module Registry {
  import opened Wrappers

  type Key = (string, string)

  /** An open or a final drop under way, by the next thing it will do. */
  datatype Stage =
    | Creating                 // the lookup found no live worker
    | Inserting(worker: nat)   // the worker runs, its entry is not written yet
    | Removing(worker: nat)    // the last strong reference is gone
    | Closing(worker: nat)     // the entry is removed, `Shutdown` sent, the thread being joined

  /** One key: its weak reference, the strong count of every worker ever created for it, the workers whose
      thread is alive, and the operations under way. */
  datatype Cell = Cell(entry: Option<nat>, strong: seq<nat>, running: set<nat>, ops: map<nat, Stage>)

  type State = map<Key, Cell>

  datatype Action =
    | OpenFound                      // the weak reference upgrades: share its worker
    | OpenMissing(op: nat)
    | Created(op: nat)
    | CreateFailed(op: nat)
    | Insert(op: nat)
    | DropShared(worker: nat)
    | DropLast(op: nat, worker: nat)
    | Remove(op: nat)
    | Joined(op: nat)

  const NO_CELL := Cell(None, [], {}, map[])

  function At(s: State, k: Key): Cell {
    if k in s then s[k] else NO_CELL
  }

  predicate Upgrades(c: Cell) {
    c.entry.Some? && c.entry.value < |c.strong| && c.strong[c.entry.value] > 0
  }

  predicate Enabled(c: Cell, a: Action) {
    match a
    case OpenFound => Upgrades(c)
    case OpenMissing(o) => o !in c.ops && !Upgrades(c)
    case Created(o) => o in c.ops && c.ops[o].Creating?
    case CreateFailed(o) => o in c.ops && c.ops[o].Creating?
    case Insert(o) => o in c.ops && c.ops[o].Inserting?
    case DropShared(w) => w < |c.strong| && c.strong[w] > 1
    case DropLast(o, w) =>
      // the instance of an open under way is still in the hands of that open
      o !in c.ops && w < |c.strong| && c.strong[w] == 1 && Inserting(w) !in c.ops.Values
    case Remove(o) => o in c.ops && c.ops[o].Removing?
    case Joined(o) => o in c.ops && c.ops[o].Closing?
  }

  function Perform(c: Cell, a: Action): Cell
    requires Enabled(c, a)
  {
    match a
    case OpenFound => c.(strong := c.strong[c.entry.value := c.strong[c.entry.value] + 1])
    case OpenMissing(o) => c.(ops := c.ops[o := Creating])
    case Created(o) =>
      var w := |c.strong|;
      c.(strong := c.strong + [1], running := c.running + {w}, ops := c.ops[o := Inserting(w)])
    case CreateFailed(o) => c.(ops := c.ops - {o})
    case Insert(o) => c.(entry := Some(c.ops[o].worker), ops := c.ops - {o})
    case DropShared(w) => c.(strong := c.strong[w := c.strong[w] - 1])
    case DropLast(o, w) => c.(strong := c.strong[w := 0], ops := c.ops[o := Removing(w)])
    case Remove(o) => c.(entry := None, ops := c.ops[o := Closing(c.ops[o].worker)])  // whichever worker is entered
    case Joined(o) => c.(running := c.running - {c.ops[o].worker}, ops := c.ops - {o})
  }

  function Reach(actions: seq<(Key, Action)>): Option<State> {
    if actions == [] then Some(map[])
    else match Reach(actions[..|actions| - 1])
      case None => None
      case Some(s) =>
        var (k, a) := actions[|actions| - 1];
        if Enabled(At(s, k), a) then Some(s[k := Perform(At(s, k), a)]) else None
  }

  /** A run in which an open that finds no live worker begins only when nothing is under way for its key. */
  predicate Orderly(actions: seq<(Key, Action)>)
    requires Reach(actions).Some?
  {
    actions == [] ||
    var front, (k, a) := actions[..|actions| - 1], actions[|actions| - 1];
    Orderly(front) && (a.OpenMissing? ==> At(Reach(front).value, k).ops == map[])
  }

  // ---------- operations as a whole ----------

  /** An open whose worker cannot be created leaves the key as it found it. */
  lemma {:induction false} FailedOpenLeavesNoTrace(c: Cell, o: nat)
    requires Enabled(c, OpenMissing(o))
    ensures var opening := Perform(c, OpenMissing(o));
            Enabled(opening, CreateFailed(o)) && Perform(opening, CreateFailed(o)) == c
  {
    assert c.ops[o := Creating] - {o} == c.ops;
  }

  /** One that goes through alone enters a new worker, which is alive and held once; and the last drop that follows it
      takes away its entry and stops it, and nothing else. */
  lemma {:induction false} OpenThenDrop(c: Cell, o: nat)
    requires Enabled(c, OpenMissing(o)) && |c.strong| !in c.running && Inserting(|c.strong|) !in c.ops.Values
    ensures var w, opening := |c.strong|, Perform(c, OpenMissing(o));
            var open := Perform(Perform(opening, Created(o)), Insert(o));
            && open == Cell(Some(w), c.strong + [1], c.running + {w}, c.ops) && Upgrades(open)
            && Enabled(open, DropLast(o, w))
            && var removed := Perform(Perform(open, DropLast(o, w)), Remove(o));
               && Enabled(removed, Joined(o))
               && Perform(removed, Joined(o)) == Cell(None, c.strong + [0], c.running, c.ops)
  {
    assert c.ops[o := Creating][o := Inserting(|c.strong|)] - {o} == c.ops;
    assert c.ops[o := Removing(|c.strong|)][o := Closing(|c.strong|)] - {o} == c.ops;
    assert c.running + {|c.strong|} - {|c.strong|} == c.running;
    assert (c.strong + [1])[|c.strong| := 0] == c.strong + [0];
  }

  /** Sharing a worker and dropping the share again changes nothing. */
  lemma {:induction false} ShareThenDrop(c: Cell)
    requires Enabled(c, OpenFound)
    ensures var shared := Perform(c, OpenFound);
            Enabled(shared, DropShared(c.entry.value)) && Perform(shared, DropShared(c.entry.value)) == c
  {
    var w := c.entry.value;
    assert c.strong[w := c.strong[w] + 1][w := c.strong[w]] == c.strong;
  }

  // ---------- coherence ----------

  /** What holds while one operation is under way. */
  predicate StageInv(c: Cell, stage: Stage) {
    match stage
    case Creating => c.entry.None? && c.running == {}
    case Inserting(w) => c.entry.None? && c.running == {w} && w < |c.strong| && c.strong[w] == 1
    case Removing(w) => c.entry == Some(w) && c.running == {w} && w < |c.strong| && c.strong[w] == 0
    case Closing(w) => c.entry.None? && c.running == {w} && w < |c.strong| && c.strong[w] == 0
  }

  predicate AtMostOneLive(c: Cell) {
    forall v, w :: v in c.running && w in c.running ==> v == w
  }

  predicate Inv(c: Cell) {
    && (forall w :: 0 <= w < |c.strong| && w !in c.running ==> c.strong[w] == 0)
    && (forall o, p :: o in c.ops && p in c.ops ==> o == p)
    && (forall o :: o in c.ops ==> StageInv(c, c.ops[o]))
    && (c.ops == map[] ==>
          if c.entry.Some? then Upgrades(c) && c.running == {c.entry.value} else c.running == {})
  }

  /** While anything is under way for a key no final drop can begin: nobody else holds its worker alone. */
  lemma {:induction false} NoFinalDropMeanwhile(c: Cell, o: nat, p: nat, w: nat)
    requires Inv(c)
    ensures o in c.ops ==> !Enabled(c, DropLast(p, w))
  {
  }

  lemma {:induction false} ActionKeepsInv(c: Cell, a: Action)
    requires Inv(c) && Enabled(c, a) && (a.OpenMissing? ==> c.ops == map[])
    ensures Inv(Perform(c, a))
  {
    if a.DropLast? {
      forall o: nat ensures o in c.ops ==> !Enabled(c, DropLast(a.op, a.worker)) {
        NoFinalDropMeanwhile(c, o, a.op, a.worker);
      }
    }
  }

  lemma {:induction false} OrderlyInv(actions: seq<(Key, Action)>, k: Key)
    requires Reach(actions).Some? && Orderly(actions)
    ensures Inv(At(Reach(actions).value, k))
  {
    if actions != [] {
      var front := actions[..|actions| - 1];
      OrderlyInv(front, k);
      if actions[|actions| - 1].0 == k {
        ActionKeepsInv(At(Reach(front).value, k), actions[|actions| - 1].1);
      }
    }
  }

  /** In every orderly run each key has at most one live worker, and while nothing is under way for it, its entry
      upgrades exactly when that worker is alive, to that worker, so that opening again shares it. */
  lemma {:induction false} RegistryIsCoherent(actions: seq<(Key, Action)>, k: Key)
    requires Reach(actions).Some? && Orderly(actions)
    ensures var c := At(Reach(actions).value, k);
            && AtMostOneLive(c)
            && (c.ops == map[] ==>
                  && (Upgrades(c) <==> c.running != {})
                  && (c.entry.Some? <==> Upgrades(c))
                  && (forall w :: w in c.running ==>
                        && w < |c.strong| && Enabled(c, OpenFound) && (forall o :: !Enabled(c, OpenMissing(o)))
                        && Perform(c, OpenFound) == c.(strong := c.strong[w := c.strong[w] + 1])))
  {
    OrderlyInv(actions, k);
    var c := At(Reach(actions).value, k);
    if o :| o in c.ops {
      assert StageInv(c, c.ops[o]);
    }
  }

  // ---------- what overlap does ----------

  /** One key on its own: the cell that the actions lead to. */
  function Continue(c: Cell, actions: seq<Action>): Option<Cell> {
    if actions == [] then Some(c)
    else match Continue(c, actions[..|actions| - 1])
      case None => None
      case Some(d) => if Enabled(d, actions[|actions| - 1]) then Some(Perform(d, actions[|actions| - 1])) else None
  }

  /** No further open that finds no live worker begins while anything is under way. */
  predicate OrderlyFrom(c: Cell, actions: seq<Action>)
    requires Continue(c, actions).Some?
  {
    actions == [] ||
    var front, a := actions[..|actions| - 1], actions[|actions| - 1];
    OrderlyFrom(c, front) && (a.OpenMissing? ==> Continue(c, front).value.ops == map[])
  }

  /** Every orderly continuation keeps at most one live worker. */
  ghost predicate Safe(c: Cell) {
    forall actions :: Continue(c, actions).Some? && OrderlyFrom(c, actions) ==>
                        AtMostOneLive(Continue(c, actions).value)
  }

  lemma {:induction false} ContinueStep(c: Cell, actions: seq<Action>, a: Action)
    ensures Continue(c, actions + [a]) ==
      match Continue(c, actions)
      case None => None
      case Some(d) => if Enabled(d, a) then Some(Perform(d, a)) else None
    ensures Continue(c, actions + [a]).Some? && OrderlyFrom(c, actions) && !a.OpenMissing? ==>
              OrderlyFrom(c, actions + [a])
  {
  }

  lemma {:induction false} OrderlyContinuationInv(c: Cell, actions: seq<Action>)
    requires Inv(c) && Continue(c, actions).Some? && OrderlyFrom(c, actions)
    ensures Inv(Continue(c, actions).value)
  {
    if actions != [] {
      var front := actions[..|actions| - 1];
      OrderlyContinuationInv(c, front);
      ActionKeepsInv(Continue(c, front).value, actions[|actions| - 1]);
    }
  }

  lemma {:induction false} InvMeansOneLive(c: Cell)
    requires Inv(c)
    ensures AtMostOneLive(c)
  {
  }

  /** An open that goes on to create a worker beside a live one. */
  lemma {:induction false} CreatedBeside(c: Cell, actions: seq<Action>, p: nat) returns (after: seq<Action>)
    requires Continue(c, actions).Some? && OrderlyFrom(c, actions)
    requires var d := Continue(c, actions).value;
             Enabled(d, Created(p)) && d.running != {} && forall w :: w in d.running ==> w < |d.strong|
    ensures Continue(c, after).Some? && OrderlyFrom(c, after) && !AtMostOneLive(Continue(c, after).value)
  {
    var d := Continue(c, actions).value;
    var v :| v in d.running;
    ContinueStep(c, actions, Created(p));
    after := actions + [Created(p)];
    assert Continue(c, after).value.running == d.running + {|d.strong|};
  }

  lemma {:induction false} FirstCreated(c: Cell, o: nat) returns (actions: seq<Action>)
    requires o in c.ops && c.ops[o].Creating? && c.running == {}
    ensures Continue(c, actions).Some? && OrderlyFrom(c, actions)
    ensures var w := |c.strong|;
            Continue(c, actions).value == c.(strong := c.strong + [1], running := {w}, ops := c.ops[o := Inserting(w)])
  {
    ContinueStep(c, [], Created(o));
    actions := [] + [Created(o)];
  }

  /** What is under way comes to its worker, and the open that found none creates another. */
  lemma {:induction false} TwoComeToLive(c: Cell, o: nat, p: nat) returns (actions: seq<Action>)
    requires Inv(c) && o in c.ops && Enabled(c, OpenMissing(p))
    ensures var d := Perform(c, OpenMissing(p));
            Continue(d, actions).Some? && OrderlyFrom(d, actions) && !AtMostOneLive(Continue(d, actions).value)
  {
    assert StageInv(c, c.ops[o]);
    var d := Perform(c, OpenMissing(p));
    actions := [];
    if c.ops[o].Creating? {
      actions := FirstCreated(d, o);
    }
    actions := CreatedBeside(d, actions, p);
  }

  /** An open that finds no live worker may go ahead safely if and only if nothing is under way for its key. */
  lemma {:induction false} CreatingOpenIsSafeIff(c: Cell, p: nat)
    requires Inv(c) && Enabled(c, OpenMissing(p))
    ensures Safe(Perform(c, OpenMissing(p))) <==> c.ops == map[]
  {
    var d := Perform(c, OpenMissing(p));
    if c.ops == map[] {
      ActionKeepsInv(c, OpenMissing(p));
      forall actions | Continue(d, actions).Some? && OrderlyFrom(d, actions)
        ensures AtMostOneLive(Continue(d, actions).value)
      {
        OrderlyContinuationInv(d, actions);
        InvMeansOneLive(Continue(d, actions).value);
      }
    } else {
      var o :| o in c.ops;
      var actions := TwoComeToLive(c, o, p);
    }
  }

  lemma {:induction false} ReachStep(actions: seq<(Key, Action)>, k: Key, a: Action)
    ensures Reach(actions + [(k, a)]) ==
      match Reach(actions)
      case None => None
      case Some(s) => if Enabled(At(s, k), a) then Some(s[k := Perform(At(s, k), a)]) else None
  {
  }

  /** A run on one key is a run of the registry. */
  lemma {:induction false} ReachOfContinue(k: Key, actions: seq<Action>)
    requires Continue(NO_CELL, actions).Some?
    ensures var all := seq(|actions|, i requires 0 <= i < |actions| => (k, actions[i]));
            Reach(all).Some? && At(Reach(all).value, k) == Continue(NO_CELL, actions).value
  {
    if actions != [] {
      var front, a := actions[..|actions| - 1], actions[|actions| - 1];
      ReachOfContinue(k, front);
      var before := seq(|front|, i requires 0 <= i < |front| => (k, front[i]));
      ReachStep(before, k, a);
      assert before + [(k, a)] == seq(|actions|, i requires 0 <= i < |actions| => (k, actions[i]));
    }
  }

  /** A run on one key, and what it leaves. */
  ghost predicate LeadsTo(k: Key, actions: seq<Action>, c: Cell) {
    var all := seq(|actions|, i requires 0 <= i < |actions| => (k, actions[i]));
    Reach(all).Some? && At(Reach(all).value, k) == c
  }

  const BOTH_LOOKED := [OpenMissing(0)] + [OpenMissing(1)]
  const BOTH_CREATED := BOTH_LOOKED + [Created(0)] + [Created(1)]

  lemma {:induction false} BothLooked()
    ensures Continue(NO_CELL, BOTH_LOOKED) == Some(Cell(None, [], {}, map[0 := Creating, 1 := Creating]))
  {
    ContinueStep(NO_CELL, [], OpenMissing(0));
    assert [] + [OpenMissing(0)] == [OpenMissing(0)];
    ContinueStep(NO_CELL, [OpenMissing(0)], OpenMissing(1));
    assert map[0 := Creating][1 := Creating] == map[0 := Creating, 1 := Creating];
  }

  /** Two opens whose lookups both precede the inserts: two live workers on one key. */
  lemma {:induction false} OverlappingOpensBreakUniqueness(k: Key)
    ensures LeadsTo(k, BOTH_CREATED, Cell(None, [1, 1], {0, 1}, map[0 := Inserting(0), 1 := Inserting(1)]))
  {
    BothLooked();
    ContinueStep(NO_CELL, BOTH_LOOKED, Created(0));
    var c := Cell(None, [1], {0}, map[0 := Inserting(0), 1 := Creating]);
    assert Continue(NO_CELL, BOTH_LOOKED + [Created(0)]).value == c;
    ContinueStep(NO_CELL, BOTH_LOOKED + [Created(0)], Created(1));
    assert Perform(c, Created(1)) == Cell(None, [1, 1], {0, 1}, map[0 := Inserting(0), 1 := Inserting(1)]);
    ReachOfContinue(k, BOTH_CREATED);
  }

  /** One open from lookup to insert, with nothing else happening to its key. */
  lemma {:induction false} WholeOpen(c: Cell, actions: seq<Action>, p: nat) returns (after: seq<Action>)
    requires Continue(c, actions).Some? && Enabled(Continue(c, actions).value, OpenMissing(p))
    ensures var d := Continue(c, actions).value;
            var w := |d.strong|;
            Continue(c, after) == Some(Cell(Some(w), d.strong + [1], d.running + {w}, d.ops))
    ensures after == actions + [OpenMissing(p), Created(p), Insert(p)]
  {
    var d := Continue(c, actions).value;
    ContinueStep(c, actions, OpenMissing(p));
    ContinueStep(c, actions + [OpenMissing(p)], Created(p));
    ContinueStep(c, actions + [OpenMissing(p)] + [Created(p)], Insert(p));
    after := actions + [OpenMissing(p), Created(p), Insert(p)];
    assert after == actions + [OpenMissing(p)] + [Created(p)] + [Insert(p)];
    assert Continue(c, after).value.ops == d.ops;
  }

  const LAST_DROPPED := [OpenMissing(0), Created(0), Insert(0), DropLast(0, 0)]
  const OPENED_AGAIN := LAST_DROPPED + [OpenMissing(1), Created(1), Insert(1)]
  const ENTRY_LOST := OPENED_AGAIN + [Remove(0)]

  lemma {:induction false} LastDropped()
    ensures Continue(NO_CELL, LAST_DROPPED) == Some(Cell(Some(0), [0], {0}, map[0 := Removing(0)]))
  {
    var first := WholeOpen(NO_CELL, [], 0);
    assert Continue(NO_CELL, first).value == Cell(Some(0), [1], {0}, map[]);
    ContinueStep(NO_CELL, first, DropLast(0, 0));
    assert [1][0 := 0] == [0];
    assert LAST_DROPPED == first + [DropLast(0, 0)];
  }

  lemma {:induction false} OpenedAgain()
    ensures Continue(NO_CELL, OPENED_AGAIN) == Some(Cell(Some(1), [0, 1], {0, 1}, map[0 := Removing(0)]))
  {
    LastDropped();
    var again := WholeOpen(NO_CELL, LAST_DROPPED, 1);
    assert [0] + [1] == [0, 1] && {0} + {1} == {0, 1};
  }

  /** A final drop that reaches the registry after a whole new open of its key removes the new worker's entry: two
      workers are alive, and the next open of the key finds neither. */
  lemma {:induction false} OverlappingDropLosesTheEntry(k: Key)
    ensures LeadsTo(k, ENTRY_LOST, Cell(None, [0, 1], {0, 1}, map[0 := Closing(0)]))
    ensures Enabled(Cell(None, [0, 1], {0, 1}, map[0 := Closing(0)]), OpenMissing(2))
  {
    OpenedAgain();
    ContinueStep(NO_CELL, OPENED_AGAIN, Remove(0));
    assert map[0 := Removing(0)][0 := Closing(0)] == map[0 := Closing(0)];
    ReachOfContinue(k, ENTRY_LOST);
  }
}
