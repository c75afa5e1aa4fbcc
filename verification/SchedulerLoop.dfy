/** `Scheduler::run` as it changes its fields, proved to take the steps of the protocol in `Runtime`.
    The locks make each method one step. */
module SchedulerLoop {
  import opened Bytes
  import opened EventTable
  import opened Runtime

  function CbFiberOf(cbFiber: map<nat, Option<nat>>, w: nat): Option<nat> {
    if w in cbFiber then cbFiber[w] else None
  }

  /** The callback fibres on record are those of the protocol's workers. */
  ghost predicate SameCbFibers(cbFiber: map<nat, Option<nat>>, workers: map<nat, Worker>) {
    forall w: nat :: CbFiberOf(cbFiber, w) == if w in workers then workers[w].cbFiber else None
  }

  lemma CbFiberChanges(cbFiber: map<nat, Option<nat>>, workers: map<nat, Worker>, w: nat, k: Worker)
    requires SameCbFibers(cbFiber, workers)
    ensures SameCbFibers(cbFiber[w := k.cbFiber], workers[w := k])
    ensures CbFiberOf(cbFiber, w) == k.cbFiber ==> SameCbFibers(cbFiber, workers[w := k])
    ensures CbFiberOf(cbFiber, w) == if w in workers then workers[w].cbFiber else None
  {
    assert CbFiberOf(cbFiber, w) == if w in workers then workers[w].cbFiber else None;
  }

  /** What a yield does to the scheduler's own fields. */
  ghost predicate Left(s: State, s': State, w: nat, how: YieldKind)
    requires s.W(w).cur.Some?
  {
    var k := s.W(w);
    var f := k.cur.value;
    && s'.active == s.active - 1
    && s'.queue == s.queue + (if how == ToReady then [Entry(Fib(f), -1)] else [])
    && s'.fibers == s.fibers[f := LeftAs(how, k.viaCb)]
    && s'.workers == s.workers[w := Worker(None, false, Kept(k, f, how))]
  }

  /** The callback fibre the worker keeps. */
  function Kept(k: Worker, f: nat, how: YieldKind): Option<nat> {
    if !k.viaCb then k.cbFiber else if how == Return || how == Throw then Some(f) else None
  }

  lemma YieldLeaves(s: State, w: nat, how: YieldKind)
    requires s.W(w).cur.Some? && (how == ToHold <==> s.W(w).cur.value in s.announced)
    ensures Next(s, Yield(w, how)).Some? && Left(s, Next(s, Yield(w, how)).value, w, how)
  {
    hide Left;
    assert Next(s, Yield(w, how)) == Some(Yielded(s, w, how));
    if how == ToReady || how == ToHold {
      PauseLeaves(s, w, how);
    } else {
      EndLeaves(s, w, how);
    }
  }

  lemma PauseLeaves(s: State, w: nat, how: YieldKind)
    requires s.W(w).cur.Some? && (how == ToReady || how == ToHold)
    ensures Left(s, Yielded(s, w, how), w, how)
  {
    assert s.queue + [] == s.queue;
  }

  lemma EndLeaves(s: State, w: nat, how: YieldKind)
    requires s.W(w).cur.Some? && (how == Return || how == Throw)
    ensures Left(s, Yielded(s, w, how), w, how)
  {
    var st := if how == Return then TERM else EXCEPT;
    EndsInYield(s, Yielded(s, w, how), w, st);
    hide Yielded;
    assert s.queue + [] == s.queue;
  }

  /** The state in which a fibre is left: a finished callback fibre is ready for another callback. */
  function LeftAs(how: YieldKind, viaCb: bool): FiberState {
    match how
    case ToReady => READY
    case ToHold => HOLD
    case Return => if viaCb then INIT else TERM
    case Throw => if viaCb then INIT else EXCEPT
  }

  /** Eligible are the entries for any thread or this one whose fibre, if they have one, is not running. */
  lemma EligibleIs(s: State, e: Entry, me: nat)
    ensures Eligible(s, e, me) <==>
            e.thread in {-1, me as int} && (e.task.Fib? && e.task.id in s.fibers ==> s.fibers[e.task.id] != EXEC)
  {
  }

  /** How a round of `run` goes on. */
  datatype Round = Runs(fiber: nat, viaCb: bool) | Drops | Idles | Stops

  /** What the worker does with the entry it took: a fibre that has ended is dropped and any other one runs,
      and a callback runs on the fibre `g`, which is the worker's callback fibre if it has one. */
  ghost predicate Took(e: Entry, before: map<nat, FiberState>, after: map<nat, FiberState>, g: nat, round: Round) {
    match e.task
    case Fib(f) =>
      if f in before && before[f] != TERM && before[f] != EXCEPT
      then round == Runs(f, false) && after == before[f := EXEC]
      else round == Drops && after == before
    case Cb(_) => round == Runs(g, true) && after == before[g := EXEC]
  }

  class Scheduler {
    /** `m_state` of every fibre. */
    var state: map<nat, FiberState>
    /** `m_fibers`. */
    var fibers: seq<Entry>
    /** `m_activeThreadCount`. */
    var activeThreadCount: int
    /** `cb_fiber` of every worker thread. */
    var cbFiber: map<nat, Option<nat>>
    /** The protocol state, whose queue, counter and fibre states are the fields above. */
    ghost var model: State

    /** `m_idleThreadCount`, and the state of every worker's idle fibre, which is new if not yet run. */
    var idleThreadCount: int
    var idleState: map<nat, FiberState>
    /** The workers inside their idle fibre. */
    ghost var idling: set<nat>

    function IdleOf(w: nat): FiberState
      reads `idleState
    {
      if w in idleState then idleState[w] else INIT
    }

    /** The counter is the number of idle workers, and exactly their idle fibres are running. */
    ghost predicate IdleOk()
      reads `idleThreadCount, `idleState, `idling
    {
      idleThreadCount == |idling| && forall w: nat :: w in idling <==> IdleOf(w) == EXEC
    }

    ghost predicate Valid()
      reads `state, `fibers, `activeThreadCount, `cbFiber, `model
    {
      Agrees() && Inv(model)
    }

    ghost predicate Agrees()
      reads `state, `fibers, `activeThreadCount, `cbFiber, `model
    {
      && state == model.fibers && fibers == model.queue && activeThreadCount == model.active
      && SameCbFibers(cbFiber, model.workers)
    }

    function StateOf(f: nat): FiberState
      reads `state
    {
      if f in state then state[f] else TERM
    }

    constructor (ghost initial: State)
      requires Initial(initial)
      ensures Valid() && IdleOk() && model == initial && idling == {}
    {
      state, fibers, activeThreadCount, cbFiber := map[], [], 0, map[];
      idleThreadCount, idleState, idling := 0, map[], {};
      model := initial;
      new;
      InitialIsInv(initial);
      forall w: nat
        ensures CbFiberOf(cbFiber, w) == if w in initial.workers then initial.workers[w].cbFiber else None
      {
        assert initial.W(w) == Worker(None, false, None);
      }
    }

    /** The task is not yet known to the scheduler. */
    ghost predicate IsNew(x: Task)
      reads this
    {
      if x.Fib? then x.id !in state else x.id !in model.jobs
    }

    /** `schedule`: push the task; true if the queue was empty, so that a worker must be woken. Of a new
        task this is the protocol's step. Scheduling a known one again is left to its callers: the
        runtime does it only where a wake-up is due. */
    method Schedule(x: Task, thread: int) returns (needTickle: bool)
      requires Valid()
      modifies `state, `fibers, `activeThreadCount, `cbFiber, `model
      ensures Agrees() && needTickle == (old(fibers) == []) && fibers == old(fibers) + [Entry(x, thread)]
      ensures old(IsNew(x)) ==>
                Valid() && Next(old(model), if x.Fib? then Spawn(x.id, thread) else Post(x.id, thread)) == Some(model)
      ensures !old(IsNew(x)) ==> model == Push(old(model), x, thread)
    {
      hide Inv;
      ghost var step := if x.Fib? then Spawn(x.id, thread) else Post(x.id, thread);
      needTickle := fibers == [];
      ghost var isNew := IsNew(x);
      if x.Fib? && x.id !in state { state := state[x.id := INIT]; }
      fibers := fibers + [Entry(x, thread)];
      model := if isNew then Next(model, step).value else Push(model, x, thread);
      if isNew { NextInv(old(model), step, model); }
    }

    /** The scan of the queue: the first entry that is not pinned to another thread and does not hold a
        fibre that is still running. */
    method Scan(me: nat) returns (i: nat, tickle: bool)
      ensures i <= |fibers| && (i < |fibers| ==> fibers[i].thread in {-1, me as int})
      ensures i < |fibers| && fibers[i].task.Fib? && fibers[i].task.id in state ==> state[fibers[i].task.id] != EXEC
      ensures forall k :: 0 <= k < i ==>
                || fibers[k].thread !in {-1, me as int}
                || (fibers[k].task.Fib? && fibers[k].task.id in state && state[fibers[k].task.id] == EXEC)
      ensures tickle <==> i + 1 < |fibers| || exists k :: 0 <= k < i && fibers[k].thread !in {-1, me as int}
    {
      i, tickle := 0, false;
      while i < |fibers|
        invariant i <= |fibers|
        invariant forall k :: 0 <= k < i ==>
                    || fibers[k].thread !in {-1, me as int}
                    || (fibers[k].task.Fib? && fibers[k].task.id in state && state[fibers[k].task.id] == EXEC)
        invariant tickle <==> exists k :: 0 <= k < i && fibers[k].thread !in {-1, me as int}
      {
        var it := fibers[i];
        if it.thread != -1 && it.thread != me {
          tickle := true;
          i := i + 1;
          continue;
        }
        if it.task.Fib? && StateOf(it.task.id) == EXEC {
          i := i + 1;
          continue;
        }
        break;
      }
      tickle := tickle || i + 1 < |fibers|;
    }

    /** One round of `run` up to its switch: into the fibre of a task, into the idle fibre when there is
        nothing to do, or out of the loop when the idle fibre has ended; a finished task is only
        dropped. `spare` is the identity a new callback fibre would get. A worker idles only if every
        entry is pinned to another thread or holds a running fibre. */
    method RunOnce(me: nat, spare: nat) returns (i: nat, round: Round, tickle: bool)
      requires Valid() && IdleOk() && model.W(me).cur.None? && me !in idling && spare !in state
      modifies this
      ensures Valid() && IdleOk() && i <= |old(fibers)|
      ensures forall k :: 0 <= k < i ==>
                var e := old(fibers)[k];
                || e.thread !in {-1, me as int}
                || (e.task.Fib? && e.task.id in old(state) && old(state)[e.task.id] == EXEC)
      ensures i < |old(fibers)| ==>
                var e := old(fibers)[i];
                && e.thread in {-1, me as int}
                && (e.task.Fib? && e.task.id in old(state) ==> old(state)[e.task.id] != EXEC)
      ensures i < |old(fibers)| ==>
                Took(old(fibers)[i], old(state), state, CbFiberOf(old(cbFiber), me).GetOr(spare), round)
                && fibers == old(fibers)[..i] + old(fibers)[i + 1..]
      ensures activeThreadCount == old(activeThreadCount) + if round.Runs? then 1 else 0
      ensures i == |old(fibers)| ==> model == old(model) && round == if old(IdleOf(me)) == TERM then Stops else Idles
      ensures i < |old(fibers)| ==> Next(old(model), Dequeue(me, i, spare)) == Some(model)
      ensures i < |old(fibers)| ==> round.Runs? || round.Drops?
      ensures model.W(me).cur == if round.Runs? then Some(round.fiber) else None
      ensures round.Runs? ==> round.viaCb == model.W(me).viaCb
      ensures idling == old(idling) + if round.Idles? then {me} else {}
      ensures tickle <==> i + 1 < |old(fibers)| || exists k :: 0 <= k < i && old(fibers)[k].thread !in {-1, me as int}
    {
      hide Next, Scheduler.IdleOk, Scheduler.Valid, Took;
      i, tickle := Scan(me);
      if i == |fibers| {
        round := Idle(me);
        return;
      }
      round := TakeEntry(me, i, spare);
    }

    /** The branch without a task. */
    method Idle(me: nat) returns (round: Round)
      requires IdleOk() && me !in idling
      modifies `idleThreadCount, `idleState, `idling
      ensures IdleOk() && round == if old(IdleOf(me)) == TERM then Stops else Idles
      ensures idling == old(idling) + if round.Idles? then {me} else {}
    {
      if IdleOf(me) == TERM { return Stops; }
      assert IdleOf(me) != EXEC;
      idleThreadCount := idleThreadCount + 1;
      idleState := idleState[me := EXEC];
      idling := idling + {me};
      round := Idles;
      assert forall w: nat :: w != me ==> IdleOf(w) == old(IdleOf(w));
    }

    /** The idle fibre has switched back in the given state. */
    method IdleBack(me: nat, left: FiberState)
      requires IdleOk() && me in idling
      modifies `idleThreadCount, `idleState, `idling
      ensures IdleOk() && idling == old(idling) - {me}
      ensures IdleOf(me) == if left == TERM || left == EXCEPT then left else HOLD
      ensures forall w: nat :: w != me ==> IdleOf(w) == old(IdleOf(w))
    {
      idleThreadCount := idleThreadCount - 1;
      idleState := idleState[me := if left == TERM || left == EXCEPT then left else HOLD];
      idling := idling - {me};
      assert forall w: nat :: w != me ==> IdleOf(w) == old(IdleOf(w));
    }

    /** The branch with a task. No assertion of `reset` or `swapIn` fails. */
    method TakeEntry(me: nat, i: nat, spare: nat) returns (round: Round)
      requires Valid() && model.W(me).cur.None? && spare !in state && i < |fibers|
      requires var e := fibers[i];
               e.thread in {-1, me as int} && (e.task.Fib? && e.task.id in state ==> state[e.task.id] != EXEC)
      modifies `state, `fibers, `activeThreadCount, `cbFiber, `model
      ensures Valid() && Next(old(model), Dequeue(me, i, spare)) == Some(model)
      ensures round.Runs? || round.Drops?
      ensures model.W(me).cur == if round.Runs? then Some(round.fiber) else None
      ensures round.Runs? ==> round.viaCb == model.W(me).viaCb
      ensures Took(old(fibers)[i], old(state), state, CbFiberOf(old(cbFiber), me).GetOr(spare), round)
      ensures fibers == old(fibers)[..i] + old(fibers)[i + 1..]
      ensures activeThreadCount == old(activeThreadCount) + if round.Runs? then 1 else 0
    {
      hide Inv, Next, Eligible, SameCbFibers, Took;
      EligibleIs(model, fibers[i], me);
      DequeueIsSafe(model, me, i, spare);
      round := SwitchIn(me, i, spare);
      NextInv(old(model), Dequeue(me, i, spare), model);
    }

    /** Take entry `i` out of the queue and make its task the running one. */
    method SwitchIn(me: nat, i: nat, spare: nat) returns (round: Round)
      requires Agrees() && model.W(me).cur.None? && i < |fibers| && Next(model, Dequeue(me, i, spare)).Some?
      modifies `state, `fibers, `activeThreadCount, `cbFiber, `model
      ensures Agrees() && Next(old(model), Dequeue(me, i, spare)) == Some(model)
      ensures round.Runs? || round.Drops?
      ensures model.W(me).cur == if round.Runs? then Some(round.fiber) else None
      ensures round.Runs? ==> round.viaCb == model.W(me).viaCb
      ensures Took(old(fibers)[i], old(state), state, CbFiberOf(old(cbFiber), me).GetOr(spare), round)
      ensures fibers == old(fibers)[..i] + old(fibers)[i + 1..]
      ensures activeThreadCount == old(activeThreadCount) + if round.Runs? then 1 else 0
    {
      hide SameCbFibers;
      ghost var next := Next(model, Dequeue(me, i, spare)).value;
      CbFiberChanges(cbFiber, model.workers, me, next.W(me));
      var ft := fibers[i];
      fibers := fibers[..i] + fibers[i + 1..];
      activeThreadCount := activeThreadCount + 1;
      round := Drops;
      if ft.task.Fib? && StateOf(ft.task.id) != TERM && StateOf(ft.task.id) != EXCEPT {
        round := Runs(ft.task.id, false);
        state := state[ft.task.id := EXEC];
      } else if ft.task.Cb? {
        var g := if CbFiberOf(cbFiber, me).Some? then CbFiberOf(cbFiber, me).value else spare;
        assert CbFiberOf(cbFiber, me).Some? ==> StateOf(g) in {TERM, EXCEPT, INIT};
        cbFiber := cbFiber[me := Some(g)];
        round := Runs(g, true);
        state := state[g := EXEC];
      } else {
        activeThreadCount := activeThreadCount - 1;
      }
      model := next;
    }

    /** What the worker does when fibre `f` has switched back: a fibre that is READY is scheduled
        again, a finished callback fibre is reset for the next callback, any other is parked. */
    method SwitchedBack(me: nat, f: nat, viaCb: bool, how: YieldKind)
      requires Valid() && model.W(me).cur == Some(f) && model.W(me).viaCb == viaCb
      requires how == ToHold <==> f in model.announced
      modifies `state, `fibers, `activeThreadCount, `cbFiber, `model
      ensures Valid() && Next(old(model), Yield(me, how)) == Some(model)
      ensures activeThreadCount == old(activeThreadCount) - 1
      ensures fibers == old(fibers) + if how == ToReady then [Entry(Fib(f), -1)] else []
      ensures state == old(state)[f := match how
                                       case ToReady => READY
                                       case ToHold => HOLD
                                       case Return => if viaCb then INIT else TERM
                                       case Throw => if viaCb then INIT else EXCEPT]
      ensures cbFiber == if viaCb && (how == ToReady || how == ToHold) then old(cbFiber)[me := None] else old(cbFiber)
    {
      assert WorkerOk(model, me);
      hide Inv, Next;
      SwitchOut(me, f, viaCb, how);
      NextInv(old(model), Yield(me, how), model);
    }

    method SwitchOut(me: nat, f: nat, viaCb: bool, how: YieldKind)
      requires Agrees() && model.W(me).cur == Some(f) && model.W(me).viaCb == viaCb
      requires viaCb ==> model.W(me).cbFiber == Some(f)
      requires how == ToHold <==> f in model.announced
      modifies `state, `fibers, `activeThreadCount, `cbFiber, `model
      ensures Agrees() && Next(old(model), Yield(me, how)) == Some(model)
      ensures activeThreadCount == old(activeThreadCount) - 1
      ensures fibers == old(fibers) + if how == ToReady then [Entry(Fib(f), -1)] else []
      ensures state == old(state)[f := match how
                                       case ToReady => READY
                                       case ToHold => HOLD
                                       case Return => if viaCb then INIT else TERM
                                       case Throw => if viaCb then INIT else EXCEPT]
      ensures cbFiber == if viaCb && (how == ToReady || how == ToHold) then old(cbFiber)[me := None] else old(cbFiber)
    {
      hide SameCbFibers, CbFiberOf, Next;
      ghost var was := model;
      var left := match how case ToReady => READY case ToHold => HOLD case Return => TERM case Throw => EXCEPT;
      activeThreadCount := activeThreadCount - 1;
      if left == READY {
        fibers := fibers + [Entry(Fib(f), -1)];
        if viaCb { cbFiber := cbFiber[me := None]; }
      } else if left == TERM || left == EXCEPT {
        if viaCb { left := INIT; }
      } else {
        left := HOLD;
        if viaCb { cbFiber := cbFiber[me := None]; }
      }
      state := state[f := left];
      YieldLeaves(was, me, how);
      model := Next(was, Yield(me, how)).value;
      LeftAgrees(was, model, me, how, old(cbFiber), cbFiber);
    }
  }

  lemma LeftAgrees(s: State, s': State, w: nat, how: YieldKind,
                   before: map<nat, Option<nat>>, after: map<nat, Option<nat>>)
    requires s.W(w).cur.Some? && Left(s, s', w, how) && SameCbFibers(before, s.workers)
    requires s.W(w).viaCb ==> s.W(w).cbFiber == s.W(w).cur
    requires after == if s.W(w).viaCb && (how == ToReady || how == ToHold) then before[w := None] else before
    ensures SameCbFibers(after, s'.workers)
  {
    hide SameCbFibers;
    CbFiberChanges(before, s.workers, w, s'.W(w));
  }
}
