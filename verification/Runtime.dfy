/** The fibre runtime as a protocol: the scheduler's queue and workers, the fibres, the event table
    and the clients that wait on it, as one state and its steps. A step is one critical section
    of the source, with dequeue+resume and yield+bookkeeping each taken as a single step. */
module Runtime {
  import opened Bytes
  import opened EventTable

  /** `Fiber::State`. */
  datatype FiberState = INIT | HOLD | EXEC | TERM | READY | EXCEPT

  /** `FiberAndThread`: a task and the thread it is pinned to, -1 for any. */
  datatype Entry = Entry(task: Task, thread: int)

  /** One iteration of `Scheduler::run`: the fibre it is running, whether that is its callback
      fibre, and the reusable callback fibre. */
  datatype Worker = Worker(cur: Option<nat>, viaCb: bool, cbFiber: Option<nat>)

  /** Where an accepted callback is: not started, carried by a fibre, or finished. */
  datatype JobPlace = Pending | Carried(carrier: nat) | Finished

  /** `fibers`, `queue`, `workers`, `active` and `table` are the source's, and `asleep` has the fibres
      with a timer of `sleep` or `usleep`. The rest is bookkeeping for the proofs: fibres that
      registered their next wake-up, tasks whose waiter was deleted, the worker that runs or owns a
      fibre, what became of each callback, and all waits and wake-ups so far. */
  datatype State = State(
    fibers: map<nat, FiberState>, queue: seq<Entry>, workers: map<nat, Worker>, active: int, table: Table,
    asleep: set<nat>, announced: set<nat>, dropped: set<Task>, host: map<nat, nat>, owner: map<nat, nat>,
    jobs: map<nat, JobPlace>, job: map<nat, nat>, waits: multiset<Task>, wakes: multiset<Task>)
  {
    function St(f: nat): FiberState { if f in fibers then fibers[f] else TERM }
    function W(w: nat): Worker { if w in workers then workers[w] else Worker(None, false, None) }

    /** The pending wake-ups of a task: its queue entries, the waiter slots that hold it and its timer. */
    function Wakeups(x: Task): nat {
      QueueCount(queue, x) + SlotCount(table.ctxs, x) + One(x.Fib? && x.id in asleep)
    }

    /** The same, counting the wake-up that a deleted waiter will never get. */
    function Tokens(x: Task): (n: nat)
      ensures n == Wakeups(x) + One(x in dropped)
    {
      QueueCount(queue, x) + SlotCount(table.ctxs, x) + One(x.Fib? && x.id in asleep) + One(x in dropped)
    }

    predicate IsRunning(f: nat) { f in host && W(host[f]).cur == Some(f) }
    predicate IsIdle(f: nat) { f in owner && W(owner[f]).cbFiber == Some(f) && W(owner[f]).cur != Some(f) }
  }

  function One(b: bool): nat { if b then 1 else 0 }

  function QueueCount(q: seq<Entry>, x: Task): nat {
    if q == [] then 0 else QueueCount(q[..|q| - 1], x) + One(q[|q| - 1].task == x)
  }

  function Hits(fc: FdContext, es: set<Event>, x: Task): nat {
    One(READ in es && fc.read.Waiter() == Some(x)) + One(WRITE in es && fc.write.Waiter() == Some(x))
  }

  const BOTH := {READ, WRITE}

  function SlotCount(ctxs: seq<FdContext>, x: Task): nat {
    if ctxs == [] then 0 else SlotCount(ctxs[..|ctxs| - 1], x) + Hits(ctxs[|ctxs| - 1], BOTH, x)
  }

  /** Each fibre has exactly the wake-ups its state needs. */
  predicate FiberOk(s: State, f: nat) {
    var n := s.Tokens(Fib(f));
    (f in s.owner ==> s.St(f) == INIT) &&
    match s.St(f)
    case EXEC => s.IsRunning(f) && n == if f in s.announced then 1 else 0
    case HOLD => f in s.announced && n == 1
    case READY => f !in s.announced && n == 1
    case INIT => f !in s.announced && if f in s.owner then s.IsIdle(f) && n == 0 else n == 1
    case TERM => f !in s.announced && n == 0
    case EXCEPT => f !in s.announced && n == 0
  }

  predicate WorkerOk(s: State, w: nat) {
    var k := s.W(w);
    && (k.cur.Some? ==> s.St(k.cur.value) == EXEC && k.cur.value in s.host && s.host[k.cur.value] == w)
    && (k.viaCb ==> k.cur.Some? && k.cbFiber == k.cur)
    && (k.cbFiber.Some? && !k.viaCb ==>
          s.St(k.cbFiber.value) == INIT && k.cbFiber.value in s.owner && s.owner[k.cbFiber.value] == w)
  }

  predicate JobOk(s: State, c: nat) {
    s.Tokens(Cb(c)) == if c in s.jobs && s.jobs[c].Pending? then 1 else 0
  }

  /** A callback in progress is carried by one live fibre, and by it alone. */
  predicate CarrierOk(s: State, c: nat) {
    c in s.jobs && s.jobs[c].Carried? ==>
      var f := s.jobs[c].carrier;
      f in s.job && s.job[f] == c && s.St(f) in {EXEC, HOLD, READY}
  }

  /** Every wait ever registered has been scheduled once, was deleted or still sits in its slot, and a
      fibre with an unanswered wait has not run on since. */
  predicate WaitsOk(s: State, x: Task) {
    && s.waits[x] == s.wakes[x] + SlotCount(s.table.ctxs, x) + One(x in s.dropped)
    && (x.Fib? && s.waits[x] > s.wakes[x] ==> x.id in s.announced)
  }

  ghost predicate Inv(s: State) {
    && s.table.Inv()
    && (forall f: nat :: FiberOk(s, f))
    && (forall w: nat :: WorkerOk(s, w))
    && (forall c: nat :: JobOk(s, c))
    && (forall c: nat :: CarrierOk(s, c))
    && (forall f :: f in s.job ==> s.job[f] in s.jobs && s.jobs[s.job[f]] == Carried(f))
    && s.active == |Running(s.workers)|
    && (forall x: Task :: WaitsOk(s, x))
  }

  function Running(workers: map<nat, Worker>): set<nat> {
    set w | w in workers && workers[w].cur.Some?
  }

  // ----- the queue scan of `Scheduler::run`

  /** The scan skips entries pinned to another thread and entries whose fibre is still running. */
  predicate Eligible(s: State, e: Entry, me: nat) {
    (e.thread == -1 || e.thread == me) && !(e.task.Fib? && s.St(e.task.id) == EXEC)
  }

  // ----- steps

  datatype YieldKind = ToReady | ToHold | Return | Throw

  datatype Step =
    | Spawn(f: nat, thread: int)
    | Post(c: nat, thread: int)
    | Dequeue(w: nat, i: nat, newId: nat)
    | Yield(w: nat, how: YieldKind)
    | Wait(w: nat, fd: nat, e: Event)
    | Watch(c: nat, fd: nat, e: Event)
    | SwitchTo(w: nat, thread: int)
    | Sleep(w: nat)
    | Rouse(f: nat)
    | Delete(fd: nat, e: Event)
    | Cancel(fd: nat, e: Event)
    | CancelAll(fd: nat)
    | Ready(fd: nat, report: Report)

  function Push(s: State, x: Task, thread: int): State { s.(queue := s.queue + [Entry(x, thread)]) }

  function Entries(tasks: seq<Task>): seq<Entry> { seq(|tasks|, i requires 0 <= i < |tasks| => Entry(tasks[i], -1)) }

  /** A fibre leaves the scheduler for good; the callback it carried, if any, is finished. */
  function Finish(s: State, f: nat, end: FiberState): State {
    var s1 := s.(fibers := s.fibers[f := end], host := s.host - {f});
    if f in s.job then s1.(jobs := s.jobs[s.job[f] := Finished], job := s.job - {f}) else s1
  }

  /** A trigger moves waiters from their slots to the queue. */
  function Triggered(s: State, fd: nat, es: set<Event>, spare: set<Event>): State
    requires fd < |s.table.ctxs|
  {
    var tasks := s.table.ctxs[fd].Waiters(es);
    s.(table := s.table.Removed(fd, es, spare), queue := s.queue + Entries(tasks), wakes := s.wakes + multiset(tasks))
  }

  /** `delEvent` forgets the waiter. */
  function Deleted(s: State, fd: nat, e: Event): State
    requires fd < |s.table.ctxs|
  {
    s.(table := s.table.Removed(fd, {e}, {READ}), dropped := s.dropped + set x | x in s.table.ctxs[fd].Waiters({e}))
  }

  function Next(s: State, step: Step): Option<State> {
    match step
    case Spawn(f, thread) =>
      if f in s.fibers then None
      else Some(Push(s.(fibers := s.fibers[f := INIT]), Fib(f), thread))
    case Post(c, thread) =>
      if c in s.jobs then None else Some(Push(s.(jobs := s.jobs[c := Pending]), Cb(c), thread))
    case Dequeue(w, i, newId) =>
      if i < |s.queue| && Eligible(s, s.queue[i], w) && s.W(w).cur.None? then Resumed(s, w, i, newId) else None
    case Yield(w, how) =>
      if s.W(w).cur.Some? && (how == ToHold <==> s.W(w).cur.value in s.announced) then Some(Yielded(s, w, how))
      else None
    case Wait(w, fd, e) =>
      var t := s.table.Grown(fd);
      if s.W(w).cur.Some? && s.W(w).cur.value !in s.announced && e !in s.table.Events(fd) && fd < |t.ctxs| then
        var f := s.W(w).cur.value;
        Some(s.(table := t.Added(fd, e, Fib(f)), announced := s.announced + {f}, waits := s.waits + multiset{Fib(f)}))
      else None
    case Watch(c, fd, e) =>
      var t := s.table.Grown(fd);
      if c !in s.jobs && e !in s.table.Events(fd) && fd < |t.ctxs| then
        Some(s.(table := t.Added(fd, e, Cb(c)), jobs := s.jobs[c := Pending], waits := s.waits + multiset{Cb(c)}))
      else None
    case SwitchTo(w, thread) =>
      if s.W(w).cur.Some? && s.W(w).cur.value !in s.announced && thread !in {-1, w as int} then
        var f := s.W(w).cur.value;
        Some(Push(s.(announced := s.announced + {f}), Fib(f), thread))
      else None
    case Sleep(w) =>
      if s.W(w).cur.Some? && s.W(w).cur.value !in s.announced then
        var f := s.W(w).cur.value;
        Some(s.(announced := s.announced + {f}, asleep := s.asleep + {f}))
      else None
    case Rouse(f) =>
      if f in s.asleep then Some(Push(s.(asleep := s.asleep - {f}), Fib(f), -1)) else None
    case Delete(fd, e) =>
      if e in s.table.Events(fd) then Some(Deleted(s, fd, e)) else None
    case Cancel(fd, e) =>
      if e in s.table.Events(fd) then Some(Triggered(s, fd, {e}, {READ})) else None
    case CancelAll(fd) =>
      if s.table.Events(fd) != {} then Some(Triggered(s, fd, s.table.Events(fd), {})) else None
    case Ready(fd, report) =>
      var hit := RealEvents(report, s.table.Events(fd));
      if ReadyResult(s.table.Events(fd), hit, false).Fired? then Some(Triggered(s, fd, hit, {})) else None
  }

  /** Lines 153-184: erase the entry, count the worker active and switch to the fibre; a callback
      runs on the worker's reusable fibre. `None` is a failing assertion of `Fiber::reset`. */
  function Resumed(s: State, w: nat, i: nat, newId: nat): Option<State>
    requires i < |s.queue|
  {
    var x := s.queue[i].task;
    var s1 := s.(queue := s.queue[..i] + s.queue[i + 1..]);
    match x
    case Fib(f) =>
      if s.St(f) in {TERM, EXCEPT} then Some(s1)
      else Some(SwappedIn(s1, w, f, false))
    case Cb(c) =>
      var g := if s.W(w).cbFiber.Some? then s.W(w).cbFiber.value else newId;
      if s.W(w).cbFiber.Some? && s.St(g) !in {INIT, TERM, EXCEPT} then None
      else if s.W(w).cbFiber.None? && g in s.fibers then None
      else Some(SwappedIn(s1.(jobs := s.jobs[c := Carried(g)], job := s.job[g := c]), w, g, true))
  }

  function SwappedIn(s: State, w: nat, f: nat, viaCb: bool): State {
    s.(fibers := s.fibers[f := EXEC], active := s.active + 1, announced := s.announced - {f},
       host := s.host[f := w], owner := if viaCb then s.owner - {f} else s.owner,
       workers := s.workers[w := Worker(Some(f), viaCb, if viaCb then Some(f) else s.W(w).cbFiber)])
  }

  /** Lines 169-195: what the worker does once its fibre has switched back. */
  function Yielded(s: State, w: nat, how: YieldKind): State
    requires s.W(w).cur.Some?
  {
    var k := s.W(w);
    var f := k.cur.value;
    var left := Worker(None, false, if k.viaCb then None else k.cbFiber);
    var free := s.(active := s.active - 1, workers := s.workers[w := left]);
    match how
    case ToReady => Push(free.(fibers := s.fibers[f := READY], host := s.host - {f}), Fib(f), -1)
    case ToHold => free.(fibers := s.fibers[f := HOLD], host := s.host - {f})
    case Return => if k.viaCb then Retained(s, free, w, f) else Finish(free, f, TERM)
    case Throw => if k.viaCb then Retained(s, free, w, f) else Finish(free, f, EXCEPT)
  }

  /** `cb_fiber->reset (nullptr)`: a finished callback fibre is kept for the next callback. */
  function Retained(s: State, free: State, w: nat, f: nat): State {
    Finish(free, f, INIT).(owner := s.owner[f := w], workers := s.workers[w := Worker(None, false, Some(f))])
  }

  // ----- counting wake-ups

  lemma QueuePush(q: seq<Entry>, e: Entry, x: Task)
    ensures QueueCount(q + [e], x) == QueueCount(q, x) + One(e.task == x)
  {
    assert (q + [e])[..|q|] == q;
  }

  lemma {:induction false} QueueAppend(q: seq<Entry>, tasks: seq<Task>, x: Task)
    ensures QueueCount(q + Entries(tasks), x) == QueueCount(q, x) + multiset(tasks)[x]
  {
    if tasks == [] {
      assert q + Entries(tasks) == q;
    } else {
      var n := |tasks| - 1;
      assert q + Entries(tasks) == q + Entries(tasks[..n]) + [Entry(tasks[n], -1)];
      QueueAppend(q, tasks[..n], x);
      QueuePush(q + Entries(tasks[..n]), Entry(tasks[n], -1), x);
      assert tasks == tasks[..n] + [tasks[n]];
    }
  }

  lemma {:induction false} QueueErase(q: seq<Entry>, i: nat, x: Task)
    requires i < |q|
    ensures QueueCount(q, x) == QueueCount(q[..i] + q[i + 1..], x) + One(q[i].task == x)
  {
    var n := |q| - 1;
    if i == n {
      assert q[..i] + q[i + 1..] == q[..n];
    } else {
      QueueErase(q[..n], i, x);
      assert q[..i] + q[i + 1..] == q[..n][..i] + q[..n][i + 1..] + [q[n]];
      QueuePush(q[..n][..i] + q[..n][i + 1..], q[n], x);
    }
  }

  lemma {:induction false} SlotUpdate(ctxs: seq<FdContext>, fd: nat, fc: FdContext, x: Task)
    requires fd < |ctxs|
    ensures SlotCount(ctxs[fd := fc], x) == SlotCount(ctxs, x) - Hits(ctxs[fd], BOTH, x) + Hits(fc, BOTH, x)
  {
    var n := |ctxs| - 1;
    if fd == n {
      assert ctxs[fd := fc][..n] == ctxs[..n];
    } else {
      assert ctxs[fd := fc][..n] == ctxs[..n][fd := fc];
      SlotUpdate(ctxs[..n], fd, fc, x);
    }
  }

  lemma {:induction false} SlotGrow(ctxs: seq<FdContext>, n: nat, x: Task)
    ensures SlotCount(ctxs + seq(n, _ => EMPTY_CONTEXT), x) == SlotCount(ctxs, x)
  {
    var pad := seq(n, _ => EMPTY_CONTEXT);
    if n == 0 {
      assert ctxs + pad == ctxs;
    } else {
      assert (ctxs + pad)[..|ctxs| + n - 1] == ctxs + seq(n - 1, _ => EMPTY_CONTEXT);
      SlotGrow(ctxs, n - 1, x);
    }
  }

  lemma WaitersHits(fc: FdContext, es: set<Event>, x: Task)
    ensures multiset(fc.Waiters(es))[x] == Hits(fc, es, x)
  {
  }

  /** Registering a waiter adds one wake-up, of that waiter. */
  lemma AddedCount(t: Table, fd: nat, e: Event, y: Task, x: Task)
    requires t.Inv() && e !in t.Events(fd)
    ensures var g := t.Grown(fd);
            fd < |g.ctxs| && g.Added(fd, e, y).Inv()
            && SlotCount(g.Added(fd, e, y).ctxs, x) == SlotCount(t.ctxs, x) + One(x == y)
  {
    hide SlotCount;
    GrownInv(t, fd);
    var g := t.Grown(fd);
    assert SlotCount(g.ctxs, x) == SlotCount(t.ctxs, x) by {
      if fd >= |t.ctxs| {
        SlotGrow(t.ctxs, 2 * fd - |t.ctxs|, x);
      }
    }
    assert g.ctxs[fd].events == g.Events(fd) == t.Events(fd);
    AddedInv(g, fd, e, y);
    SlotUpdate(g.ctxs, fd, g.ctxs[fd].With(e, SlotFor(y)), x);
  }

  /** A trigger neither creates nor loses a wake-up: it moves them from slots to the queue. */
  lemma TriggeredCount(s: State, fd: nat, es: set<Event>, spare: set<Event>, x: Task)
    requires s.table.Inv() && fd < |s.table.ctxs| && es <= s.table.ctxs[fd].events && spare <= {READ}
    ensures var s' := Triggered(s, fd, es, spare);
            && s'.table.Inv() && s'.Tokens(x) == s.Tokens(x)
            && s'.wakes[x] + SlotCount(s'.table.ctxs, x) == s.wakes[x] + SlotCount(s.table.ctxs, x)
  {
    hide SlotCount, QueueCount, FdContext.Waiters, FdContext.SlotsAgree;
    var fc := s.table.ctxs[fd];
    RemovedInv(s.table, fd, es, spare);
    WaitersHits(fc, es, x);
    SlotUpdate(s.table.ctxs, fd, fc.Without(es), x);
    QueueAppend(s.queue, fc.Waiters(es), x);
  }

  // ----- every step keeps the invariant

  lemma PushCount(s: State, y: Task, thread: int)
    ensures forall x :: Push(s, y, thread).Tokens(x) == s.Tokens(x) + One(x == y)
  {
    forall x
      ensures Push(s, y, thread).Tokens(x) == s.Tokens(x) + One(x == y)
    {
      QueuePush(s.queue, Entry(y, thread), x);
    }
  }

  lemma TriggeredInv(s: State, fd: nat, es: set<Event>, spare: set<Event>)
    requires Inv(s) && fd < |s.table.ctxs| && es <= s.table.ctxs[fd].events && spare <= {READ}
    ensures Inv(Triggered(s, fd, es, spare))
  {
    hide State.Tokens, SlotCount, Table.Inv, Table.Removed, FdContext.Waiters;
    var s' := Triggered(s, fd, es, spare);
    TriggeredCount(s, fd, es, spare, Fib(0));
    forall x: Task
      ensures s'.Tokens(x) == s.Tokens(x) && WaitsOk(s', x)
    {
      TriggeredCount(s, fd, es, spare, x);
      assert WaitsOk(s, x);
    }
    SameFibersInv(s, s');
  }

  /** A larger event table changes nothing else. */
  lemma GrowInv(s: State, fd: nat)
    requires Inv(s)
    ensures Inv(s.(table := s.table.Grown(fd)))
  {
    hide QueueCount, Table.Inv;
    GrownInv(s.table, fd);
    var s' := s.(table := s.table.Grown(fd));
    forall x: Task
      ensures s'.Tokens(x) == s.Tokens(x) && WaitsOk(s', x)
    {
      if fd >= |s.table.ctxs| { SlotGrow(s.table.ctxs, 2 * fd - |s.table.ctxs|, x); }
      assert WaitsOk(s, x);
    }
    SameFibersInv(s, s');
  }

  lemma TriggerStepInv(s: State, step: Step, s': State)
    requires Inv(s) && Next(s, step) == Some(s') && (step.Cancel? || step.CancelAll? || step.Ready?)
    ensures Inv(s')
  {
    hide Inv, Table.Removed, FdContext.Waiters;
    match step
    case Cancel(fd, e) => TriggeredInv(s, fd, {e}, {READ});
    case CancelAll(fd) => TriggeredInv(s, fd, s.table.Events(fd), {});
    case Ready(fd, report) => TriggeredInv(s, fd, RealEvents(report, s.table.Events(fd)), {});
  }

  /** A step that touches no fibre, worker or callback and no wake-up count. */
  lemma SameFibersInv(s: State, s': State)
    requires Inv(s) && s'.table.Inv()
    requires s' == s.(table := s'.table, queue := s'.queue, wakes := s'.wakes,
                      asleep := s'.asleep, dropped := s'.dropped)
    requires forall x: Task :: s'.Tokens(x) == s.Tokens(x) && WaitsOk(s', x)
    ensures Inv(s')
  {
    hide State.Tokens, Table.Inv, WaitsOk;
    forall f: nat ensures FiberOk(s', f) { assert FiberOk(s, f); }
    forall w: nat ensures WorkerOk(s', w) { assert WorkerOk(s, w); }
    forall c: nat ensures JobOk(s', c) && CarrierOk(s', c) { assert JobOk(s, c) && CarrierOk(s, c); }
  }

  /** A deleted waiter had the only wake-up of its task, in the slot that is cleared. */
  lemma DeletedCount(s: State, fd: nat, e: Event, x: Task)
    requires s.table.Inv() && fd < |s.table.ctxs| && e in s.table.ctxs[fd].events && s.Tokens(x) <= 1
    ensures var s' := Deleted(s, fd, e);
            && s'.table.Inv() && s'.Tokens(x) == s.Tokens(x)
            && SlotCount(s'.table.ctxs, x) + One(x in s'.dropped) == SlotCount(s.table.ctxs, x) + One(x in s.dropped)
  {
    hide SlotCount, QueueCount, FdContext.SlotsAgree, TotalBits;
    var fc := s.table.ctxs[fd];
    RemovedInv(s.table, fd, {e}, {READ});
    SlotUpdate(s.table.ctxs, fd, fc.Without({e}), x);
    HitOnce(fc, e, x);
  }

  lemma HitOnce(fc: FdContext, e: Event, x: Task)
    ensures Hits(fc.Without({e}), BOTH, x) == Hits(fc, BOTH, x) - One(x in fc.Waiters({e}))
  {
  }

  lemma DeleteInv(s: State, fd: nat, e: Event, s': State)
    requires Inv(s) && Next(s, Step.Delete(fd, e)) == Some(s')
    ensures Inv(s')
  {
    hide State.Tokens, SlotCount, Table.Inv, Table.Removed, FdContext.Waiters;
    AtMostOne(s, Fib(0));
    DeletedCount(s, fd, e, Fib(0));
    forall x: Task
      ensures s'.Tokens(x) == s.Tokens(x) && WaitsOk(s', x)
    {
      AtMostOne(s, x);
      DeletedCount(s, fd, e, x);
      assert WaitsOk(s, x);
    }
    SameFibersInv(s, s');
  }

  lemma RouseInv(s: State, f: nat, s': State)
    requires Inv(s) && Next(s, Rouse(f)) == Some(s')
    ensures Inv(s')
  {
    hide QueueCount, SlotCount, Table.Inv;
    forall x: Task
      ensures s'.Tokens(x) == s.Tokens(x) && WaitsOk(s', x)
    {
      QueuePush(s.queue, Entry(Fib(f), -1), x);
      assert WaitsOk(s, x);
    }
    SameFibersInv(s, s');
  }

  lemma SleepInv(s: State, w: nat, s': State)
    requires Inv(s) && Next(s, Sleep(w)) == Some(s')
    ensures Inv(s')
  {
    hide QueueCount, SlotCount, Table.Inv;
    var f := s.W(w).cur.value;
    assert WorkerOk(s, w) && FiberOk(s, f);
    assert f !in s.asleep;
    assert forall x :: s'.Tokens(x) == s.Tokens(x) + One(x == Fib(f));
    AnnounceInv(s, s', w);
  }

  lemma SpawnInv(s: State, f: nat, thread: int, s': State)
    requires Inv(s) && Next(s, Spawn(f, thread)) == Some(s')
    ensures Inv(s')
  {
    hide Inv, QueueCount, SlotCount;
    PushCount(s, Fib(f), thread);
    assert forall x :: s'.Tokens(x) == Push(s, Fib(f), thread).Tokens(x);
    NewFiberInv(s, s', f);
  }

  /** A new fibre: one wake-up more, for it, and nothing else changes. */
  lemma NewFiberInv(s: State, s': State, f: nat)
    requires Inv(s) && f !in s.fibers && s' == s.(fibers := s.fibers[f := INIT], queue := s'.queue)
    requires forall x :: s'.Tokens(x) == s.Tokens(x) + One(x == Fib(f))
    ensures Inv(s')
  {
    hide State.Tokens, SlotCount, Table.Inv;
    forall g: nat ensures FiberOk(s', g) { assert FiberOk(s, g); }
    forall w: nat ensures WorkerOk(s', w) { assert WorkerOk(s, w); }
    forall c: nat ensures JobOk(s', c) && CarrierOk(s', c) { assert JobOk(s, c) && CarrierOk(s, c); }
    forall x: Task ensures WaitsOk(s', x) { assert WaitsOk(s, x); }
  }

  lemma PostInv(s: State, c: nat, thread: int, s': State)
    requires Inv(s) && Next(s, Post(c, thread)) == Some(s')
    ensures Inv(s')
  {
    hide QueueCount, SlotCount, Table.Inv;
    PushCount(s, Cb(c), thread);
    assert forall x :: s'.Tokens(x) == Push(s, Cb(c), thread).Tokens(x);
    NewJobInv(s, s', c);
  }

  /** A new callback: one wake-up more, for it, and nothing else changes. */
  lemma NewJobInv(s: State, s': State, c: nat)
    requires Inv(s) && c !in s.jobs && s'.table.Inv()
    requires s' == s.(jobs := s.jobs[c := Pending], table := s'.table, queue := s'.queue, waits := s'.waits)
    requires forall x :: s'.Tokens(x) == s.Tokens(x) + One(x == Cb(c))
    requires forall x: Task :: WaitsOk(s, x) ==> WaitsOk(s', x)
    ensures Inv(s')
  {
    hide State.Tokens, Table.Inv, WaitsOk;
    forall g: nat ensures FiberOk(s', g) { assert FiberOk(s, g); }
    forall w: nat ensures WorkerOk(s', w) { assert WorkerOk(s, w); }
    forall d: nat ensures JobOk(s', d) && CarrierOk(s', d) { assert JobOk(s, d) && CarrierOk(s, d); }
    forall x: Task ensures WaitsOk(s', x) { assert WaitsOk(s, x); }
  }

  lemma WatchInv(s: State, c: nat, fd: nat, e: Event, s': State)
    requires Inv(s) && Next(s, Watch(c, fd, e)) == Some(s')
    ensures Inv(s')
  {
    hide QueueCount, SlotCount, Table.Inv, Table.Added, Table.Grown;
    AddedCount(s.table, fd, e, Cb(c), Cb(c));
    forall x: Task
      ensures s'.Tokens(x) == s.Tokens(x) + One(x == Cb(c))
      ensures WaitsOk(s, x) ==> WaitsOk(s', x)
    {
      AddedCount(s.table, fd, e, Cb(c), x);
    }
    NewJobInv(s, s', c);
  }

  /** The running fibre registers its next wake-up, in a slot or in the queue. */
  lemma AnnounceInv(s: State, s': State, w: nat)
    requires Inv(s) && s'.table.Inv() && s.W(w).cur.Some? && s.W(w).cur.value !in s.announced
    requires s' == s.(announced := s.announced + {s.W(w).cur.value}, table := s'.table, queue := s'.queue,
                      waits := s'.waits, asleep := s'.asleep)
    requires forall x :: s'.Tokens(x) == s.Tokens(x) + One(x == Fib(s.W(w).cur.value))
    requires forall x: Task :: WaitsOk(s, x) ==> WaitsOk(s', x)
    ensures Inv(s')
  {
    hide State.Tokens, Table.Inv, WaitsOk;
    assert WorkerOk(s, w);
    forall g: nat ensures FiberOk(s', g) { assert FiberOk(s, g); }
    forall v: nat ensures WorkerOk(s', v) { assert WorkerOk(s, v); }
    forall d: nat ensures JobOk(s', d) && CarrierOk(s', d) { assert JobOk(s, d) && CarrierOk(s, d); }
    forall x: Task ensures WaitsOk(s', x) { assert WaitsOk(s, x); }
  }

  lemma WaitInv(s: State, w: nat, fd: nat, e: Event, s': State)
    requires Inv(s) && Next(s, Wait(w, fd, e)) == Some(s')
    ensures Inv(s')
  {
    hide QueueCount, SlotCount, Table.Inv, Table.Added, Table.Grown;
    var f := Fib(s.W(w).cur.value);
    AddedCount(s.table, fd, e, f, f);
    forall x: Task
      ensures s'.Tokens(x) == s.Tokens(x) + One(x == f)
      ensures WaitsOk(s, x) ==> WaitsOk(s', x)
    {
      AddedCount(s.table, fd, e, f, x);
    }
    AnnounceInv(s, s', w);
  }

  lemma SwitchToInv(s: State, w: nat, thread: int, s': State)
    requires Inv(s) && Next(s, SwitchTo(w, thread)) == Some(s')
    ensures Inv(s')
  {
    hide QueueCount, SlotCount, Table.Inv;
    var f := Fib(s.W(w).cur.value);
    PushCount(s, f, thread);
    assert forall x :: s'.Tokens(x) == Push(s, f, thread).Tokens(x);
    AnnounceInv(s, s', w);
  }

  /** An entry in the queue is a wake-up of its task. */
  lemma QueuedCounts(s: State, i: nat)
    requires i < |s.queue|
    ensures s.Tokens(s.queue[i].task) >= 1
  {
    QueueErase(s.queue, i, s.queue[i].task);
  }

  lemma EraseCount(s: State, i: nat)
    requires i < |s.queue|
    ensures forall x ::
              s.(queue := s.queue[..i] + s.queue[i + 1..]).Tokens(x) == s.Tokens(x) - One(x == s.queue[i].task)
  {
    forall x
      ensures s.(queue := s.queue[..i] + s.queue[i + 1..]).Tokens(x) == s.Tokens(x) - One(x == s.queue[i].task)
    {
      QueueErase(s.queue, i, x);
    }
  }

  lemma RunningAdds(workers: map<nat, Worker>, w: nat, k: Worker)
    requires (w in workers ==> workers[w].cur.None?) && k.cur.Some?
    ensures |Running(workers[w := k])| == |Running(workers)| + 1
  {
    assert Running(workers[w := k]) == Running(workers) + {w};
  }

  lemma RunningDrops(workers: map<nat, Worker>, w: nat, k: Worker)
    requires w in workers && workers[w].cur.Some? && k.cur.None?
    ensures |Running(workers[w := k])| == |Running(workers)| - 1
  {
    assert Running(workers) == Running(workers[w := k]) + {w};
  }

  lemma ResumeFiberInv(s: State, w: nat, i: nat, newId: nat, s': State)
    requires Inv(s) && Next(s, Dequeue(w, i, newId)) == Some(s') && s.queue[i].task.Fib?
    ensures Inv(s')
  {
    hide QueueCount, SlotCount, Table.Inv;
    var f := s.queue[i].task.id;
    QueuedCounts(s, i);
    EraseCount(s, i);
    assert FiberOk(s, f);
    assert s' == SwappedIn(s.(queue := s'.queue), w, f, false);
    assert forall x :: s'.Tokens(x) == s.Tokens(x) - One(x == Fib(f));
    RunningAdds(s.workers, w, s'.workers[w]);
    ResumedInv(s, s', w, f);
  }

  lemma DequeueInv(s: State, w: nat, i: nat, newId: nat, s': State)
    requires Inv(s) && Next(s, Dequeue(w, i, newId)) == Some(s')
    ensures Inv(s')
  {
    hide Inv, Resumed;
    if s.queue[i].task.Fib? {
      ResumeFiberInv(s, w, i, newId, s');
    } else {
      ResumeCallbackInv(s, w, i, newId, s');
    }
  }

  /** Switching to a fibre: no other fibre or worker is affected. */
  lemma SwappedFibers(s: State, s': State, w: nat, f: nat, viaCb: bool, x: Task)
    requires (forall g: nat :: FiberOk(s, g)) && WorkerOk(s, w) && s.W(w).cur.None?
    requires if viaCb then s.W(w).cbFiber == Some(f) || (s.W(w).cbFiber.None? && f !in s.fibers)
             else s.St(f) in {HOLD, READY, INIT} && f !in s.owner && x == Fib(f)
    requires s' == SwappedIn(s.(queue := s'.queue, jobs := s'.jobs, job := s'.job), w, f, viaCb)
    requires viaCb ==> x.Cb?
    requires forall y :: s'.Tokens(y) == s.Tokens(y) - One(y == x)
    ensures forall g: nat :: FiberOk(s', g)
  {
    hide State.Tokens;
    forall g: nat ensures FiberOk(s', g) { assert FiberOk(s, g); }
  }

  lemma SwappedWorkers(s: State, s': State, w: nat, f: nat, viaCb: bool)
    requires (forall v: nat :: WorkerOk(s, v)) && s.W(w).cur.None? && FiberOk(s, f)
    requires if viaCb then s.W(w).cbFiber == Some(f) || (s.W(w).cbFiber.None? && f !in s.fibers)
             else s.St(f) in {HOLD, READY, INIT} && f !in s.owner
    requires s' == SwappedIn(s.(queue := s'.queue, jobs := s'.jobs, job := s'.job), w, f, viaCb)
    ensures forall v: nat :: WorkerOk(s', v)
  {
    hide State.Tokens;
    assert WorkerOk(s, w);
    forall v: nat ensures WorkerOk(s', v) { assert WorkerOk(s, v); }
  }

  lemma ResumedInv(s: State, s': State, w: nat, f: nat)
    requires Inv(s) && s.W(w).cur.None? && s.St(f) in {HOLD, READY, INIT} && f !in s.owner
    requires s' == SwappedIn(s.(queue := s'.queue), w, f, false)
    requires forall x :: s'.Tokens(x) == s.Tokens(x) - One(x == Fib(f))
    requires s'.active == |Running(s'.workers)|
    ensures Inv(s')
  {
    hide State.Tokens, SlotCount, Table.Inv, FiberOk, WorkerOk;
    SwappedFibers(s, s', w, f, false, Fib(f));
    SwappedWorkers(s, s', w, f, false);
    AtMostOne(s, Fib(f));
    forall d: nat ensures JobOk(s', d) && CarrierOk(s', d) { assert JobOk(s, d) && CarrierOk(s, d); }
    forall x: Task ensures WaitsOk(s', x) { assert WaitsOk(s, x); }
  }

  lemma ResumeCallbackInv(s: State, w: nat, i: nat, newId: nat, s': State)
    requires Inv(s) && Next(s, Dequeue(w, i, newId)) == Some(s') && s.queue[i].task.Cb?
    ensures Inv(s')
  {
    hide QueueCount, SlotCount, Table.Inv;
    var c := s.queue[i].task.id;
    var g := if s.W(w).cbFiber.Some? then s.W(w).cbFiber.value else newId;
    QueuedCounts(s, i);
    EraseCount(s, i);
    assert JobOk(s, c) && WorkerOk(s, w) && FiberOk(s, g);
    assert forall x :: s'.Tokens(x) == s.Tokens(x) - One(x == Cb(c));
    RunningAdds(s.workers, w, s'.workers[w]);
    StartedInv(s, s', w, g, c);
  }

  /** A callback starts on the idle callback fibre of its worker, or on a new one. */
  lemma StartedInv(s: State, s': State, w: nat, g: nat, c: nat)
    requires Inv(s) && s.W(w).cur.None? && c in s.jobs && s.jobs[c].Pending?
    requires if s.W(w).cbFiber.Some? then s.W(w).cbFiber.value == g else g !in s.fibers
    requires s' == SwappedIn(s.(queue := s'.queue, jobs := s.jobs[c := Carried(g)], job := s.job[g := c]), w, g, true)
    requires forall x :: s'.Tokens(x) == s.Tokens(x) - One(x == Cb(c))
    requires s'.active == |Running(s'.workers)|
    ensures Inv(s')
  {
    hide State.Tokens, SlotCount, Table.Inv, FiberOk, WorkerOk;
    SwappedFibers(s, s', w, g, true, Cb(c));
    SwappedWorkers(s, s', w, g, true);
    IdleCarriesNothing(s, w, g);
    forall d: nat ensures JobOk(s', d) && CarrierOk(s', d) { StartedJob(s, s', w, g, c, d); }
    forall x: Task ensures WaitsOk(s', x) { assert WaitsOk(s, x); }
  }

  lemma StartedJob(s: State, s': State, w: nat, g: nat, c: nat, d: nat)
    requires JobOk(s, d) && CarrierOk(s, d) && g !in s.job && c in s.jobs && s.jobs[c].Pending?
    requires s' == SwappedIn(s.(queue := s'.queue, jobs := s.jobs[c := Carried(g)], job := s.job[g := c]), w, g, true)
    requires s'.Tokens(Cb(d)) == s.Tokens(Cb(d)) - One(d == c)
    ensures JobOk(s', d) && CarrierOk(s', d)
  {
    hide State.Tokens;
  }

  lemma IdleCarriesNothing(s: State, w: nat, g: nat)
    requires Inv(s) && s.W(w).cur.None?
    requires if s.W(w).cbFiber.Some? then s.W(w).cbFiber.value == g else g !in s.fibers
    ensures g !in s.job && s.Tokens(Fib(g)) == 0
  {
    hide State.Tokens, Table.Inv, JobOk, WaitsOk;
    assert WorkerOk(s, w) && FiberOk(s, g);
    var c := if g in s.job then s.job[g] else 0;
    assert CarrierOk(s, c);
  }

  lemma YieldInv(s: State, w: nat, how: YieldKind, s': State)
    requires Inv(s) && Next(s, Yield(w, how)) == Some(s')
    ensures Inv(s')
  {
    hide QueueCount, SlotCount, Table.Inv;
    var f := s.W(w).cur.value;
    RunningDrops(s.workers, w, s'.workers[w]);
    match how
    case ToReady =>
      PushCount(s, Fib(f), -1);
      assert forall x :: s'.Tokens(x) == Push(s, Fib(f), -1).Tokens(x);
      PausedInv(s, s', w, f, READY);
    case ToHold =>
      PausedInv(s, s', w, f, HOLD);
    case Return =>
      EndsInYield(s, s', w, TERM);
      EndedInv(s, s', w, TERM);
    case Throw =>
      EndsInYield(s, s', w, EXCEPT);
      EndedInv(s, s', w, EXCEPT);
  }

  /** A fibre that gives way keeps exactly one wake-up. */
  lemma PausedInv(s: State, s': State, w: nat, f: nat, st: FiberState)
    requires Inv(s) && s.W(w).cur == Some(f) && (st == READY || st == HOLD)
    requires f in s.announced <==> st == HOLD
    requires s' == s.(queue := s'.queue, active := s.active - 1, fibers := s.fibers[f := st], host := s.host - {f},
                      workers := s.workers[w := Worker(None, false, if s.W(w).viaCb then None else s.W(w).cbFiber)])
    requires forall x :: s'.Tokens(x) == s.Tokens(x) + One(x == Fib(f) && st == READY)
    requires s'.active == |Running(s'.workers)|
    ensures Inv(s')
  {
    hide State.Tokens, SlotCount, Table.Inv;
    assert WorkerOk(s, w) && FiberOk(s, f);
    forall g: nat ensures FiberOk(s', g) { assert FiberOk(s, g); }
    forall v: nat ensures WorkerOk(s', v) { assert WorkerOk(s, v); }
    forall d: nat ensures JobOk(s', d) && CarrierOk(s', d) { assert JobOk(s, d) && CarrierOk(s, d); }
    forall x: Task ensures WaitsOk(s', x) { assert WaitsOk(s, x); }
  }

  /** A fibre that ends has no wake-up left; a callback fibre goes back to its worker. */
  lemma EndedInv(s: State, s': State, w: nat, st: FiberState)
    requires Inv(s) && Ends(s, s', w, st) && s.W(w).cur.value !in s.announced && (st == TERM || st == EXCEPT)
    requires s'.active == |Running(s'.workers)|
    ensures Inv(s')
  {
    hide QueueCount, SlotCount, Table.Inv, FiberOk, WorkerOk, JobOk, CarrierOk;
    assert forall x :: s'.Tokens(x) == s.Tokens(x);
    EndedFibers(s, s', w, st);
    EndedWorkers(s, s', w, st);
    EndedJobs(s, s', w, st);
    forall x: Task ensures WaitsOk(s', x) { assert WaitsOk(s, x); }
  }

  /** The parts of the state that the end of the fibre running on `w` changes. */
  predicate Ends(s: State, s': State, w: nat, st: FiberState) {
    var k := s.W(w);
    k.cur.Some? &&
    var f := k.cur.value;
    && s'.fibers == s.fibers[f := if k.viaCb then INIT else st] && s'.host == s.host - {f}
    && s'.owner == (if k.viaCb then s.owner[f := w] else s.owner) && s'.announced == s.announced
    && s'.workers == s.workers[w := Worker(None, false, if k.viaCb then Some(f) else k.cbFiber)]
    && s'.job == s.job - {f} && s'.jobs == (if f in s.job then s.jobs[s.job[f] := Finished] else s.jobs)
    && s'.queue == s.queue && s'.table == s.table && s'.asleep == s.asleep && s'.dropped == s.dropped
    && s'.waits == s.waits && s'.wakes == s.wakes && s'.active == s.active - 1
  }

  lemma EndsInYield(s: State, s': State, w: nat, st: FiberState)
    requires s.W(w).cur.Some? && (st == TERM || st == EXCEPT)
    requires s' == Yielded(s, w, if st == TERM then Return else Throw)
    ensures Ends(s, s', w, st)
  {
    var f := s.W(w).cur.value;
    assert f !in s.job ==> s.job - {f} == s.job;
  }

  lemma EndedFibers(s: State, s': State, w: nat, st: FiberState)
    requires (forall g: nat :: FiberOk(s, g)) && WorkerOk(s, w) && Ends(s, s', w, st)
    requires s.W(w).cur.value !in s.announced && (st == TERM || st == EXCEPT)
    requires forall x :: s'.Tokens(x) == s.Tokens(x)
    ensures forall g: nat :: FiberOk(s', g)
  {
    hide State.Tokens, FiberOk, WorkerOk;
    forall g: nat ensures FiberOk(s', g) { EndedFiber(s, s', w, st, g); }
  }

  lemma EndedFiber(s: State, s': State, w: nat, st: FiberState, g: nat)
    requires Ends(s, s', w, st) && FiberOk(s, g) && WorkerOk(s, w) && FiberOk(s, s.W(w).cur.value)
    requires s.W(w).cur.value !in s.announced && (st == TERM || st == EXCEPT)
    requires s'.Tokens(Fib(g)) == s.Tokens(Fib(g))
    ensures FiberOk(s', g)
  {
    hide State.Tokens;
  }

  lemma EndedWorkers(s: State, s': State, w: nat, st: FiberState)
    requires (forall v: nat :: WorkerOk(s, v)) && Ends(s, s', w, st)
    ensures forall v: nat :: WorkerOk(s', v)
  {
    assert WorkerOk(s, w);
    forall v: nat ensures WorkerOk(s', v) { assert WorkerOk(s, v); }
  }

  ghost predicate JobsOk(s: State) {
    && (forall c: nat :: JobOk(s, c)) && (forall c: nat :: CarrierOk(s, c))
    && (forall f :: f in s.job ==> s.job[f] in s.jobs && s.jobs[s.job[f]] == Carried(f))
  }

  lemma EndedJobs(s: State, s': State, w: nat, st: FiberState)
    requires JobsOk(s) && Ends(s, s', w, st)
    requires forall x :: s'.Tokens(x) == s.Tokens(x)
    ensures JobsOk(s')
  {
    hide State.Tokens, JobsOk;
    JobEnds(s, s', s.W(w).cur.value);
  }

  /** The callback a fibre carried, if any, is finished; the others are where they were. */
  lemma JobEnds(s: State, s': State, f: nat)
    requires JobsOk(s)
    requires s'.job == s.job - {f} && (forall g :: g != f ==> s'.St(g) == s.St(g))
    requires s'.jobs == if f in s.job then s.jobs[s.job[f] := Finished] else s.jobs
    requires forall x :: s'.Tokens(x) == s.Tokens(x)
    ensures JobsOk(s')
  {
    hide State.Tokens, State.St;
    forall c: nat ensures JobOk(s', c) { assert JobOk(s, c); }
    forall c: nat ensures CarrierOk(s', c) { assert CarrierOk(s, c); }
  }

  // ----- the theorems

  ghost predicate Initial(s: State) {
    && s.fibers == map[] && s.queue == [] && s.active == 0
    && s.table.ctxs == seq(32, _ => EMPTY_CONTEXT) && s.table.pending == 0 && s.table.epoll == map[]
    && (forall w: nat :: s.W(w) == Worker(None, false, None))
    && s.announced == {} && s.asleep == {} && s.dropped == {}
    && s.host == map[] && s.owner == map[] && s.jobs == map[] && s.job == map[]
    && s.waits == multiset{} && s.wakes == multiset{}
  }

  lemma InitialIsInv(s: State)
    requires Initial(s)
    ensures Inv(s)
  {
    InitialInv();
    forall x: Task
      ensures SlotCount(s.table.ctxs, x) == 0
    {
      assert [] + seq(32, _ => EMPTY_CONTEXT) == s.table.ctxs;
      SlotGrow([], 32, x);
    }
    assert Running(s.workers) == {} by {
      forall w | w in s.workers ensures s.workers[w].cur.None? { assert s.W(w) == s.workers[w]; }
    }
  }

  /** Every step keeps the invariant. */
  lemma NextInv(s: State, step: Step, s': State)
    requires Inv(s) && Next(s, step) == Some(s')
    ensures Inv(s')
  {
    hide Inv, Next;
    match step
    case Spawn(f, thread) => SpawnInv(s, f, thread, s');
    case Post(c, thread) => PostInv(s, c, thread, s');
    case Dequeue(w, i, newId) => DequeueInv(s, w, i, newId, s');
    case Yield(w, how) => YieldInv(s, w, how, s');
    case Wait(w, fd, e) => WaitInv(s, w, fd, e, s');
    case Watch(c, fd, e) => WatchInv(s, c, fd, e, s');
    case SwitchTo(w, thread) => SwitchToInv(s, w, thread, s');
    case Sleep(w) => SleepInv(s, w, s');
    case Rouse(f) => RouseInv(s, f, s');
    case Delete(fd, e) => DeleteInv(s, fd, e, s');
    case Cancel(_, _) => TriggerStepInv(s, step, s');
    case CancelAll(_) => TriggerStepInv(s, step, s');
    case Ready(_, _) => TriggerStepInv(s, step, s');
  }

  /** A run: every step is enabled and leads to the next state. */
  ghost predicate IsRun(states: seq<State>, steps: seq<Step>) {
    && |states| == |steps| + 1
    && Initial(states[0])
    && forall i :: 0 <= i < |steps| ==> Next(states[i], steps[i]) == Some(states[i + 1])
  }

  /** Safety over whole runs, for any number of workers and any interleaving. */
  lemma {:induction false} RunInv(states: seq<State>, steps: seq<Step>, i: nat)
    requires IsRun(states, steps) && i < |states|
    ensures Inv(states[i])
  {
    hide Inv, Next, Initial;
    if i == 0 {
      InitialIsInv(states[0]);
    } else {
      RunInv(states, steps, i - 1);
      NextInv(states[i - 1], steps[i - 1], states[i]);
    }
  }

  /** Task conservation for fibres: a fibre runs on exactly one worker, or waits with exactly one
      wake-up unless its waiter was deleted, or is an idle callback fibre or finished with no
      wake-up left. */
  lemma FiberConservation(s: State, f: nat)
    requires Inv(s)
    ensures forall w: nat :: s.W(w).cur == Some(f) <==> s.St(f) == EXEC && f in s.host && s.host[f] == w
    ensures s.St(f) == EXEC ==> f in s.host && s.Wakeups(Fib(f)) == One(f in s.announced && Fib(f) !in s.dropped)
    ensures s.St(f) == HOLD ==> s.Wakeups(Fib(f)) == One(Fib(f) !in s.dropped)
    ensures s.St(f) == READY ==> s.Wakeups(Fib(f)) == 1
    ensures s.St(f) in {TERM, EXCEPT} ==> s.Wakeups(Fib(f)) == 0
    ensures s.St(f) == INIT ==> s.Wakeups(Fib(f)) == One(!s.IsIdle(f))
  {
    hide State.Tokens, State.Wakeups, Table.Inv, SlotCount;
    assert FiberOk(s, f) && WaitsOk(s, Fib(f));
    forall w: nat
      ensures s.W(w).cur == Some(f) <==> s.St(f) == EXEC && f in s.host && s.host[f] == w
    {
      assert WorkerOk(s, w);
    }
  }

  /** A parked fibre is left without any wake-up if and only if its waiter was deleted. */
  lemma ForgottenIffDeleted(s: State, f: nat)
    requires Inv(s) && s.St(f) == HOLD
    ensures s.Wakeups(Fib(f)) == 0 <==> Fib(f) in s.dropped
  {
    FiberConservation(s, f);
  }

  /** Such a fibre is never woken: it stays parked whatever happens. */
  lemma ForgottenStays(s: State, step: Step, s': State, f: nat)
    requires Inv(s) && s.St(f) == HOLD && Fib(f) in s.dropped && Next(s, step) == Some(s')
    ensures s'.St(f) == HOLD && Fib(f) in s'.dropped
  {
    hide Inv, Next;
    NextInv(s, step, s');
    DroppedStays(s, step, s');
    DroppedAnnounced(s', f);
    if step.Dequeue? {
      DequeueWakes(s, step.w, step.i, step.newId, s', f);
    } else if step.Yield? {
      YieldParks(s, step.w, step.how, s', f);
    } else {
      OthersKeepFibers(s, step, s');
    }
  }

  lemma DroppedStays(s: State, step: Step, s': State)
    requires Next(s, step) == Some(s')
    ensures s.dropped <= s'.dropped
  {
    hide Table.Removed, Table.Added, Table.Grown, FdContext.Waiters, RealEvents, ReadyResult;
    if step.Yield? && (step.how == Return || step.how == Throw) {
      EndsInYield(s, s', step.w, if step.how == Return then TERM else EXCEPT);
    }
  }

  lemma DroppedAnnounced(s: State, f: nat)
    requires Inv(s) && Fib(f) in s.dropped
    ensures f in s.announced
  {
    hide State.Tokens, Table.Inv;
    assert WaitsOk(s, Fib(f));
  }

  /** A dequeue changes at most the fibre it resumes, which then has not registered a wake-up. */
  lemma DequeueWakes(s: State, w: nat, i: nat, newId: nat, s': State, f: nat)
    requires Next(s, Dequeue(w, i, newId)) == Some(s') && f in s'.announced
    ensures s'.St(f) == s.St(f)
  {
  }

  lemma YieldParks(s: State, w: nat, how: YieldKind, s': State, f: nat)
    requires Inv(s) && Next(s, Yield(w, how)) == Some(s') && s.St(f) != EXEC
    ensures s'.St(f) == s.St(f)
  {
    assert WorkerOk(s, w);
    hide Inv;
    if how == Return || how == Throw { EndsInYield(s, s', w, if how == Return then TERM else EXCEPT); }
  }

  // ----- a run, step by step: fibre 0 starts, waits for READ of descriptor 0 and parks

  function Start(): State {
    State(map[], [], map[], 0, Table(seq(32, _ => EMPTY_CONTEXT), 0, map[]), {}, {}, {},
          map[], map[], map[], map[], multiset{}, multiset{})
  }

  /** Only fibre 0 exists, nothing is asleep or deleted, and worker 0 runs what is given. */
  predicate Alone(s: State, st: FiberState, cur: Option<nat>, queue: seq<Entry>, announced: set<nat>) {
    && s.fibers == map[0 := st] && s.W(0).cur == cur && s.queue == queue && s.announced == announced
    && s.asleep == {} && s.dropped == {} && |s.table.ctxs| == 32
  }

  predicate Started(s: State) { Alone(s, EXEC, Some(0), [], {}) && s.table.ctxs[0] == EMPTY_CONTEXT }

  predicate Registered(s: State) {
    Alone(s, EXEC, Some(0), [], {0}) && s.table.ctxs[0] == EMPTY_CONTEXT.With(READ, SlotFor(Fib(0)))
  }

  predicate Waiting(s: State) {
    Alone(s, HOLD, None, [], {0}) && s.table.ctxs[0] == EMPTY_CONTEXT.With(READ, SlotFor(Fib(0)))
  }

  lemma RunLonger(states: seq<State>, steps: seq<Step>, step: Step, s': State)
    requires IsRun(states, steps) && Next(states[|steps|], step) == Some(s')
    ensures IsRun(states + [s'], steps + [step])
  {
    hide Next, Initial;
  }

  lemma RunToStart() returns (states: seq<State>, steps: seq<Step>)
    ensures IsRun(states, steps) && |steps| == 2 && Started(states[2])
  {
    hide Inv;
    var s0 := Start();
    var s1 := Next(s0, Spawn(0, -1)).value;
    assert s1.queue == [Entry(Fib(0), -1)] && s1.fibers == map[0 := INIT];
    var s2 := Next(s1, Dequeue(0, 0, 1)).value;
    assert Initial(s0) && Started(s2);
    hide Next, Initial, Started;
    states, steps := [s0], [];
    RunLonger(states, steps, Spawn(0, -1), s1);
    RunLonger(states + [s1], steps + [Spawn(0, -1)], Dequeue(0, 0, 1), s2);
    states, steps := states + [s1] + [s2], steps + [Spawn(0, -1)] + [Dequeue(0, 0, 1)];
  }

  lemma WaitNext(s: State) returns (s': State)
    requires Started(s)
    ensures Next(s, Wait(0, 0, READ)) == Some(s') && Registered(s')
  {
    s' := Next(s, Wait(0, 0, READ)).value;
  }

  lemma ParkNext(s: State) returns (s': State)
    requires Registered(s)
    ensures Next(s, Yield(0, ToHold)) == Some(s') && Waiting(s')
  {
    s' := Next(s, Yield(0, ToHold)).value;
  }

  lemma RunToWait() returns (states: seq<State>, steps: seq<Step>)
    ensures IsRun(states, steps) && |steps| == 4 && steps[2..] == [Wait(0, 0, READ), Yield(0, ToHold)]
    ensures Started(states[2]) && Registered(states[3]) && Waiting(states[4])
  {
    hide Next, Initial, Started, Registered, Waiting;
    var states2, steps2 := RunToStart();
    var s3 := WaitNext(states2[2]);
    var s4 := ParkNext(s3);
    RunLonger(states2, steps2, Wait(0, 0, READ), s3);
    var states3, steps3 := states2 + [s3], steps2 + [Wait(0, 0, READ)];
    RunLonger(states3, steps3, Yield(0, ToHold), s4);
    states, steps := states3 + [s4], steps3 + [Yield(0, ToHold)];
    assert states[2] == states2[2];
  }

  /** A run in which a parked fibre loses its waiter. */
  lemma ForgottenArises() returns (states: seq<State>, steps: seq<Step>)
    ensures IsRun(states, steps) && states[|steps|].St(0) == HOLD && Fib(0) in states[|steps|].dropped
  {
    hide Initial;
    states, steps := RunToWait();
    var s := states[|steps|];
    var s' := Next(s, Step.Delete(0, READ)).value;
    assert Fib(0) in s.table.ctxs[0].Waiters({READ});
    RunLonger(states, steps, Step.Delete(0, READ), s');
    states, steps := states + [s'], steps + [Step.Delete(0, READ)];
  }

  /** Task conservation for callbacks: not started with exactly one wake-up unless its waiter was
      deleted, or carried by one live fibre that carries nothing else, or finished. */
  lemma CallbackConservation(s: State, c: nat, d: nat)
    requires Inv(s)
    ensures s.Wakeups(Cb(c)) == One(c in s.jobs && s.jobs[c].Pending? && Cb(c) !in s.dropped)
    ensures c in s.jobs && s.jobs[c].Carried? ==> s.St(s.jobs[c].carrier) in {EXEC, HOLD, READY}
    ensures c in s.jobs && d in s.jobs && s.jobs[c].Carried? && s.jobs[c] == s.jobs[d] ==> c == d
  {
    hide State.Tokens, State.Wakeups, Table.Inv, WaitsOk;
    assert JobOk(s, c) && CarrierOk(s, c) && CarrierOk(s, d);
  }

  /** Exactly-once wake-up: the waits a task ever registered and the schedulings they caused differ
      by the one that still sits in a slot or was deleted, so no wait is answered twice or forgotten;
      a fibre that is running and not about to park has had every one of its waits answered. */
  lemma ExactlyOnceWakeup(s: State, x: Task)
    requires Inv(s)
    ensures s.waits[x] == s.wakes[x] + SlotCount(s.table.ctxs, x) + One(x in s.dropped)
    ensures SlotCount(s.table.ctxs, x) + One(x in s.dropped) <= 1
    ensures x.Fib? && s.St(x.id) == EXEC && x.id !in s.announced ==> s.wakes[x] == s.waits[x]
    ensures x.Fib? && s.St(x.id) == HOLD && s.wakes[x] == s.waits[x] ==>
              QueueCount(s.queue, x) == One(x.id !in s.asleep)
  {
    hide QueueCount, SlotCount, Table.Inv;
    assert WaitsOk(s, x);
    if x.Fib? {
      assert FiberOk(s, x.id);
    } else {
      assert JobOk(s, x.id);
    }
  }

  /** A wake-up that arrives before its fibre has parked is not lost: its queue entry is skipped by
      every scan while the fibre is still running. */
  lemma EarlyWakeupIsKept(s: State, step: Step, s': State, f: nat)
    requires Inv(s) && Next(s, step) == Some(s')
    requires s.St(f) == EXEC && QueueCount(s.queue, Fib(f)) == 1
    ensures QueueCount(s'.queue, Fib(f)) == 1 && s'.St(f) in {EXEC, HOLD}
  {
    hide Inv, Table.Inv, Table.Removed, Table.Added, Table.Grown, FdContext.Waiters, SlotCount;
    NextInv(s, step, s');
    QueueOnlyLoses(s, step, s', f);
    AtMostOne(s', Fib(f));
    RunningStays(s, step, s', f);
  }

  lemma AtMostOne(s: State, x: Task)
    requires Inv(s)
    ensures s.Tokens(x) <= 1
  {
    hide State.Tokens, Table.Inv;
    if x.Fib? {
      assert FiberOk(s, x.id);
    } else {
      assert JobOk(s, x.id);
    }
  }

  /** Entries were added at the end, for any thread if `free`. */
  ghost predicate Grew(q: seq<Entry>, q': seq<Entry>, free: bool) {
    q <= q' && (free ==> forall k :: |q| <= k < |q'| ==> q'[k].thread == -1)
  }

  /** Only a dequeue removes from the queue; the others add at its end, and what they schedule may run on
      any thread unless the step names one. */
  lemma QueueKeeps(s: State, step: Step, s': State)
    requires Next(s, step) == Some(s') && !step.Dequeue?
    ensures Grew(s.queue, s'.queue, !step.Spawn? && !step.Post? && !step.SwitchTo?)
  {
    hide Next, Grew;
    if step.Cancel? || step.CancelAll? || step.Ready? {
      TriggerGrows(s, step, s');
    } else if step.Yield? {
      YieldGrows(s, step.w, step.how, s');
    } else {
      OtherGrows(s, step, s');
    }
  }

  lemma TriggerGrows(s: State, step: Step, s': State)
    requires Next(s, step) == Some(s') && (step.Cancel? || step.CancelAll? || step.Ready?)
    ensures Grew(s.queue, s'.queue, true)
  {
    hide Table.Removed, Table.Added, Table.Grown, FdContext.Waiters, RealEvents, ReadyResult;
  }

  lemma YieldGrows(s: State, w: nat, how: YieldKind, s': State)
    requires Next(s, Yield(w, how)) == Some(s')
    ensures Grew(s.queue, s'.queue, true)
  {
    if how == Return || how == Throw { EndsInYield(s, s', w, if how == Return then TERM else EXCEPT); }
  }

  lemma OtherGrows(s: State, step: Step, s': State)
    requires Next(s, step) == Some(s') && !step.Dequeue? && !step.Yield?
    requires !step.Cancel? && !step.CancelAll? && !step.Ready?
    ensures Grew(s.queue, s'.queue, !step.Spawn? && !step.Post? && !step.SwitchTo?)
  {
    hide Table.Removed, Table.Added, Table.Grown, FdContext.Waiters;
  }

  lemma DequeueTakes(s: State, w: nat, i: nat, newId: nat, s': State)
    requires Next(s, Dequeue(w, i, newId)) == Some(s')
    ensures i < |s.queue| && Eligible(s, s.queue[i], w) && s'.queue == s.queue[..i] + s.queue[i + 1..]
  {
  }

  lemma {:induction false} PrefixCount(q: seq<Entry>, q': seq<Entry>, x: Task)
    requires q <= q'
    ensures QueueCount(q, x) <= QueueCount(q', x)
    decreases |q'|
  {
    if q != q' {
      PrefixCount(q, q'[..|q'| - 1], x);
    }
  }

  lemma QueueOnlyLoses(s: State, step: Step, s': State, f: nat)
    requires Next(s, step) == Some(s') && s.St(f) == EXEC
    ensures QueueCount(s'.queue, Fib(f)) >= QueueCount(s.queue, Fib(f))
  {
    hide Next, QueueCount;
    if step.Dequeue? {
      DequeueTakes(s, step.w, step.i, step.newId, s');
      QueueErase(s.queue, step.i, Fib(f));
    } else {
      QueueKeeps(s, step, s');
      PrefixCount(s.queue, s'.queue, Fib(f));
    }
  }

  lemma RunningStays(s: State, step: Step, s': State, f: nat)
    requires Inv(s) && Next(s, step) == Some(s')
    requires s.St(f) == EXEC && s.Tokens(Fib(f)) >= 1
    ensures s'.St(f) in {EXEC, HOLD}
  {
    hide Next, Inv, State.Tokens;
    AnnouncedAndWorkerOk(s, f, if step.Dequeue? then step.w else 0);
    if step.Dequeue? {
      DequeueKeepsRunning(s, step.w, step.i, step.newId, s', f);
    } else if step.Yield? {
      YieldKeepsRunning(s, step.w, step.how, s', f);
    } else {
      OthersKeepFibers(s, step, s');
    }
  }

  lemma DequeueKeepsRunning(s: State, w: nat, i: nat, newId: nat, s': State, f: nat)
    requires Next(s, Dequeue(w, i, newId)) == Some(s') && s.St(f) == EXEC && WorkerOk(s, w)
    ensures s'.St(f) == EXEC
  {
  }

  lemma YieldKeepsRunning(s: State, w: nat, how: YieldKind, s': State, f: nat)
    requires Next(s, Yield(w, how)) == Some(s') && s.St(f) == EXEC && f in s.announced
    ensures s'.St(f) in {EXEC, HOLD}
  {
    if how == Return || how == Throw { EndsInYield(s, s', w, if how == Return then TERM else EXCEPT); }
  }

  lemma OthersKeepFibers(s: State, step: Step, s': State)
    requires Next(s, step) == Some(s') && !step.Dequeue? && !step.Yield?
    ensures forall f :: f in s.fibers ==> s'.St(f) == s.St(f)
  {
    hide Table.Removed, Table.Added, Table.Grown, FdContext.Waiters, RealEvents, ReadyResult;
  }

  lemma AnnouncedAndWorkerOk(s: State, f: nat, w: nat)
    requires Inv(s) && s.St(f) == EXEC && s.Tokens(Fib(f)) >= 1
    ensures f in s.announced && WorkerOk(s, w)
  {
    hide State.Tokens, Table.Inv;
    assert FiberOk(s, f);
  }

  /** A resumed task was pinned to no thread or to this one, its fibre was not running, and the
      callback fibre of the worker is free to take it: `Fiber::reset` and `Fiber::swapIn` never
      fail their assertions. */
  lemma DequeueIsSafe(s: State, w: nat, i: nat, newId: nat)
    requires Inv(s) && i < |s.queue| && s.W(w).cur.None? && Eligible(s, s.queue[i], w) && newId !in s.fibers
    ensures s.queue[i].thread in {-1, w as int}
    ensures s.queue[i].task.Fib? ==> s.St(s.queue[i].task.id) in {INIT, HOLD, READY}
    ensures s.W(w).cbFiber.Some? ==> s.St(s.W(w).cbFiber.value) == INIT
    ensures Next(s, Dequeue(w, i, newId)).Some?
  {
    hide QueueCount, SlotCount, Table.Inv, WaitsOk, JobOk, CarrierOk;
    QueuedCounts(s, i);
    assert WorkerOk(s, w);
    if s.queue[i].task.Fib? {
      assert FiberOk(s, s.queue[i].task.id);
    }
  }

  /** The task of the entry is what the worker runs next: a fibre itself, and a callback on the fibre that
      now carries it. */
  lemma DequeueRuns(s: State, w: nat, i: nat, newId: nat, s': State)
    requires Inv(s) && Next(s, Dequeue(w, i, newId)) == Some(s')
    ensures s'.W(w).cur.Some? && s'.St(s'.W(w).cur.value) == EXEC && s'.active == s.active + 1
    ensures match s.queue[i].task
            case Fib(f) => s'.W(w).cur == Some(f) && !s'.W(w).viaCb && s'.jobs == s.jobs
            case Cb(c) => s'.W(w).viaCb && s'.jobs == s.jobs[c := Carried(s'.W(w).cur.value)]
  {
    hide QueueCount, SlotCount, Table.Inv, WaitsOk, JobOk, CarrierOk;
    QueuedCounts(s, i);
    if s.queue[i].task.Fib? { assert FiberOk(s, s.queue[i].task.id); }
  }

  // ----- the thread a task runs on

  ghost predicate PinnedTo(s: State, x: Task, thread: int) {
    exists k :: 0 <= k < |s.queue| && s.queue[k] == Entry(x, thread)
  }

  /** The step schedules the task on a thread. */
  predicate Asks(s: State, step: Step, x: Task, thread: int) {
    match step
    case Spawn(f, t) => x == Fib(f) && thread == t
    case Post(c, t) => x == Cb(c) && thread == t
    case SwitchTo(w, t) => s.W(w).cur.Some? && x == Fib(s.W(w).cur.value) && thread == t
    case _ => false
  }

  predicate Takes(s: State, step: Step, x: Task) {
    step.Dequeue? && step.i < |s.queue| && s.queue[step.i].task == x
  }

  lemma AskedIsPinned(s: State, step: Step, s': State, x: Task, thread: int)
    requires Next(s, step) == Some(s') && Asks(s, step, x, thread)
    ensures PinnedTo(s', x, thread)
  {
    assert s'.queue[|s.queue|] == Entry(x, thread);
  }

  lemma OneEntry(s: State, i: nat, j: nat)
    requires Inv(s) && i < |s.queue| && j < |s.queue| && s.queue[i].task == s.queue[j].task
    ensures i == j
  {
    hide Inv;
    var x := s.queue[i].task;
    AtMostOne(s, x);
    QueueErase(s.queue, i, x);
    if i != j {
      var rest := s.(queue := s.queue[..i] + s.queue[i + 1..]);
      assert rest.queue[if j < i then j else j - 1].task == x;
      QueuedCounts(rest, if j < i then j else j - 1);
    }
  }

  /** The entry stays in the queue until its task is taken. */
  lemma PinStays(s: State, step: Step, s': State, x: Task, thread: int)
    requires Next(s, step) == Some(s') && PinnedTo(s, x, thread) && !Takes(s, step, x)
    ensures PinnedTo(s', x, thread)
  {
    hide Next;
    var k :| 0 <= k < |s.queue| && s.queue[k] == Entry(x, thread);
    if step.Dequeue? {
      DequeueTakes(s, step.w, step.i, step.newId, s');
      assert s'.queue[if k < step.i then k else k - 1] == Entry(x, thread);
    } else {
      QueueKeeps(s, step, s');
      assert s'.queue[k] == Entry(x, thread);
    }
  }

  lemma PinIsKept(s: State, step: Step, s': State, x: Task, thread: int)
    requires Inv(s) && Next(s, step) == Some(s') && PinnedTo(s, x, thread) && Takes(s, step, x)
    ensures thread == -1 || step.w == thread
  {
    hide Next, Inv;
    var k :| 0 <= k < |s.queue| && s.queue[k] == Entry(x, thread);
    DequeueTakes(s, step.w, step.i, step.newId, s');
    OneEntry(s, k, step.i);
  }

  /** In every run, a fibre or callback that is scheduled on a thread, or a fibre that switches to it, is
      taken from the queue by the worker of that thread. */
  lemma RunsWhereAsked(states: seq<State>, steps: seq<Step>, x: Task, thread: int, i: nat, j: nat)
    requires IsRun(states, steps) && i < j < |steps| && Asks(states[i], steps[i], x, thread)
    requires Takes(states[j], steps[j], x) && forall k :: i < k < j ==> !Takes(states[k], steps[k], x)
    ensures thread == -1 || steps[j].w == thread
  {
    hide Inv, Next, Initial, PinnedTo, Takes, Asks;
    PinnedAlong(states, steps, x, thread, i, j);
    RunInv(states, steps, j);
    PinIsKept(states[j], steps[j], states[j + 1], x, thread);
  }

  lemma {:induction false} PinnedAlong(states: seq<State>, steps: seq<Step>, x: Task, thread: int, i: nat, j: nat)
    requires IsRun(states, steps) && i < j < |steps| && Asks(states[i], steps[i], x, thread)
    requires forall k :: i < k < j ==> !Takes(states[k], steps[k], x)
    ensures PinnedTo(states[j], x, thread)
  {
    hide Inv, Next, Initial, PinnedTo, Takes, Asks;
    if j == i + 1 {
      AskedIsPinned(states[i], steps[i], states[j], x, thread);
    } else {
      PinnedAlong(states, steps, x, thread, i, j - 1);
      PinStays(states[j - 1], steps[j - 1], states[j], x, thread);
    }
  }

  lemma {:induction false} NoBitsNoWaiters(ctxs: seq<FdContext>, x: Task)
    requires TotalBits(ctxs) == 0 && forall fd :: 0 <= fd < |ctxs| ==> ctxs[fd].SlotsAgree()
    ensures SlotCount(ctxs, x) == 0
  {
    if ctxs != [] {
      var n := |ctxs| - 1;
      NoBitsNoWaiters(ctxs[..n], x);
      assert ctxs[n].SlotsAgree() && ctxs[n].events == {};
      assert ctxs[n].Slot(READ) == ctxs[n].Slot(WRITE) == EMPTY_SLOT;
    }
  }

  /** When `stopping ()` holds (queue empty, no active worker, no pending event, no timer), nothing is
      left behind but what `delEvent` abandoned: every other fibre has finished or idles for
      callbacks, and every other callback has finished. */
  lemma StoppingMeansDone(s: State, f: nat, c: nat)
    requires Inv(s) && s.queue == [] && s.active == 0 && s.table.pending == 0 && s.asleep == {}
    ensures s.St(f) in {TERM, EXCEPT} || (s.St(f) == INIT && s.IsIdle(f)) || (s.St(f) == HOLD && Fib(f) in s.dropped)
    ensures c in s.jobs ==> match s.jobs[c]
            case Finished => true
            case Pending => Cb(c) in s.dropped
            case Carried(g) => s.St(g) == HOLD && Fib(g) in s.dropped
  {
    NoBitsNoWaiters(s.table.ctxs, Fib(f));
    NoBitsNoWaiters(s.table.ctxs, Cb(c));
    var g := if c in s.jobs && s.jobs[c].Carried? then s.jobs[c].carrier else f;
    NoBitsNoWaiters(s.table.ctxs, Fib(g));
    hide SlotCount, Table.Inv;
    NobodyRuns(s, f);
    NobodyRuns(s, g);
    assert FiberOk(s, f) && FiberOk(s, g) && JobOk(s, c) && CarrierOk(s, c);
    assert WaitsOk(s, Fib(f)) && WaitsOk(s, Fib(g));
  }

  lemma NobodyRuns(s: State, f: nat)
    requires Inv(s) && s.active == 0
    ensures s.St(f) != EXEC
  {
    hide State.Tokens, Table.Inv, WaitsOk, JobOk, CarrierOk;
    assert FiberOk(s, f);
    var w := if f in s.host then s.host[f] else 0;
    assert w !in Running(s.workers);
  }
}
