/** The event table of `IOManager`: per-descriptor waiter slots, the pending counter and the
    kernel's epoll registrations. `Table` is the specification; the class `IOManager` below it
    performs the source's updates in place. Each operation is one critical section under the
    context mutex. */
module EventTable {
  import opened Bytes

  /** READ and WRITE have the values of EPOLLIN and EPOLLOUT, so masks are sets of events. */
  datatype Event = READ | WRITE

  /** Something the scheduler can run: a fibre or a callback. */
  datatype Task = Fib(id: nat) | Cb(id: nat)

  /** One waiter slot: `scheduler` is set iff the slot is taken. */
  datatype EventContext = EventContext(scheduler: bool, fiber: Option<nat>, cb: Option<nat>) {
    /** The task a trigger hands to the scheduler: the callback if there is one. */
    function Waiter(): Option<Task> {
      if cb.Some? then Some(Cb(cb.value)) else if fiber.Some? then Some(Fib(fiber.value)) else None
    }
  }

  const EMPTY_SLOT := EventContext(false, None, None)

  function SlotFor(w: Task): EventContext {
    match w
    case Fib(f) => EventContext(true, Some(f), None)
    case Cb(c) => EventContext(true, None, Some(c))
  }

  datatype FdContext = FdContext(events: set<Event>, read: EventContext, write: EventContext) {
    function Slot(e: Event): EventContext { if e == READ then read else write }
    function With(e: Event, slot: EventContext): FdContext {
      if e == READ then FdContext(events + {e}, slot, write) else FdContext(events + {e}, read, slot)
    }
    function Without(es: set<Event>): FdContext {
      FdContext(events - es, if READ in es then EMPTY_SLOT else read, if WRITE in es then EMPTY_SLOT else write)
    }
    /** The tasks waiting for the events `es`, READ before WRITE. */
    function Waiters(es: set<Event>): seq<Task> {
      (if READ in es && read.Waiter().Some? then [read.Waiter().value] else []) +
      (if WRITE in es && write.Waiter().Some? then [write.Waiter().value] else [])
    }
    /** A slot holds a scheduler and exactly one of fibre and callback iff its bit is set;
        otherwise it is completely empty. */
    ghost predicate SlotsAgree() {
      forall e: Event ::
        if e in events then Slot(e).scheduler && Slot(e).fiber.Some? != Slot(e).cb.Some?
        else Slot(e) == EMPTY_SLOT
    }
  }

  const EMPTY_CONTEXT := FdContext({}, EMPTY_SLOT, EMPTY_SLOT)

  datatype Table = Table(ctxs: seq<FdContext>, pending: int, epoll: map<nat, set<Event>>) {
    function Events(fd: nat): set<Event> { if fd < |ctxs| then ctxs[fd].events else {} }

    ghost predicate Inv() {
      && 32 <= |ctxs|
      && (forall fd :: 0 <= fd < |ctxs| ==> ctxs[fd].SlotsAgree())
      && pending == TotalBits(ctxs)
      && (forall fd: nat :: KernelMirrors(fd))
    }

    /** The kernel watches a descriptor iff it has a bit set, watches at least those bits, and at
        most a spare READ besides. */
    ghost predicate KernelMirrors(fd: nat) {
      if Events(fd) == {} then fd !in epoll
      else fd in epoll && Events(fd) <= epoll[fd] <= Events(fd) + {READ}
    }

    /** `contextResize (fd * 2)` when the descriptor has no context yet. */
    function Grown(fd: nat): Table {
      if fd < |ctxs| then this
      else this.(ctxs := ctxs + seq(2 * fd - |ctxs|, _ => EMPTY_CONTEXT))
    }

    function Added(fd: nat, e: Event, w: Task): Table
      requires fd < |ctxs|
    {
      var fc := ctxs[fd].With(e, SlotFor(w));
      Table(ctxs[fd := fc], pending + 1, epoll[fd := fc.events])
    }

    /** Events removed from a descriptor; `spare` is what stays registered besides the rest. */
    function Removed(fd: nat, es: set<Event>, spare: set<Event>): Table
      requires fd < |ctxs|
    {
      var fc := ctxs[fd].Without(es);
      Table(ctxs[fd := fc], pending - |es|, if fc.events == {} then epoll - {fd} else epoll[fd := spare + fc.events])
    }
  }

  const INITIAL := Table(seq(32, _ => EMPTY_CONTEXT), 0, map[])

  function TotalBits(ctxs: seq<FdContext>): nat {
    if ctxs == [] then 0 else TotalBits(ctxs[..|ctxs| - 1]) + |ctxs[|ctxs| - 1].events|
  }

  lemma {:induction false} TotalBitsUpdate(ctxs: seq<FdContext>, fd: nat, fc: FdContext)
    requires fd < |ctxs|
    ensures TotalBits(ctxs[fd := fc]) == TotalBits(ctxs) - |ctxs[fd].events| + |fc.events|
  {
    var n := |ctxs| - 1;
    if fd == n {
      assert ctxs[fd := fc][..n] == ctxs[..n];
    } else {
      assert ctxs[fd := fc][..n] == ctxs[..n][fd := fc];
      TotalBitsUpdate(ctxs[..n], fd, fc);
    }
  }

  lemma {:induction false} TotalBitsGrow(ctxs: seq<FdContext>, n: nat)
    ensures TotalBits(ctxs + seq(n, _ => EMPTY_CONTEXT)) == TotalBits(ctxs)
  {
    var pad := seq(n, _ => EMPTY_CONTEXT);
    if n == 0 {
      assert ctxs + pad == ctxs;
    } else {
      assert (ctxs + pad)[..|ctxs| + n - 1] == ctxs + seq(n - 1, _ => EMPTY_CONTEXT);
      TotalBitsGrow(ctxs, n - 1);
    }
  }

  /** A descriptor with no event contributes nothing; with no pending event at all, every slot is
      empty and the kernel watches nothing. */
  lemma {:induction false} NoBitsNoEvents(ctxs: seq<FdContext>, fd: nat)
    requires fd < |ctxs| && TotalBits(ctxs) == 0
    ensures ctxs[fd].events == {}
  {
    if fd < |ctxs| - 1 {
      NoBitsNoEvents(ctxs[..|ctxs| - 1], fd);
    }
  }

  lemma InitialInv()
    ensures INITIAL.Inv()
  {
    assert [] + seq(32, _ => EMPTY_CONTEXT) == INITIAL.ctxs;
    TotalBitsGrow([], 32);
  }

  lemma GrownInv(t: Table, fd: nat)
    requires t.Inv()
    ensures t.Grown(fd).Inv() && fd < |t.Grown(fd).ctxs| == if fd < |t.ctxs| then |t.ctxs| else 2 * fd
    ensures forall g: nat :: t.Grown(fd).Events(g) == t.Events(g)
  {
    if fd >= |t.ctxs| {
      TotalBitsGrow(t.ctxs, 2 * fd - |t.ctxs|);
      assert forall g: nat :: t.KernelMirrors(g) ==> t.Grown(fd).KernelMirrors(g);
    }
  }

  lemma WithAgrees(fc: FdContext, e: Event, w: Task)
    requires fc.SlotsAgree() && e !in fc.events
    ensures fc.Slot(e) == EMPTY_SLOT
    ensures fc.With(e, SlotFor(w)).SlotsAgree() && |fc.With(e, SlotFor(w)).events| == |fc.events| + 1
  {
  }

  lemma WithoutAgrees(fc: FdContext, es: set<Event>)
    requires fc.SlotsAgree() && es <= fc.events
    ensures fc.Without(es).SlotsAgree() && |fc.Without(es).events| == |fc.events| - |es|
    ensures forall e :: e in es ==> fc.Slot(e).Waiter().Some?
  {
  }

  /** Removing events one after the other, READ first, is removing them together. */
  lemma WithoutSteps(fc: FdContext, es: set<Event>)
    requires fc.SlotsAgree() && es <= fc.events
    ensures |es| == (if READ in es then 1 else 0) + (if WRITE in es then 1 else 0)
    ensures var first := if READ in es then fc.Without({READ}) else fc;
            && first.SlotsAgree() && (WRITE in es ==> WRITE in first.events)
            && fc.Without(es) == (if WRITE in es then first.Without({WRITE}) else first)
            && fc.Waiters(es) == (if READ in es then fc.Waiters({READ}) else []) +
                                 (if WRITE in es then first.Waiters({WRITE}) else [])
  {
    if READ in es { WithoutAgrees(fc, {READ}); }
    if READ in es && WRITE in es {
      assert es == {READ, WRITE};
    } else if READ in es {
      assert es == {READ};
    } else if WRITE in es {
      assert es == {WRITE};
    } else {
      assert es == {};
    }
  }

  /** A change at one descriptor keeps the table consistent if the descriptor's own parts agree. */
  lemma UpdateInv(t: Table, t': Table, fd: nat)
    requires t.Inv() && fd < |t.ctxs| == |t'.ctxs| && t'.ctxs == t.ctxs[fd := t'.ctxs[fd]]
    requires t'.ctxs[fd].SlotsAgree()
    requires t'.pending == t.pending - |t.ctxs[fd].events| + |t'.ctxs[fd].events|
    requires t'.KernelMirrors(fd)
    requires forall g: nat :: g != fd ==>
               (g in t'.epoll) == (g in t.epoll) && (g in t.epoll ==> t'.epoll[g] == t.epoll[g])
    ensures t'.Inv()
  {
    TotalBitsUpdate(t.ctxs, fd, t'.ctxs[fd]);
    forall g: nat
      ensures t'.KernelMirrors(g)
    {
      assert t.KernelMirrors(g);
    }
  }

  /** Registering a waiter where the bit is clear finds a clean slot and keeps the table consistent. */
  lemma AddedInv(t: Table, fd: nat, e: Event, w: Task)
    requires t.Inv() && fd < |t.ctxs| && e !in t.ctxs[fd].events
    ensures t.ctxs[fd].Slot(e) == EMPTY_SLOT
    ensures t.Added(fd, e, w).Inv()
  {
    WithAgrees(t.ctxs[fd], e, w);
    UpdateInv(t, t.Added(fd, e, w), fd);
  }

  /** Removing set bits keeps the table consistent, and each of them had a task to wake. */
  lemma RemovedInv(t: Table, fd: nat, es: set<Event>, spare: set<Event>)
    requires t.Inv() && fd < |t.ctxs| && es <= t.ctxs[fd].events && spare <= {READ}
    ensures forall e :: e in es ==> t.ctxs[fd].Slot(e).Waiter().Some?
    ensures t.Removed(fd, es, spare).Inv()
  {
    WithoutAgrees(t.ctxs[fd], es);
    UpdateInv(t, t.Removed(fd, es, spare), fd);
  }

  /** The new waiter stands in the slot of its event; the other slot and every other descriptor are as
      before, and the kernel watches the new event as well. */
  lemma AddedWaits(t: Table, fd: nat, e: Event, w: Task)
    requires t.Inv() && e !in t.Events(fd) && fd < |t.Grown(fd).ctxs|
    ensures var t' := t.Grown(fd).Added(fd, e, w);
            var slot := if w.Fib? then EventContext(true, Some(w.id), None) else EventContext(true, None, Some(w.id));
            var was := if fd < |t.ctxs| then t.ctxs[fd] else EMPTY_CONTEXT;
            && |t.ctxs| <= |t'.ctxs| && t'.pending == t.pending + 1
            && t'.ctxs[fd].events == was.events + {e} && t'.epoll == t.epoll[fd := was.events + {e}]
            && t'.ctxs[fd].read == (if e == READ then slot else was.read)
            && t'.ctxs[fd].write == (if e == WRITE then slot else was.write)
            && forall g: nat :: g < |t'.ctxs| && g != fd ==>
                 t'.ctxs[g] == if g < |t.ctxs| then t.ctxs[g] else EMPTY_CONTEXT
  {
    hide Table.Inv;
  }

  /** Only the removed events are gone, with their slots; what is still wanted keeps its waiter, every other
      descriptor is as before, and the kernel goes on watching what is wanted, and `spare` besides if
      anything is. */
  lemma RemovedWaits(t: Table, fd: nat, es: set<Event>, spare: set<Event>)
    requires fd < |t.ctxs|
    ensures var t', was := t.Removed(fd, es, spare), t.ctxs[fd];
            var left := was.events - es;
            && |t'.ctxs| == |t.ctxs| && t'.pending == t.pending - |es|
            && t'.ctxs[fd].events == left
            && t'.epoll == (if left == {} then t.epoll - {fd} else t.epoll[fd := left + spare])
            && t'.ctxs[fd].read == (if READ in es then EMPTY_SLOT else was.read)
            && t'.ctxs[fd].write == (if WRITE in es then EMPTY_SLOT else was.write)
            && forall g: nat :: g < |t.ctxs| && g != fd ==> t'.ctxs[g] == t.ctxs[g]
  {
    var left := t.ctxs[fd].events - es;
    assert spare + left == left + spare;
  }

  lemma AfterRemoval(fc: FdContext, es: set<Event>)
    ensures fc.Without(es).events == fc.events - es
  {
  }

  /** The epoll control operations. */
  datatype CtlOp = CtlAdd | CtlMod | CtlDel

  /** What `epoll_wait` reports for one descriptor. */
  datatype Report = Report(input: bool, output: bool, errorOrHangup: bool)

  /** Lines 307-316 of the event loop: the events a report stands for. */
  function RealEvents(r: Report, events: set<Event>): set<Event> {
    (if r.input || (r.errorOrHangup && READ in events) then {READ} else {}) +
    (if r.output || (r.errorOrHangup && WRITE in events) then {WRITE} else {})
  }

  /** What a report that fires does to the waiters `fc` of its descriptor: a wanted event that has its own
      flag, and with an error or hang-up every wanted event, is no longer wanted and its waiter is
      scheduled, the reader first. `left` is what is still wanted. */
  ghost predicate Serves(fc: FdContext, r: Report, left: set<Event>, before: seq<Task>, after: seq<Task>) {
    var read := READ in fc.events && (r.input || r.errorOrHangup);
    var write := WRITE in fc.events && (r.output || r.errorOrHangup);
    && (READ in left <==> READ in fc.events && !read) && (WRITE in left <==> WRITE in fc.events && !write)
    && (read ==> fc.read.Waiter().Some?) && (write ==> fc.write.Waiter().Some?)
    && after == before + (if read then [fc.read.Waiter().value] else [])
                       + (if write then [fc.write.Waiter().value] else [])
  }

  lemma FiredServes(fc: FdContext, r: Report, before: seq<Task>)
    requires fc.SlotsAgree() && RealEvents(r, fc.events) <= fc.events
    ensures var hit := RealEvents(r, fc.events); Serves(fc, r, fc.events - hit, before, before + fc.Waiters(hit))
  {
    var hit := RealEvents(r, fc.events);
    if READ in hit { SlotWaits(fc, READ); }
    if WRITE in hit { SlotWaits(fc, WRITE); }
    hide EventContext.Waiter;
    WaitersInOrder(fc, hit, before);
  }

  lemma WaitersInOrder(fc: FdContext, es: set<Event>, before: seq<Task>)
    requires READ in es ==> fc.read.Waiter().Some?
    requires WRITE in es ==> fc.write.Waiter().Some?
    ensures before + fc.Waiters(es) == before + (if READ in es then [fc.read.Waiter().value] else [])
                                              + (if WRITE in es then [fc.write.Waiter().value] else [])
  {
    hide EventContext.Waiter;
  }

  /** An error or hang-up reports everything that is wanted. */
  lemma ErrorReportsAll(events: set<Event>, r: Report)
    requires r.errorOrHangup
    ensures events <= RealEvents(r, events) && events * RealEvents(r, events) == events
  {
    forall e | e in events
      ensures e in RealEvents(r, events)
    {
      assert e == READ || e == WRITE;
    }
  }

  lemma SlotWaits(fc: FdContext, e: Event)
    requires fc.SlotsAgree() && e in fc.events
    ensures fc.Slot(e).Waiter().Some?
  {
  }

  datatype ReadyOutcome = Ignored | Refused | Aborted | Fired

  /** The outcome of one iteration of the event loop. `Aborted` is the failing assertion of
      `triggerEvent`: a reported event whose bit is clear while another reported bit is set. */
  function ReadyResult(events: set<Event>, hit: set<Event>, refuses: bool): ReadyOutcome {
    if events * hit == {} then Ignored
    else if refuses then Refused
    else if hit <= events then Fired
    else Aborted
  }

  /** `IOManager` with the kernel's epoll instance and the calls it makes to the scheduler. */
  class IOManager {
    var fdContexts: seq<FdContext>
    var pendingEventCount: int
    var epoll: map<nat, set<Event>>
    var scheduled: seq<Task>

    ghost function Model(): Table
      reads this
    {
      Table(fdContexts, pendingEventCount, epoll)
    }

    constructor ()
      ensures Model() == INITIAL && Model().Inv() && scheduled == []
    {
      fdContexts, pendingEventCount, epoll, scheduled := seq(32, _ => EMPTY_CONTEXT), 0, map[], [];
      new;
      InitialInv();
    }

    /** The kernel: refuses an illegal operation, and may refuse a legal one for its own reasons. */
    method EpollCtl(op: CtlOp, fd: nat, mask: set<Event>, refuses: bool) returns (rt: int)
      modifies `epoll
      ensures rt == 0 <==> !refuses && (fd in old(epoll) <==> op != CtlAdd)
      ensures rt != 0 ==> epoll == old(epoll)
      ensures rt == 0 ==> epoll == if op == CtlDel then old(epoll) - {fd} else old(epoll)[fd := mask]
    {
      if refuses || (op == CtlAdd) == (fd in epoll) { return -1; }
      epoll := if op == CtlDel then epoll - {fd} else epoll[fd := mask];
      rt := 0;
    }

    /** `contextResize`: a smaller size cuts contexts off, a larger one adds empty ones. */
    method ContextResize(size: nat)
      modifies `fdContexts
      ensures fdContexts == if size <= |old(fdContexts)| then old(fdContexts)[..size]
                            else old(fdContexts) + seq(size - |old(fdContexts)|, _ => EMPTY_CONTEXT)
    {
      if size < |fdContexts| {
        fdContexts := fdContexts[..size];
        return;
      }
      ghost var before := fdContexts;
      var i := |fdContexts|;
      while i < size
        invariant |before| <= i <= size
        invariant fdContexts == before + seq(i - |before|, _ => EMPTY_CONTEXT)
      {
        fdContexts := fdContexts + [EMPTY_CONTEXT];
        i := i + 1;
      }
    }

    /** `triggerEvent`: clear the bit and move the waiter out of its slot into the scheduler. */
    method TriggerEvent(fd: nat, e: Event)
      requires fd < |fdContexts| && e in fdContexts[fd].events
      requires fdContexts[fd].SlotsAgree()
      modifies `fdContexts, `scheduled
      ensures fdContexts == old(fdContexts)[fd := old(fdContexts)[fd].Without({e})]
      ensures scheduled == old(scheduled) + old(fdContexts)[fd].Waiters({e})
    {
      var fc := fdContexts[fd];
      var ctx := fc.Slot(e);
      if ctx.cb.Some? {
        scheduled := scheduled + [Cb(ctx.cb.value)];
        ctx := ctx.(cb := None);
      } else {
        scheduled := scheduled + [Fib(ctx.fiber.value)];
        ctx := ctx.(fiber := None);
      }
      ctx := ctx.(scheduler := false);
      fc := if e == READ then FdContext(fc.events - {e}, ctx, fc.write) else FdContext(fc.events - {e}, fc.read, ctx);
      fdContexts := fdContexts[fd := fc];
    }

    /** `addEvent`. The caller must not already be waiting for this event of this descriptor. */
    method AddEvent(fd: nat, e: Event, w: Task, refuses: bool) returns (rt: int)
      requires Model().Inv() && e !in Model().Events(fd)
      modifies this
      ensures Model().Inv() && scheduled == old(scheduled)
      ensures rt == if refuses then -1 else 0
      ensures Model() == if refuses then old(Model()).Grown(fd) else old(Model()).Grown(fd).Added(fd, e, w)
    {
      hide FdContext.SlotsAgree, TotalBits;
      GrownInv(Model(), fd);
      if |fdContexts| <= fd {
        ContextResize(fd * 2);
      }
      ghost var t := Model();
      assert t == old(Model()).Grown(fd) && t.KernelMirrors(fd);
      AddedInv(t, fd, e, w);
      var fc := fdContexts[fd];
      var op := if fc.events != {} then CtlMod else CtlAdd;
      var rc := EpollCtl(op, fd, fc.events + {e}, refuses);
      if rc != 0 { return -1; }
      pendingEventCount := pendingEventCount + 1;
      assert fc.Slot(e) == EMPTY_SLOT;
      var slot := fc.Slot(e).(scheduler := true);
      slot := match w case Fib(f) => slot.(fiber := Some(f)) case Cb(c) => slot.(cb := Some(c));
      fdContexts := fdContexts[fd := fc.With(e, slot)];
      rt := 0;
    }

    /** `delEvent`: forget the waiter without waking it. */
    method DelEvent(fd: nat, e: Event, refuses: bool) returns (ok: bool)
      requires Model().Inv()
      modifies `fdContexts, `pendingEventCount, `epoll
      ensures Model().Inv()
      ensures ok <==> e in old(Model()).Events(fd) && !refuses
      ensures Model() == if ok then old(Model()).Removed(fd, {e}, {READ}) else old(Model())
    {
      hide FdContext.SlotsAgree, TotalBits;
      if |fdContexts| <= fd || e !in fdContexts[fd].events { return false; }
      assert Model().KernelMirrors(fd);
      RemovedInv(Model(), fd, {e}, {READ});
      var left := fdContexts[fd].events - {e};
      var rc := EpollCtl(if left != {} then CtlMod else CtlDel, fd, {READ} + left, refuses);
      if rc != 0 { return false; }
      pendingEventCount := pendingEventCount - 1;
      fdContexts := fdContexts[fd := fdContexts[fd].Without({e})];
      ok := true;
      assert Model() == old(Model()).Removed(fd, {e}, {READ});
    }

    /** `cancelEvent`: remove the event and wake its waiter. */
    method CancelEvent(fd: nat, e: Event, refuses: bool) returns (ok: bool)
      requires Model().Inv()
      modifies this
      ensures Model().Inv()
      ensures ok <==> e in old(Model()).Events(fd) && !refuses
      ensures Model() == if ok then old(Model()).Removed(fd, {e}, {READ}) else old(Model())
      ensures scheduled == old(scheduled) + if ok then old(fdContexts)[fd].Waiters({e}) else []
    {
      hide FdContext.SlotsAgree, TotalBits;
      if |fdContexts| <= fd || e !in fdContexts[fd].events { return false; }
      assert Model().KernelMirrors(fd);
      RemovedInv(Model(), fd, {e}, {READ});
      var left := fdContexts[fd].events - {e};
      var rc := EpollCtl(if left != {} then CtlMod else CtlDel, fd, {READ} + left, refuses);
      if rc != 0 { return false; }
      pendingEventCount := pendingEventCount - 1;
      TriggerEvent(fd, e);
      ok := true;
      assert Model() == old(Model()).Removed(fd, {e}, {READ});
    }

    /** The tail shared by `cancelAll` and the event loop: trigger READ, then WRITE. */
    method TriggerAll(fd: nat, es: set<Event>)
      requires fd < |fdContexts| && es <= fdContexts[fd].events && fdContexts[fd].SlotsAgree()
      modifies `fdContexts, `scheduled, `pendingEventCount
      ensures fdContexts == old(fdContexts)[fd := old(fdContexts)[fd].Without(es)]
      ensures scheduled == old(scheduled) + old(fdContexts)[fd].Waiters(es)
      ensures pendingEventCount == old(pendingEventCount) - |es|
    {
      hide FdContext.Without, FdContext.Waiters, FdContext.SlotsAgree;
      WithoutSteps(fdContexts[fd], es);
      if READ in es {
        TriggerEvent(fd, READ);
        pendingEventCount := pendingEventCount - 1;
      }
      if WRITE in es {
        TriggerEvent(fd, WRITE);
        pendingEventCount := pendingEventCount - 1;
      }
    }

    /** `cancelAll`: remove and wake everything waiting on a descriptor. */
    method CancelAll(fd: nat, refuses: bool) returns (ok: bool)
      requires Model().Inv()
      modifies this
      ensures Model().Inv()
      ensures ok <==> old(Model()).Events(fd) != {} && !refuses
      ensures Model() == if ok then old(Model()).Removed(fd, old(Model()).Events(fd), {}) else old(Model())
      ensures scheduled == old(scheduled) + if ok then old(fdContexts)[fd].Waiters(old(Model()).Events(fd)) else []
      ensures ok ==> fdContexts[fd].events == {}
    {
      if |fdContexts| <= fd || fdContexts[fd].events == {} { return false; }
      assert Model().KernelMirrors(fd);
      RemovedInv(Model(), fd, fdContexts[fd].events, {});
      var rc := EpollCtl(CtlDel, fd, {}, refuses);
      if rc != 0 { return false; }
      TriggerAll(fd, fdContexts[fd].events);
      ok := true;
      assert Model() == old(Model()).Removed(fd, old(Model()).Events(fd), {});
    }

    /** One iteration of the loop of `idle` over the reported descriptors. */
    method HandleReady(fd: nat, report: Report, refuses: bool) returns (o: ReadyOutcome)
      requires Model().Inv() && fd < |fdContexts|
      modifies this
      ensures o == ReadyResult(old(Model()).Events(fd), RealEvents(report, old(Model()).Events(fd)), refuses)
      ensures o.Fired? ==> Model() == old(Model()).Removed(fd, RealEvents(report, old(Model()).Events(fd)), {})
      ensures o.Fired? ==>
                scheduled == old(scheduled) + old(fdContexts)[fd].Waiters(RealEvents(report, old(Model()).Events(fd)))
      ensures o.Ignored? || o.Refused? ==> Model() == old(Model()) && scheduled == old(scheduled)
      ensures o.Fired? ==> Serves(old(fdContexts)[fd], report, fdContexts[fd].events, old(scheduled), scheduled)
      ensures report.errorOrHangup && !o.Aborted? && !o.Refused? ==> fdContexts[fd].events == {}
      ensures !o.Aborted? ==> Model().Inv()
    {
      hide FdContext.SlotsAgree, FdContext.Without, FdContext.Waiters, TotalBits;
      var fc := fdContexts[fd];
      assert Model().KernelMirrors(fd) && fc.SlotsAgree();
      hide Table.Inv;
      var hit := RealEvents(report, fc.events);
      hide RealEvents, Serves;
      if report.errorOrHangup { ErrorReportsAll(fc.events, report); }
      if fc.events * hit == {} { return Ignored; }
      var left := fc.events - hit;
      assert {} + left == left;
      var rc := EpollCtl(if left != {} then CtlMod else CtlDel, fd, left, refuses);
      if rc != 0 { return Refused; }
      if !(hit <= fc.events) { return Aborted; }
      RemovedInv(old(Model()), fd, hit, {});
      TriggerAll(fd, hit);
      o := Fired;
      AfterRemoval(old(fdContexts)[fd], hit);
      FiredServes(fc, report, old(scheduled));
      assert Model() == old(Model()).Removed(fd, hit, {});
    }
  }

  /** When the kernel watches exactly the wanted events, no report it makes from that mask aborts. */
  lemma ExactMaskNeverAborts(t: Table, fd: nat, report: Report, refuses: bool)
    requires t.Inv() && fd in t.epoll && t.epoll[fd] == t.Events(fd) && InMask(report, t.epoll[fd])
    ensures !ReadyResult(t.Events(fd), RealEvents(report, t.Events(fd)), refuses).Aborted?
  {
  }

  /** A report the kernel can make while it watches the mask. */
  predicate InMask(report: Report, mask: set<Event>) {
    (report.input ==> READ in mask) && (report.output ==> WRITE in mask)
  }

  /** An exact mask does not protect a report fetched before it changed: one worker fetches input and
      output, another serves the input, and the first then finds only the output wanted. */
  lemma StaleReportAborts(fd: nat, reader: Task, writer: Task)
    requires fd < 32
    ensures var before := INITIAL.Added(fd, READ, reader).Added(fd, WRITE, writer);
            var served := before.Removed(fd, RealEvents(Report(true, false, false), before.Events(fd)), {});
            var report := Report(true, true, false);
            && before.Inv() && before.epoll[fd] == before.Events(fd) && InMask(report, before.epoll[fd])
            && served.Inv() && served.epoll[fd] == served.Events(fd)
            && ReadyResult(served.Events(fd), RealEvents(report, served.Events(fd)), false).Aborted?
  {
    InitialInv();
    AddedInv(INITIAL, fd, READ, reader);
    AddedInv(INITIAL.Added(fd, READ, reader), fd, WRITE, writer);
    RemovedInv(INITIAL.Added(fd, READ, reader).Added(fd, WRITE, writer), fd, {READ}, {});
    assert RealEvents(Report(true, false, false), {READ, WRITE}) == {READ};
  }

  /** A spare READ registration left by a cancel lets the kernel make an aborting report: two
      waiters are added, the reader is cancelled, and the descriptor becomes readable and writable. */
  lemma SpareInterestAborts(fd: nat, reader: Task, writer: Task)
    requires fd < 32
    ensures var t := INITIAL.Added(fd, READ, reader).Added(fd, WRITE, writer).Removed(fd, {READ}, {READ});
            && t.Inv() && t.epoll[fd] == {READ, WRITE}
            && ReadyResult(t.Events(fd), RealEvents(Report(true, true, false), t.Events(fd)), false).Aborted?
  {
    InitialInv();
    AddedInv(INITIAL, fd, READ, reader);
    AddedInv(INITIAL.Added(fd, READ, reader), fd, WRITE, writer);
    RemovedInv(INITIAL.Added(fd, READ, reader).Added(fd, WRITE, writer), fd, {READ}, {READ});
  }

  /** A report aborts exactly when the kernel accepts the change and the report names a wanted
      event together with an unwanted one. */
  lemma AbortsIff(events: set<Event>, report: Report, refuses: bool)
    ensures ReadyResult(events, RealEvents(report, events), refuses).Aborted?
        <==> !refuses && (
               || (report.input && READ !in events && WRITE in events && (report.output || report.errorOrHangup))
               || (report.output && WRITE !in events && READ in events && (report.input || report.errorOrHangup)))
  {
  }

  // ----- Whole runs of the table -----

  /** A call on the table, and whether the kernel refuses its control operation. A descriptor is
      reported only while the kernel watches it. */
  datatype Call =
    | Add(fd: nat, e: Event, w: Task, refuses: bool)
    | Delete(fd: nat, e: Event, refuses: bool)
    | Cancel(fd: nat, e: Event, refuses: bool)
    | CancelEvery(fd: nat, refuses: bool)
    | Ready(fd: nat, report: Report, refuses: bool)

  lemma WaitersCount(t: Table, fd: nat, es: set<Event>)
    requires t.Inv() && fd < |t.ctxs| && es <= t.ctxs[fd].events
    ensures |t.ctxs[fd].Waiters(es)| == |es|
  {
    WithoutSteps(t.ctxs[fd], es);
  }

  lemma MirroredHasContext(t: Table, fd: nat)
    requires t.Inv() && fd in t.epoll
    ensures fd < |t.ctxs|
  {
    assert t.KernelMirrors(fd);
  }

  /** The assertions a call can fail: a second waiter for the same event, and an aborting report. */
  predicate Asserts(t: Table, c: Call) {
    match c
    case Add(fd, e, _, _) => e in t.Events(fd)
    case Ready(fd, report, refuses) =>
      fd in t.epoll && ReadyResult(t.Events(fd), RealEvents(report, t.Events(fd)), refuses).Aborted?
    case _ => false
  }

  /** The table after a call that fails no assertion, and the tasks it schedules. */
  function Applied(t: Table, c: Call): (Table, seq<Task>) {
    match c
    case Add(fd, e, w, refuses) =>
      var g := t.Grown(fd);
      if refuses || fd >= |g.ctxs| then (g, []) else (g.Added(fd, e, w), [])
    case Delete(fd, e, refuses) =>
      if refuses || e !in t.Events(fd) then (t, []) else (t.Removed(fd, {e}, {READ}), [])
    case Cancel(fd, e, refuses) =>
      if refuses || e !in t.Events(fd) then (t, []) else (t.Removed(fd, {e}, {READ}), t.ctxs[fd].Waiters({e}))
    case CancelEvery(fd, refuses) =>
      if refuses || t.Events(fd) == {} then (t, [])
      else (t.Removed(fd, t.Events(fd), {}), t.ctxs[fd].Waiters(t.Events(fd)))
    case Ready(fd, report, refuses) =>
      var hit := RealEvents(report, t.Events(fd));
      if fd !in t.epoll || !ReadyResult(t.Events(fd), hit, refuses).Fired? then (t, [])
      else (t.Removed(fd, hit, {}), t.ctxs[fd].Waiters(hit))
  }

  /** The same for calls one after the other. */
  function AllApplied(t: Table, calls: seq<Call>): (Table, seq<Task>) {
    if calls == [] then (t, [])
    else
      var first := AllApplied(t, calls[..|calls| - 1]);
      var last := Applied(first.0, calls[|calls| - 1]);
      (last.0, first.1 + last.1)
  }

  /** How many waiters a call adds, and how many it deletes. */
  function Adds(c: Call): nat { if c.Add? && !c.refuses then 1 else 0 }

  function Deletes(t: Table, c: Call): nat { if c.Delete? && !c.refuses && c.e in t.Events(c.fd) then 1 else 0 }

  function AddedIn(calls: seq<Call>): nat {
    if calls == [] then 0 else AddedIn(calls[..|calls| - 1]) + Adds(calls[|calls| - 1])
  }

  function DeletedIn(t: Table, calls: seq<Call>): nat {
    if calls == [] then 0
    else
      var front := calls[..|calls| - 1];
      DeletedIn(t, front) + Deletes(AllApplied(t, front).0, calls[|calls| - 1])
  }

  /** A call keeps the table consistent, and the waiters are conserved. */
  lemma AppliedInv(t: Table, c: Call)
    requires t.Inv() && !Asserts(t, c)
    ensures var r := Applied(t, c);
            && r.0.Inv()
            && |r.1| + r.0.pending + Deletes(t, c) == t.pending + Adds(c)
  {
    hide Table.Inv, Table.Grown, Table.Added, Table.Removed, FdContext.Waiters;
    match c
    case Add(fd, e, w, refuses) =>
      GrownAdds(t, fd, e, w);
    case Delete(fd, e, refuses) =>
      if e in t.Events(fd) { RemovedCounts(t, fd, {e}, {READ}); }
    case Cancel(fd, e, refuses) =>
      if e in t.Events(fd) { RemovedCounts(t, fd, {e}, {READ}); }
    case CancelEvery(fd, refuses) =>
      if t.Events(fd) != {} { RemovedCounts(t, fd, t.Events(fd), {}); }
    case Ready(fd, report, refuses) =>
      var hit := RealEvents(report, t.Events(fd));
      hide RealEvents;
      if fd in t.epoll && ReadyResult(t.Events(fd), hit, refuses).Fired? {
        MirroredHasContext(t, fd);
        RemovedCounts(t, fd, hit, {});
      }
  }

  lemma GrownAdds(t: Table, fd: nat, e: Event, w: Task)
    requires t.Inv() && e !in t.Events(fd)
    ensures fd < |t.Grown(fd).ctxs| && t.Grown(fd).Inv() && t.Grown(fd).pending == t.pending
    ensures t.Grown(fd).Added(fd, e, w).Inv() && t.Grown(fd).Added(fd, e, w).pending == t.pending + 1
  {
    hide Table.Inv, FdContext.With;
    GrownInv(t, fd);
    assert t.Grown(fd).ctxs[fd].events == t.Grown(fd).Events(fd);
    AddedInv(t.Grown(fd), fd, e, w);
  }

  lemma RemovedCounts(t: Table, fd: nat, es: set<Event>, spare: set<Event>)
    requires t.Inv() && fd < |t.ctxs| && es <= t.ctxs[fd].events && spare <= {READ}
    ensures t.Removed(fd, es, spare).Inv() && t.Removed(fd, es, spare).pending == t.pending - |es|
    ensures |t.ctxs[fd].Waiters(es)| == |es|
  {
    hide Table.Inv, FdContext.Waiters, FdContext.Without;
    RemovedInv(t, fd, es, spare);
    WaitersCount(t, fd, es);
  }

  /** None of the calls fails an assertion. */
  ghost predicate Passes(t: Table, calls: seq<Call>) {
    forall i :: 0 <= i < |calls| ==> !Asserts(AllApplied(t, calls[..i]).0, calls[i])
  }

  /** Over any such sequence the table stays consistent, and every waiter added was deleted, was
      scheduled or is still counted as pending. */
  lemma {:induction false} AllAppliedInv(t: Table, calls: seq<Call>)
    requires t.Inv() && Passes(t, calls)
    ensures var r := AllApplied(t, calls);
            && r.0.Inv()
            && |r.1| + r.0.pending + DeletedIn(t, calls) == t.pending + AddedIn(calls)
  {
    if calls != [] {
      var front, c := calls[..|calls| - 1], calls[|calls| - 1];
      assert forall i :: 0 <= i < |front| ==> front[..i] == calls[..i];
      AllAppliedInv(t, front);
      hide Applied, Asserts, Adds, Deletes;
      var now := AllApplied(t, front).0;
      AppliedInv(now, c);
    }
  }

  /** One call on the object has exactly that effect. */
  method Perform(m: IOManager, c: Call)
    requires m.Model().Inv() && !Asserts(m.Model(), c)
    modifies m
    ensures m.Model() == Applied(old(m.Model()), c).0 && m.Model().Inv()
    ensures m.scheduled == old(m.scheduled) + Applied(old(m.Model()), c).1
  {
    hide Table.Inv, FdContext.Waiters;
    ghost var t := m.Model();
    AppliedInv(t, c);
    match c {
      case Add(fd, e, w, refuses) =>
        GrownInv(t, fd);
        var _ := m.AddEvent(fd, e, w, refuses);
      case Delete(fd, e, refuses) =>
        var _ := m.DelEvent(fd, e, refuses);
      case Cancel(fd, e, refuses) =>
        var _ := m.CancelEvent(fd, e, refuses);
      case CancelEvery(fd, refuses) =>
        var _ := m.CancelAll(fd, refuses);
      case Ready(fd, report, refuses) =>
        if fd in m.epoll {
          MirroredHasContext(t, fd);
          var _ := m.HandleReady(fd, report, refuses);
        }
    }
  }

  /** Any sequence of calls on the object, up to the first failing assertion. */
  method PerformAll(m: IOManager, calls: seq<Call>) returns (n: nat)
    requires m.Model().Inv()
    modifies m
    ensures n <= |calls| && Passes(old(m.Model()), calls[..n])
    ensures n < |calls| ==> Asserts(m.Model(), calls[n])
    ensures m.Model() == AllApplied(old(m.Model()), calls[..n]).0 && m.Model().Inv()
    ensures m.scheduled == old(m.scheduled) + AllApplied(old(m.Model()), calls[..n]).1
    ensures |m.scheduled| + m.pendingEventCount + DeletedIn(old(m.Model()), calls[..n])
         == old(|m.scheduled| + m.pendingEventCount) + AddedIn(calls[..n])
  {
    hide Applied, Asserts, Table.Inv;
    ghost var t := m.Model();
    n := 0;
    while n < |calls| && !Asserts(Table(m.fdContexts, m.pendingEventCount, m.epoll), calls[n])
      invariant m.Model().Inv() && n <= |calls| && Passes(t, calls[..n])
      invariant m.Model() == AllApplied(t, calls[..n]).0
      invariant m.scheduled == old(m.scheduled) + AllApplied(t, calls[..n]).1
    {
      PassesMore(t, calls, n);
      Perform(m, calls[n]);
      n := n + 1;
    }
    AllAppliedInv(t, calls[..n]);
  }

  lemma PassesMore(t: Table, calls: seq<Call>, n: nat)
    requires n < |calls| && Passes(t, calls[..n]) && !Asserts(AllApplied(t, calls[..n]).0, calls[n])
    ensures Passes(t, calls[..n + 1])
    ensures var before, last := AllApplied(t, calls[..n]), Applied(AllApplied(t, calls[..n]).0, calls[n]);
            AllApplied(t, calls[..n + 1]) == (last.0, before.1 + last.1)
  {
    hide Applied, Asserts;
    var more := calls[..n + 1];
    assert more[..n] == calls[..n];
    forall i | 0 <= i < |more|
      ensures !Asserts(AllApplied(t, more[..i]).0, more[i])
    {
      if i < n {
        assert calls[..n][..i] == more[..i] && calls[..n][i] == more[i];
      }
    }
  }
}
