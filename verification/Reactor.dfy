/** `IOManager` and `Scheduler` at work together: each call on the event table, with the scheduling it
    causes, is one step of the protocol in `Runtime`. */
module Reactor {
  import opened Bytes
  import opened EventTable
  import opened Runtime
  import opened SchedulerLoop

  /** Both objects show the same protocol state, and it satisfies the invariant. */
  ghost predicate Linked(m: IOManager, sch: Scheduler)
    reads m, sch
  {
    sch.Valid() && m.Model() == sch.model.table
  }

  /** The fields of the scheduler follow the protocol when only its table, its queue and the
      bookkeeping change. */
  ghost predicate Queued(s: State, s': State, tasks: seq<Task>) {
    && s'.fibers == s.fibers && s'.workers == s.workers && s'.active == s.active
    && s'.queue == s.queue + Entries(tasks)
  }

  /** `schedule` of each task that was triggered. */
  method Deliver(m: IOManager, sch: Scheduler, from: nat, ghost s': State)
    requires sch.Agrees() && from <= |m.scheduled| && Queued(sch.model, s', m.scheduled[from..])
    modifies sch
    ensures sch.Agrees() && sch.model == s'
  {
    hide SameCbFibers;
    ghost var before := sch.fibers;
    var i := from;
    assert m.scheduled[from..from] == [] && before + Entries([]) == before;
    while i < |m.scheduled|
      invariant from <= i <= |m.scheduled|
      invariant sch.fibers == before + Entries(m.scheduled[from..i])
      invariant sch.state == old(sch.state) && sch.activeThreadCount == old(sch.activeThreadCount)
      invariant sch.cbFiber == old(sch.cbFiber) && sch.model == old(sch.model)
    {
      EntriesNext(m.scheduled, from, i);
      sch.fibers := sch.fibers + [Entry(m.scheduled[i], -1)];
      i := i + 1;
    }
    assert m.scheduled[from..i] == m.scheduled[from..];
    sch.model := s';
  }

  lemma EntriesNext(tasks: seq<Task>, from: nat, i: nat)
    requires from <= i < |tasks|
    ensures Entries(tasks[from..i + 1]) == Entries(tasks[from..i]) + [Entry(tasks[i], -1)]
  {
  }

  /** The running fibre adds its event: the wait step, or nothing but a larger table. */
  method Wait(m: IOManager, sch: Scheduler, w: nat, f: nat, fd: nat, e: Event, refuses: bool) returns (rt: int)
    requires Linked(m, sch) && sch.model.W(w).cur == Some(f) && f !in sch.model.announced
    requires e !in m.Model().Events(fd)
    modifies m, sch
    ensures Linked(m, sch) && rt == if refuses then -1 else 0
    ensures rt == 0 ==> Next(old(sch.model), Step.Wait(w, fd, e)) == Some(sch.model)
    ensures rt != 0 ==> sch.model == old(sch.model).(table := old(sch.model).table.Grown(fd))
  {
    hide Inv, Next, SameCbFibers, Table.Inv, Table.Added, Table.Grown, Queued;
    ghost var s := sch.model;
    TableOk(s);
    GrownInv(s.table, fd);
    WaitStep(s, w, f, fd, e);
    rt := m.AddEvent(fd, e, Fib(f), refuses);
    if rt == 0 {
      sch.model := Next(s, Step.Wait(w, fd, e)).value;
      NextInv(s, Step.Wait(w, fd, e), sch.model);
    } else {
      GrowInv(s, fd);
      sch.model := s.(table := s.table.Grown(fd));
    }
  }

  lemma TableOk(s: State)
    requires Inv(s)
    ensures s.table.Inv()
  {
  }

  lemma WaitStep(s: State, w: nat, f: nat, fd: nat, e: Event)
    requires s.W(w).cur == Some(f) && f !in s.announced && e !in s.table.Events(fd) && fd < |s.table.Grown(fd).ctxs|
    ensures var s' := Next(s, Step.Wait(w, fd, e));
            && s'.Some? && s'.value.table == s.table.Grown(fd).Added(fd, e, Fib(f))
            && s'.value.fibers == s.fibers && s'.value.workers == s.workers && s'.value.active == s.active
            && s'.value.queue == s.queue
  {
  }

  /** `cancelEvent` is the cancel step, or nothing. */
  method Cancel(m: IOManager, sch: Scheduler, fd: nat, e: Event, refuses: bool) returns (ok: bool)
    requires Linked(m, sch)
    modifies m, sch
    ensures Linked(m, sch) && (ok <==> e in old(m.Model()).Events(fd) && !refuses)
    ensures if ok then Next(old(sch.model), Step.Cancel(fd, e)) == Some(sch.model) else sch.model == old(sch.model)
  {
    hide Inv, SameCbFibers, Table.Removed, FdContext.Waiters;
    ghost var s := sch.model;
    TableOk(s);
    var from := |m.scheduled|;
    ok := m.CancelEvent(fd, e, refuses);
    if ok {
      ghost var s' := Next(s, Step.Cancel(fd, e)).value;
      Deliver(m, sch, from, s');
      NextInv(s, Step.Cancel(fd, e), s');
    }
  }

  /** `cancelAll` is the cancel-all step, or nothing. */
  method CancelAll(m: IOManager, sch: Scheduler, fd: nat, refuses: bool) returns (ok: bool)
    requires Linked(m, sch)
    modifies m, sch
    ensures Linked(m, sch) && (ok <==> old(m.Model()).Events(fd) != {} && !refuses)
    ensures if ok then Next(old(sch.model), Step.CancelAll(fd)) == Some(sch.model) else sch.model == old(sch.model)
  {
    hide Inv, SameCbFibers, Table.Removed, FdContext.Waiters;
    ghost var s := sch.model;
    TableOk(s);
    var from := |m.scheduled|;
    ok := m.CancelAll(fd, refuses);
    if ok {
      ghost var s' := Next(s, Step.CancelAll(fd)).value;
      Deliver(m, sch, from, s');
      NextInv(s, Step.CancelAll(fd), s');
    }
  }

  /** `delEvent` is the delete step, or nothing. */
  method Delete(m: IOManager, sch: Scheduler, fd: nat, e: Event, refuses: bool) returns (ok: bool)
    requires Linked(m, sch)
    modifies m, sch
    ensures Linked(m, sch) && (ok <==> e in old(m.Model()).Events(fd) && !refuses)
    ensures if ok then Next(old(sch.model), Step.Delete(fd, e)) == Some(sch.model) else sch.model == old(sch.model)
  {
    hide Inv, SameCbFibers, Table.Removed, FdContext.Waiters;
    ghost var s := sch.model;
    TableOk(s);
    ok := m.DelEvent(fd, e, refuses);
    if ok {
      sch.model := Next(s, Step.Delete(fd, e)).value;
      NextInv(s, Step.Delete(fd, e), sch.model);
    }
  }

  /** A report that fires is the ready step; one that does not abort otherwise changes nothing. */
  method Ready(m: IOManager, sch: Scheduler, fd: nat, report: Report, refuses: bool) returns (o: ReadyOutcome)
    requires Linked(m, sch) && fd < |m.fdContexts|
    requires !ReadyResult(m.Model().Events(fd), RealEvents(report, m.Model().Events(fd)), refuses).Aborted?
    modifies m, sch
    ensures Linked(m, sch)
    ensures o.Fired? ==> Next(old(sch.model), Step.Ready(fd, report)) == Some(sch.model)
    ensures !o.Fired? ==> sch.model == old(sch.model)
  {
    hide Inv, SameCbFibers, Table.Removed, FdContext.Waiters;
    ghost var s := sch.model;
    TableOk(s);
    var from := |m.scheduled|;
    o := m.HandleReady(fd, report, refuses);
    if o.Fired? {
      ghost var s' := Next(s, Step.Ready(fd, report)).value;
      Deliver(m, sch, from, s');
      NextInv(s, Step.Ready(fd, report), s');
    }
  }
}
