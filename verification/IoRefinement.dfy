/** The hooked call of `HookedIo` inside the protocol of `Runtime`: what the protocol does to the
    fibre of the call is what the call's own steps say, or nothing. */
module IoRefinement {
  import opened Bytes
  import opened EventTable
  import opened Runtime
  import Timers
  import Io = HookedIo

  /** What both models show of the fibre: parked, in its waiter slot, scheduled, and how many waits
      and schedulings there were since the call began. */
  datatype View = View(parked: bool, slot: bool, queued: bool, parks: int, wakes: int)

  /** In the protocol; `n` is the number of waits of the fibre before the call. */
  function InRuntime(s: State, f: nat, n: int): View {
    var x := Fib(f);
    View(f in s.announced, SlotCount(s.table.ctxs, x) > 0, f in s.announced && QueueCount(s.queue, x) > 0,
         s.waits[x] - n, s.wakes[x] - n)
  }

  function InCall(c: Io.Call): View {
    View(c.phase == Io.Parked, c.slot, c.queued, c.parks, c.wakes)
  }

  /** The call does not switch threads or sleep, and nobody deletes its event. */
  predicate Undisturbed(s: State, step: Step, s': State, f: nat) {
    && f in s.fibers && f !in s.asleep && Fib(f) !in s'.dropped
    && (step.SwitchTo? || step.Sleep? ==> s.W(step.w).cur != Some(f))
  }

  /** The step of the call that a step of the protocol is, if any. */
  function Matching(s: State, step: Step, f: nat): Option<Io.Step> {
    match step
    case Wait(w, _, _) => if s.W(w).cur == Some(f) then Some(Io.AddEvent(false)) else None
    case Dequeue(_, i, _) =>
      if i < |s.queue| && s.queue[i].task == Fib(f) && f in s.announced then Some(Io.Resume) else None
    case Cancel(fd, e) => if Hit(s, fd, {e}, f) then Some(Io.Trigger) else None
    case CancelAll(fd) => if Hit(s, fd, s.table.Events(fd), f) then Some(Io.Trigger) else None
    case Ready(fd, r) => if Hit(s, fd, RealEvents(r, s.table.Events(fd)), f) then Some(Io.Trigger) else None
    case _ => None
  }

  /** The fibre waits for one of the events. */
  predicate Hit(s: State, fd: nat, es: set<Event>, f: nat) {
    fd < |s.table.ctxs| && Hits(s.table.ctxs[fd], es, Fib(f)) > 0
  }

  /** Every step of the protocol shows in the call as its matching step, and as nothing where there is
      none; that step is always possible. */
  lemma CallFollows(s: State, step: Step, s': State, f: nat, n: int, c: Io.Call)
    requires Inv(s) && Next(s, step) == Some(s') && Undisturbed(s, step, s', f)
    requires Io.Inv(c) && InRuntime(s, f, n) == InCall(c)
    requires Matching(s, step, f) == Some(Io.AddEvent(false)) ==> c.phase == Io.Armed
    ensures match Matching(s, step, f)
            case None => InRuntime(s', f, n) == InCall(c)
            case Some(h) => Io.Next(c, h).Some? && InRuntime(s', f, n) == InCall(Io.Next(c, h).value)
  {
    hide Inv, Next, Matching, InRuntime, Io.Next;
    ViewChanges(s, step, s', f, n);
    CallChanges(c);
  }

  /** The view after a step of the call. */
  function Changed(v: View, h: Option<Io.Step>): View {
    match h
    case Some(AddEvent(false)) => v.(parked := true, slot := true, parks := v.parks + 1)
    case Some(Trigger) => v.(slot := false, queued := true, wakes := v.wakes + 1)
    case Some(Resume) => v.(parked := false, queued := false)
    case _ => v
  }

  lemma CallChanges(c: Io.Call)
    requires Io.Inv(c)
    ensures c.phase == Io.Armed ==> Follows(c, Io.AddEvent(false))
    ensures c.slot ==> Follows(c, Io.Trigger)
    ensures c.phase == Io.Parked && c.queued ==> Follows(c, Io.Resume)
  {
  }

  ghost predicate Follows(c: Io.Call, h: Io.Step) {
    Io.Next(c, h).Some? && InCall(Io.Next(c, h).value) == Changed(InCall(c), Some(h))
  }

  /** The timers show in the view only by waking the fibre, which looks like a trigger. */
  lemma TimersShow(c: Io.Call, h: Io.Step)
    requires Io.Inv(c) && Io.IsTimer(h) && Io.Next(c, h).Some?
    ensures var seen := if h.CancelEvent? && c.slot then Some(Io.Trigger) else None;
            InCall(Io.Next(c, h).value) == Changed(InCall(c), seen)
  {
  }

  // ----- The timer of a round

  /** The timer of the round is live in the call exactly while it is in the timer set. */
  ghost predicate TimerLinked(tm: Timers.TimerManager, id: nat, c: Io.Call)
    reads tm
  {
    tm.Valid() && id in tm.recs && !tm.recs[id].recurring && (c.live <==> id in tm.timers)
  }

  /** `listExpiredCb` takes the timer in the expire step of the call, or leaves it. */
  method ExpireShows(tm: Timers.TimerManager, id: nat, c: Io.Call, now: int, probe: nat) returns (c': Io.Call)
    requires TimerLinked(tm, id, c) && tm.clock <= now
    modifies tm
    ensures TimerLinked(tm, id, c')
    ensures c' == if Io.Next(c, Io.Expire).Some? && id !in tm.timers then Io.Next(c, Io.Expire).value else c
  {
    var cbs := tm.ListExpired(now, probe);
    c' := if id in cbs then Io.Next(c, Io.Expire).value else c;
  }

  /** The `cancel` of the timer is what the resume step does to it. */
  method CancelShows(tm: Timers.TimerManager, id: nat, c: Io.Call) returns (c': Io.Call)
    requires TimerLinked(tm, id, c) && Io.Next(c, Io.Resume).Some?
    modifies tm
    ensures TimerLinked(tm, id, c') && c' == Io.Next(c, Io.Resume).value
  {
    var _ := tm.Cancel(id);
    c' := Io.Next(c, Io.Resume).value;
  }

  // ----- Whole runs

  /** Between the rounds of the call, and with no timeout so far. */
  predicate Driven(c: Io.Call) {
    && Io.Inv(c) && !c.cancelled && (c.phase == Io.Trying || c.phase == Io.Parked)
    && !c.due && c.passed == 0 && c.cancels == 0 && (c.slot ==> c.live == c.timeout)
  }

  /** Woken by its timeout, and returning with it once resumed. */
  predicate Late(c: Io.Call) {
    Io.Inv(c) && c.cancelled && ((c.phase == Io.Parked && c.queued) || c.phase == Io.TimedOut)
  }

  /** The cancel step at `cut`, if any, is that of the timer callback: it wakes the fibre, which does
      not wait again in this call. */
  ghost predicate TimesOutAt(states: seq<State>, steps: seq<Step>, f: nat, cut: nat)
    requires |states| == |steps| + 1
  {
    cut < |steps| ==>
      && steps[cut].Cancel? && Matching(states[cut], steps[cut], f) == Some(Io.Trigger)
      && forall i :: cut < i < |steps| ==> Matching(states[i], steps[i], f) != Some(Io.AddEvent(false))
  }

  /** A stretch of a run in which the fibre is left undisturbed. */
  ghost predicate Stretch(states: seq<State>, steps: seq<Step>, f: nat) {
    && |states| == |steps| + 1 && Inv(states[0])
    && forall i :: 0 <= i < |steps| ==>
         Next(states[i], steps[i]) == Some(states[i + 1]) && Undisturbed(states[i], steps[i], states[i + 1], f)
  }

  /** One step: the call attempts again before the fibre waits, and otherwise takes the matching step
      or none. */
  lemma StepFollows(s: State, step: Step, s': State, f: nat, n: int, c: Io.Call) returns (c': Io.Call, hs: seq<Io.Step>)
    requires Inv(s) && Next(s, step) == Some(s') && Undisturbed(s, step, s', f)
    requires Driven(c) && InRuntime(s, f, n) == InCall(c)
    ensures Driven(c') && c'.timeout == c.timeout && InRuntime(s', f, n) == InCall(c') && |hs| <= 2
    ensures Matching(s, step, f) == if hs == [] then None else Some(hs[|hs| - 1])
    ensures Io.After(c, hs) == Some(c')
  {
    hide Inv, Next, Matching, InRuntime, Undisturbed;
    var h := Matching(s, step, f);
    if h == Some(Io.AddEvent(false)) {
      WaitsFresh(s, step, s', f, n);
      var c1 := Io.Next(c, Io.Attempt(Io.Again)).value;
      Io.NextInv(c, Io.Attempt(Io.Again), c1);
      CallFollows(s, step, s', f, n, c1);
      c' := Io.Next(c1, Io.AddEvent(false)).value;
      Io.NextInv(c1, Io.AddEvent(false), c');
      hs := [Io.Attempt(Io.Again), Io.AddEvent(false)];
      Io.AfterOne(c, hs);
      Io.AfterOne(c1, hs[1..]);
    } else {
      CallFollows(s, step, s', f, n, c);
      if h == None {
        c', hs := c, [];
      } else {
        ViewChanges(s, step, s', f, n);
        c' := Io.Next(c, h.value).value;
        Io.NextInv(c, h.value, c');
        hs := [h.value];
        Io.AfterOne(c, hs);
      }
    }
  }

  lemma WaitsFresh(s: State, step: Step, s': State, f: nat, n: int)
    requires Next(s, step) == Some(s') && Matching(s, step, f) == Some(Io.AddEvent(false))
    ensures !InRuntime(s, f, n).parked
  {
    hide Table.Added, Table.Grown, SlotCount, QueueCount;
  }

  /** The cancel step of the timer callback: the call's timer expires, its callback tests and sets the
      flag, and then cancels the event. */
  lemma TimeoutFollows(s: State, step: Step, s': State, f: nat, n: int, c: Io.Call)
      returns (c': Io.Call, hs: seq<Io.Step>)
    requires Inv(s) && Next(s, step) == Some(s') && Undisturbed(s, step, s', f)
    requires Matching(s, step, f) == Some(Io.Trigger)
    requires Driven(c) && c.timeout && InRuntime(s, f, n) == InCall(c)
    ensures Late(c') && c'.timeout && InRuntime(s', f, n) == InCall(c') && Io.After(c, hs) == Some(c')
    ensures hs == [Io.Expire, Io.TestDue, Io.SetFlag, Io.CancelEvent]
  {
    hide Inv, Next, Matching, InRuntime, Undisturbed;
    ViewChanges(s, step, s', f, n);
    c', hs := TimerWakes(c);
  }

  lemma TimerWakes(c: Io.Call) returns (c': Io.Call, hs: seq<Io.Step>)
    requires Driven(c) && c.timeout && c.slot
    ensures Late(c') && c'.timeout && InCall(c') == Changed(InCall(c), Some(Io.Trigger)) && Io.After(c, hs) == Some(c')
    ensures hs == [Io.Expire, Io.TestDue, Io.SetFlag, Io.CancelEvent]
  {
    var c1 := Io.Next(c, Io.Expire).value;
    var c2 := Io.Next(c1, Io.TestDue).value;
    var c3 := Io.Next(c2, Io.SetFlag).value;
    c' := Io.Next(c3, Io.CancelEvent).value;
    Io.NextInv(c, Io.Expire, c1);
    Io.NextInv(c1, Io.TestDue, c2);
    Io.NextInv(c2, Io.SetFlag, c3);
    Io.NextInv(c3, Io.CancelEvent, c');
    hide Io.Next, Io.Inv;
    Io.Extend(c, [], c, Io.Expire);
    Io.Extend(c, [] + [Io.Expire], c1, Io.TestDue);
    Io.Extend(c, [] + [Io.Expire] + [Io.TestDue], c2, Io.SetFlag);
    Io.Extend(c, [] + [Io.Expire] + [Io.TestDue] + [Io.SetFlag], c3, Io.CancelEvent);
    hs := [] + [Io.Expire] + [Io.TestDue] + [Io.SetFlag] + [Io.CancelEvent];
  }

  /** After its timeout the call resumes, and then nothing more happens to it. */
  lemma LateFollows(s: State, step: Step, s': State, f: nat, n: int, c: Io.Call) returns (c': Io.Call, hs: seq<Io.Step>)
    requires Inv(s) && Next(s, step) == Some(s') && Undisturbed(s, step, s', f)
    requires Matching(s, step, f) != Some(Io.AddEvent(false))
    requires Late(c) && InRuntime(s, f, n) == InCall(c)
    ensures Late(c') && c'.timeout == c.timeout && InRuntime(s', f, n) == InCall(c') && Io.After(c, hs) == Some(c')
  {
    hide Inv, Next, Matching, InRuntime, Undisturbed;
    ViewChanges(s, step, s', f, n);
    if Matching(s, step, f) == Some(Io.Resume) {
      CallChanges(c);
      c', hs := Io.Next(c, Io.Resume).value, [Io.Resume];
      Io.NextInv(c, Io.Resume, c');
      Io.AfterOne(c, hs);
    } else {
      c', hs := c, [];
    }
  }

  /** Whatever the protocol does to an undisturbed fibre is a run of the hooked call. If the cancel at
      `cut` is that of its timer, the call has timed out as soon as it is resumed. */
  lemma {:induction false} RunFollows(states: seq<State>, steps: seq<Step>, f: nat, n: int, m: nat,
                                      timeout: bool, cut: nat)
      returns (c: Io.Call, hs: seq<Io.Step>)
    requires Stretch(states, steps, f) && m < |states| && TimesOutAt(states, steps, f, cut)
    requires InRuntime(states[0], f, n) == View(false, false, false, 0, 0) && (cut < |steps| ==> timeout)
    ensures Inv(states[m]) && Io.Reachable(c, timeout, hs) && c.timeout == timeout
    ensures InRuntime(states[m], f, n) == InCall(c)
    ensures if m <= cut then Driven(c) else Late(c)
    ensures cut < m ==> (c.phase == Io.TimedOut <==> !InRuntime(states[m], f, n).parked)
  {
    hide Inv, Next, InRuntime, Undisturbed, Driven, Late, Matching, Io.After;
    if m == 0 {
      BeginDriven(timeout);
      c, hs := Io.Begin(timeout), [];
    } else {
      var before, first := RunFollows(states, steps, f, n, m - 1, timeout, cut);
      var s, step, s' := states[m - 1], steps[m - 1], states[m];
      NextInv(s, step, s');
      var more;
      if m <= cut {
        c, more := StepFollows(s, step, s', f, n, before);
      } else if m - 1 == cut {
        c, more := TimeoutFollows(s, step, s', f, n, before);
      } else {
        c, more := LateFollows(s, step, s', f, n, before);
      }
      Joined(Io.Begin(timeout), first, before, more);
      hs := first + more;
      if cut < m { LatePhases(c); }
    }
  }

  lemma LatePhases(c: Io.Call)
    requires Late(c)
    ensures c.phase == Io.TimedOut <==> !InCall(c).parked
  {
  }

  /** A run in which the hooked call of fibre 0 times out: it waits and parks, its timer cancels the
      event, and it is resumed. */
  lemma TimedOutArises() returns (states: seq<State>, steps: seq<Step>, c: Io.Call, hs: seq<Io.Step>)
    ensures IsRun(states, steps) && |steps| == 6 && Stretch(states[2..], steps[2..], 0)
    ensures Io.Reachable(c, true, hs) && c.phase == Io.TimedOut
    ensures InRuntime(states[6], 0, states[2].waits[Fib(0)]) == InCall(c)
  {
    states, steps := RunToCancel();
    RunInv(states, steps, 2);
    FreshView(states[2]);
    SuffixRun(states, steps);
    Unheld(states[2..], steps[2..]);
    hide Inv, Next, Initial, InRuntime, Stretch, TimesOutAt, Late, Driven;
    NotParked(states[6], states[2].waits[Fib(0)]);
    c, hs := RunFollows(states[2..], steps[2..], 0, states[2].waits[Fib(0)], 4, true, 2);
  }

  /** The last four steps of that run. */
  lemma SuffixRun(states: seq<State>, steps: seq<Step>)
    requires IsRun(states, steps) && |steps| == 6
    ensures |states[2..]| == 5 && |steps[2..]| == 4
    ensures forall i :: 0 <= i < 4 ==> Next(states[2..][i], steps[2..][i]) == Some(states[2..][i + 1])
  {
    hide Next, Initial;
  }

  lemma NotParked(s: State, n: int)
    requires Back(s)
    ensures !InRuntime(s, 0, n).parked
  {
    hide QueueCount, SlotCount;
  }

  /** Nothing disturbs fibre 0 in them, and the cancel wakes it. */
  lemma Unheld(states: seq<State>, steps: seq<Step>)
    requires |states| == 5 && steps == [Wait(0, 0, READ), Yield(0, ToHold), Step.Cancel(0, READ), Dequeue(0, 0, 1)]
    requires Inv(states[0]) && forall i :: 0 <= i < 4 ==> Next(states[i], steps[i]) == Some(states[i + 1])
    requires Started(states[0]) && Registered(states[1]) && Waiting(states[2]) && Woken(states[3]) && Back(states[4])
    requires Matching(states[2], Step.Cancel(0, READ), 0) == Some(Io.Trigger)
    ensures Stretch(states, steps, 0) && TimesOutAt(states, steps, 0, 2)
  {
    hide Inv, Next, Started, Registered, Waiting, Woken, Back, Alone, Calm, Undisturbed, Matching;
    AllCalm(states[0], states[1], states[2], states[3], states[4]);
    forall i | 0 <= i < 4
      ensures Undisturbed(states[i], steps[i], states[i + 1], 0)
    {
      StaysCalm(states[i], steps[i], states[i + 1]);
    }
    ResumeIsNoWait(states[3], 0, 0, 1);
  }

  lemma AllCalm(s2: State, s3: State, s4: State, s5: State, s6: State)
    requires Started(s2) && Registered(s3) && Waiting(s4) && Woken(s5) && Back(s6)
    ensures Calm(s2) && Calm(s3) && Calm(s4) && Calm(s5) && Calm(s6)
  {
  }

  predicate Calm(s: State) { 0 in s.fibers && s.asleep == {} && s.dropped == {} }

  lemma StaysCalm(s: State, step: Step, s': State)
    requires Calm(s) && Calm(s') && !step.SwitchTo? && !step.Sleep?
    ensures Undisturbed(s, step, s', 0)
  {
  }

  lemma ResumeIsNoWait(s: State, w: nat, i: nat, newId: nat)
    ensures Matching(s, Dequeue(w, i, newId), 0) != Some(Io.AddEvent(false))
  {
  }

  lemma FreshView(s: State)
    requires Inv(s) && Started(s)
    ensures InRuntime(s, 0, s.waits[Fib(0)]) == View(false, false, false, 0, 0)
  {
    hide QueueCount, SlotCount, Table.Inv;
    assert FiberOk(s, 0) && WaitsOk(s, Fib(0));
  }

  predicate Woken(s: State) { Alone(s, HOLD, None, [Entry(Fib(0), -1)], {0}) }

  predicate Back(s: State) { Alone(s, EXEC, Some(0), [], {}) }

  lemma CancelNext(s: State) returns (s': State)
    requires Waiting(s)
    ensures Next(s, Step.Cancel(0, READ)) == Some(s') && Woken(s')
    ensures Matching(s, Step.Cancel(0, READ), 0) == Some(Io.Trigger)
  {
    s' := Next(s, Step.Cancel(0, READ)).value;
    assert s.table.ctxs[0].Waiters({READ}) == [Fib(0)];
    assert Entries([Fib(0)]) == [Entry(Fib(0), -1)];
  }

  lemma ResumeNext(s: State) returns (s': State)
    requires Woken(s)
    ensures Next(s, Dequeue(0, 0, 1)) == Some(s') && Back(s')
  {
    s' := Next(s, Dequeue(0, 0, 1)).value;
  }

  lemma RunToCancel() returns (states: seq<State>, steps: seq<Step>)
    ensures IsRun(states, steps) && |steps| == 6 && Started(states[2]) && Back(states[6])
    ensures steps[2..] == [Wait(0, 0, READ), Yield(0, ToHold), Step.Cancel(0, READ), Dequeue(0, 0, 1)]
    ensures Registered(states[3]) && Waiting(states[4]) && Woken(states[5])
    ensures Matching(states[4], Step.Cancel(0, READ), 0) == Some(Io.Trigger)
  {
    hide Next, Initial, Started, Registered, Waiting, Woken, Back, Matching;
    var states4, steps4 := RunToWait();
    var s5 := CancelNext(states4[4]);
    var s6 := ResumeNext(s5);
    RunLonger(states4, steps4, Step.Cancel(0, READ), s5);
    var states5, steps5 := states4 + [s5], steps4 + [Step.Cancel(0, READ)];
    RunLonger(states5, steps5, Dequeue(0, 0, 1), s6);
    states, steps := states5 + [s6], steps5 + [Dequeue(0, 0, 1)];
  }

  lemma BeginDriven(timeout: bool)
    ensures Driven(Io.Begin(timeout)) && InCall(Io.Begin(timeout)) == View(false, false, false, 0, 0)
    ensures Io.Reachable(Io.Begin(timeout), timeout, [])
  {
    Io.BeginInv(timeout);
  }

  lemma {:induction false} Joined(c: Io.Call, a: seq<Io.Step>, d: Io.Call, b: seq<Io.Step>)
    requires Io.After(c, a) == Some(d)
    ensures Io.After(c, a + b) == Io.After(d, b)
    decreases |a|
  {
    hide Io.Next;
    if a == [] {
      assert a + b == b;
    } else {
      assert (a + b)[1..] == a[1..] + b;
      Joined(Io.Next(c, a[0]).value, a[1..], d, b);
    }
  }

  // ----- What each step does to the view

  /** The view changes as the matching step says, and a trigger or resume finds the fibre where it
      should be. */
  ghost predicate Shown(s: State, step: Step, s': State, f: nat, n: int) {
    var v, h := InRuntime(s, f, n), Matching(s, step, f);
    && InRuntime(s', f, n) == Changed(v, h)
    && (h == None || h == Some(Io.AddEvent(false)) || h == Some(Io.Trigger) || h == Some(Io.Resume))
    && (h == Some(Io.Trigger) ==> v.slot) && (h == Some(Io.Resume) ==> v.parked && v.queued)
  }

  lemma ViewChanges(s: State, step: Step, s': State, f: nat, n: int)
    requires Inv(s) && Next(s, step) == Some(s') && Undisturbed(s, step, s', f)
    ensures Shown(s, step, s', f, n)
  {
    hide Inv, Next, Shown;
    match step
    case Wait(w, fd, e) => WaitShows(s, w, fd, e, s', f, n);
    case Dequeue(w, i, newId) => DequeueShows(s, w, i, newId, s', f, n);
    case Cancel(fd, e) => AnyCancelShows(s, step, s', f, n);
    case CancelAll(fd) => AnyCancelShows(s, step, s', f, n);
    case Ready(fd, r) => AnyCancelShows(s, step, s', f, n);
    case Yield(w, how) => YieldShows(s, w, how, s', f, n);
    case Delete(fd, e) => DeleteShows(s, fd, e, s', f, n);
    case Watch(c, fd, e) => WatchShows(s, c, fd, e, s', f, n);
    case Spawn(_, _) => QuietShows(s, step, s', f, n);
    case Post(_, _) => QuietShows(s, step, s', f, n);
    case SwitchTo(_, _) => QuietShows(s, step, s', f, n);
    case Sleep(_) => QuietShows(s, step, s', f, n);
    case Rouse(_) => QuietShows(s, step, s', f, n);
  }

  lemma WaitShows(s: State, w: nat, fd: nat, e: Event, s': State, f: nat, n: int)
    requires Inv(s) && Next(s, Wait(w, fd, e)) == Some(s')
    ensures Shown(s, Wait(w, fd, e), s', f, n)
  {
    hide QueueCount, SlotCount, Table.Inv, Table.Added, Table.Grown;
    AddedCount(s.table, fd, e, Fib(s.W(w).cur.value), Fib(f));
    assert WorkerOk(s, w) && FiberOk(s, f);
  }

  lemma WatchShows(s: State, c: nat, fd: nat, e: Event, s': State, f: nat, n: int)
    requires Inv(s) && Next(s, Watch(c, fd, e)) == Some(s')
    ensures Shown(s, Watch(c, fd, e), s', f, n)
  {
    hide QueueCount, SlotCount, Table.Inv, Table.Added, Table.Grown;
    AddedCount(s.table, fd, e, Cb(c), Fib(f));
  }

  lemma DequeueShows(s: State, w: nat, i: nat, newId: nat, s': State, f: nat, n: int)
    requires Inv(s) && Next(s, Dequeue(w, i, newId)) == Some(s') && f in s.fibers
    ensures Shown(s, Dequeue(w, i, newId), s', f, n)
  {
    hide QueueCount, SlotCount, Table.Inv, Next;
    DequeueShape(s, w, i, newId, s');
    QueueErase(s.queue, i, Fib(f));
    QueuedCounts(s, i);
    assert WorkerOk(s, w) && FiberOk(s, f);
  }

  /** The fibre the dequeued task runs on. */
  function Runner(s: State, w: nat, x: Task, newId: nat): nat {
    if x.Fib? then x.id else if s.W(w).cbFiber.Some? then s.W(w).cbFiber.value else newId
  }

  lemma DequeueShape(s: State, w: nat, i: nat, newId: nat, s': State)
    requires Next(s, Dequeue(w, i, newId)) == Some(s')
    ensures i < |s.queue| && s.W(w).cur.None? && s'.queue == s.queue[..i] + s.queue[i + 1..]
    ensures s'.table == s.table && s'.waits == s.waits && s'.wakes == s.wakes
    ensures var g := Runner(s, w, s.queue[i].task, newId);
            && (s.queue[i].task.Cb? && s.W(w).cbFiber.None? ==> g !in s.fibers)
            && s'.announced ==
               if s.queue[i].task.Fib? && s.St(g) in {TERM, EXCEPT} then s.announced else s.announced - {g}
  {
    hide Resumed, SwappedIn;
    assert i < |s.queue| && s.W(w).cur.None? && Resumed(s, w, i, newId) == Some(s');
    if s.queue[i].task.Fib? {
      FiberShape(s, w, i, newId, s');
    } else {
      CallbackShape(s, w, i, newId, s');
    }
  }

  lemma FiberShape(s: State, w: nat, i: nat, newId: nat, s': State)
    requires i < |s.queue| && Resumed(s, w, i, newId) == Some(s') && s.queue[i].task.Fib?
    ensures s'.queue == s.queue[..i] + s.queue[i + 1..]
    ensures s'.table == s.table && s'.waits == s.waits && s'.wakes == s.wakes
    ensures var g := s.queue[i].task.id;
            s'.announced == if s.St(g) in {TERM, EXCEPT} then s.announced else s.announced - {g}
  {
  }

  lemma CallbackShape(s: State, w: nat, i: nat, newId: nat, s': State)
    requires i < |s.queue| && Resumed(s, w, i, newId) == Some(s') && s.queue[i].task.Cb?
    ensures s'.queue == s.queue[..i] + s.queue[i + 1..]
    ensures s'.table == s.table && s'.waits == s.waits && s'.wakes == s.wakes
    ensures var g := Runner(s, w, s.queue[i].task, newId);
            (s.W(w).cbFiber.None? ==> g !in s.fibers) && s'.announced == s.announced - {g}
  {
  }

  lemma YieldShows(s: State, w: nat, how: YieldKind, s': State, f: nat, n: int)
    requires Inv(s) && Next(s, Yield(w, how)) == Some(s')
    ensures Shown(s, Yield(w, how), s', f, n)
  {
    hide Inv, QueueCount, SlotCount;
    QueuePush(s.queue, Entry(Fib(s.W(w).cur.value), -1), Fib(f));
    YieldShape(s, w, how, s');
    hide Next;
  }

  lemma YieldShape(s: State, w: nat, how: YieldKind, s': State)
    requires Next(s, Yield(w, how)) == Some(s')
    ensures s'.announced == s.announced && s'.table == s.table && s'.waits == s.waits && s'.wakes == s.wakes
    ensures s.W(w).cur.Some? && (how == ToReady ==> s.W(w).cur.value !in s.announced)
    ensures s'.queue == if how == ToReady then s.queue + [Entry(Fib(s.W(w).cur.value), -1)] else s.queue
  {
    if how == Return || how == Throw {
      EndsInYield(s, s', w, if how == Return then TERM else EXCEPT);
    } else {
      PauseShape(s, w, how, s');
    }
  }

  lemma PauseShape(s: State, w: nat, how: YieldKind, s': State)
    requires s.W(w).cur.Some? && (how == ToReady || how == ToHold) && s' == Yielded(s, w, how)
    ensures s'.announced == s.announced && s'.table == s.table && s'.waits == s.waits && s'.wakes == s.wakes
    ensures s'.queue == if how == ToReady then s.queue + [Entry(Fib(s.W(w).cur.value), -1)] else s.queue
  {
  }

  lemma QuietShows(s: State, step: Step, s': State, f: nat, n: int)
    requires Next(s, step) == Some(s') && Undisturbed(s, step, s', f)
    requires step.Spawn? || step.Post? || step.SwitchTo? || step.Sleep? || step.Rouse?
    ensures Shown(s, step, s', f, n)
  {
    hide QueueCount, SlotCount;
    if step.Spawn? {
      QueuePush(s.queue, Entry(Fib(step.f), step.thread), Fib(f));
    } else if step.Post? {
      QueuePush(s.queue, Entry(Cb(step.c), step.thread), Fib(f));
    } else if step.SwitchTo? {
      QueuePush(s.queue, Entry(Fib(s.W(step.w).cur.value), step.thread), Fib(f));
    } else if step.Rouse? {
      QueuePush(s.queue, Entry(Fib(step.f), -1), Fib(f));
    }
  }

  lemma DeleteShows(s: State, fd: nat, e: Event, s': State, f: nat, n: int)
    requires Inv(s) && Next(s, Step.Delete(fd, e)) == Some(s') && Fib(f) !in s'.dropped
    ensures Shown(s, Step.Delete(fd, e), s', f, n)
  {
    hide QueueCount, SlotCount, Table.Inv, FdContext.Waiters;
    var fc := s.table.ctxs[fd];
    SlotUpdate(s.table.ctxs, fd, fc.Without({e}), Fib(f));
    HitOnce(fc, e, Fib(f));
  }

  lemma AnyCancelShows(s: State, step: Step, s': State, f: nat, n: int)
    requires Inv(s) && Next(s, step) == Some(s') && (step.Cancel? || step.CancelAll? || step.Ready?)
    ensures Shown(s, step, s', f, n)
  {
    hide Inv, Table.Removed, FdContext.Waiters, Hits, Shown;
    var fd := step.fd;
    var es := if step.Cancel? then {step.e} else if step.CancelAll? then s.table.Events(fd)
              else RealEvents(step.report, s.table.Events(fd));
    var spare := if step.Cancel? then {READ} else {};
    assert s' == Triggered(s, fd, es, spare) && es <= s.table.ctxs[fd].events;
    TriggerShows(s, step, fd, es, spare, f, n);
  }

  lemma TriggerShows(s: State, step: Step, fd: nat, es: set<Event>, spare: set<Event>, f: nat, n: int)
    requires Inv(s) && fd < |s.table.ctxs| && es <= s.table.ctxs[fd].events && spare <= {READ}
    requires Matching(s, step, f) == if Hit(s, fd, es, f) then Some(Io.Trigger) else None
    ensures Shown(s, step, Triggered(s, fd, es, spare), f, n)
  {
    hide Matching, QueueCount, SlotCount, Table.Inv, FdContext.Waiters, FdContext.SlotsAgree, Hits;
    var x, fc := Fib(f), s.table.ctxs[fd];
    WaitersHits(fc, es, x);
    SlotUpdate(s.table.ctxs, fd, fc.Without(es), x);
    WithoutHits(fc, es, x);
    QueueAppend(s.queue, fc.Waiters(es), x);
    AtMostOne(s, x);
    assert WaitsOk(s, x);
  }

  lemma WithoutHits(fc: FdContext, es: set<Event>, x: Task)
    ensures Hits(fc.Without(es), BOTH, x) == Hits(fc, BOTH, x) - Hits(fc, es, x)
  {
  }
}
