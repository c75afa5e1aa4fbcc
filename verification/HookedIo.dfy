/** One hooked `io ()` call: the retry loop that races readiness against the timeout of a socket. The
    fibre, the timers, the event loop and `close ()` take turns. A timer callback takes three steps:
    it tests the shared flag, sets it, and only then cancels the event. */
module HookedIo {
  import opened Bytes

  /** The answer of the system call once it is no longer interrupted. */
  datatype Reply = Done(rt: int) | Again

  /** `Armed`: the timer is set and the event not yet added. `Parked`: the event is added, and the
      fibre yields until it is scheduled. `TimedOut`: -1 with ETIMEDOUT. */
  datatype Phase = Trying | Armed | Parked | Returned(rt: int) | TimedOut

  /** `slot`: the fibre is in its waiter slot. `queued`: it was scheduled and is not yet resumed.
      `live`: the timer of this round is in the timer set. `due`: its callback was taken from the set
      and has not begun. `stale`: as many callbacks of earlier rounds were taken and have not begun.
      `passed`: as many callbacks found the flag clear and will set it. `cancels`: as many have set it
      and will call `cancelEvent`. `cancelled`: the flag of the shared `timer_info`.
      History: `parks` and `wakes` count waits and schedulings; `expired`: the timer of this round
      was taken; `clean`: at the start of this round no callback was outstanding and the flag was
      clear; `lost`: when the event was added the flag was set and no callback was at work. */
  datatype Call = Call(
    timeout: bool, phase: Phase, slot: bool, queued: bool,
    live: bool, due: bool, stale: nat, passed: nat, cancels: nat, cancelled: bool,
    parks: nat, wakes: nat, expired: bool, clean: bool, lost: bool)
  {
    predicate Over() { phase.Returned? || phase.TimedOut? }

    predicate InRound() { phase == Armed || phase == Parked || phase == TimedOut }

    function Woken(): Call { this.(slot := false, queued := true, wakes := wakes + 1) }

    /** A callback begins: it returns when the call is over or the flag is set. */
    function Tested(): Call { if Over() || cancelled then this else this.(passed := passed + 1) }

    /** Some earlier callback may still set the flag, or has set it. */
    predicate Outstanding() { due || stale > 0 || passed > 0 || cancelled }
  }

  function Begin(timeout: bool): Call {
    Call(timeout, Trying, false, false, false, false, 0, 0, 0, false, 0, 0, false, true, false)
  }

  /** `Expire`: `listExpiredCb` takes the timer. `TestDue`, `TestStale`: a taken callback begins.
      `Trigger`: readiness, or `cancelAll` by `close ()`. */
  datatype Step =
    | Attempt(reply: Reply) | AddEvent(refused: bool) | Resume | Trigger
    | Expire | TestDue | TestStale | SetFlag | CancelEvent

  /** The steps of the timers. */
  predicate IsTimer(step: Step) {
    step.Expire? || step.TestDue? || step.TestStale? || step.SetFlag? || step.CancelEvent?
  }

  predicate Enabled(c: Call, step: Step) {
    match step
    case Attempt(_) => c.phase == Trying
    case AddEvent(_) => c.phase == Armed
    case Resume => c.phase == Parked && c.queued
    case Trigger => c.slot
    case Expire => c.live
    case TestDue => c.due
    case TestStale => c.stale > 0
    case SetFlag => c.passed > 0
    case CancelEvent => c.cancels > 0
  }

  function Do(c: Call, step: Step): Call
    requires Enabled(c, step)
  {
    match step
    case Attempt(reply) =>
      if reply.Done? then c.(phase := Returned(reply.rt))
      else
        c.(phase := Armed, live := c.timeout, due := false, stale := c.stale + if c.due then 1 else 0,
           expired := false, clean := !c.Outstanding())
    case AddEvent(refused) =>
      if refused then c.(phase := Returned(-1), live := false)
      else
        c.(phase := Parked, slot := true, parks := c.parks + 1,
           lost := c.cancelled && c.passed == 0 && c.cancels == 0)
    case Resume => c.(queued := false, live := false, phase := if c.cancelled then TimedOut else Trying)
    case Trigger => c.Woken()
    case Expire => c.(live := false, due := true, expired := true)
    case TestDue => c.(due := false).Tested()
    case TestStale => c.(stale := c.stale - 1).Tested()
    case SetFlag => c.(passed := c.passed - 1, cancels := c.cancels + 1, cancelled := true)
    case CancelEvent =>
      if c.slot then c.(cancels := c.cancels - 1).Woken() else c.(cancels := c.cancels - 1)
  }

  function Next(c: Call, step: Step): Option<Call> {
    if Enabled(c, step) then Some(Do(c, step)) else None
  }

  predicate Inv(c: Call) { Waiting(c) && Timing(c) }

  /** A parked fibre has one wake-up, in its slot or in the queue, and every earlier wait had its own.
      In its slot it has lost its timeout exactly when the flag is set and no callback is at work. */
  predicate Waiting(c: Call) {
    && (c.phase == Parked <==> c.slot || c.queued) && !(c.slot && c.queued)
    && c.parks == c.wakes + (if c.slot then 1 else 0)
    && (c.slot ==> c.lost == (c.cancelled && c.passed == 0 && c.cancels == 0))
  }

  /** A round in progress has its timer ahead of it unless the flag is set; in a clean round only that
      timer sets the flag. */
  predicate Timing(c: Call) {
    && (c.phase == TimedOut || c.cancels > 0 ==> c.cancelled)
    && (c.live ==> !c.due && (c.phase == Armed || c.phase == Parked))
    && (c.due ==> c.expired)
    && ((c.phase == Armed || c.slot) && c.timeout && !c.cancelled ==> c.live || c.due || c.passed > 0)
    && (c.clean && c.InRound() ==> c.stale == 0 && (c.cancelled || c.passed > 0 ==> c.expired))
    && (!c.timeout ==> !c.live && !c.due && c.stale == 0 && c.passed == 0 && !c.cancelled)
  }

  /** Every step keeps the invariant. */
  lemma NextInv(c: Call, step: Step, c': Call)
    requires Inv(c) && Next(c, step) == Some(c')
    ensures Inv(c') && (!step.Attempt? ==> c'.clean == c.clean)
  {
    hide Next, Waiting, Timing;
    if step.Attempt? {
      AttemptInv(c, step.reply, c');
    } else if step.AddEvent? {
      AddEventInv(c, step.refused, c');
    } else if step.Resume? || step.Trigger? {
      WakeInv(c, step, c');
    } else if step.SetFlag? || step.CancelEvent? {
      FlagInv(c, step, c');
    } else {
      TestInv(c, step, c');
    }
  }

  lemma AttemptInv(c: Call, reply: Reply, c': Call)
    requires Inv(c) && Next(c, Attempt(reply)) == Some(c')
    ensures Inv(c')
  {
  }

  lemma AddEventInv(c: Call, refused: bool, c': Call)
    requires Inv(c) && Next(c, AddEvent(refused)) == Some(c')
    ensures Inv(c') && c'.clean == c.clean
  {
  }

  lemma WakeInv(c: Call, step: Step, c': Call)
    requires Inv(c) && Next(c, step) == Some(c') && (step.Resume? || step.Trigger?)
    ensures Inv(c') && c'.clean == c.clean
  {
  }

  lemma FlagInv(c: Call, step: Step, c': Call)
    requires Inv(c) && Next(c, step) == Some(c') && (step.SetFlag? || step.CancelEvent?)
    ensures Inv(c') && c'.clean == c.clean
  {
  }

  lemma TestInv(c: Call, step: Step, c': Call)
    requires Inv(c) && Next(c, step) == Some(c') && (step.Expire? || step.TestDue? || step.TestStale?)
    ensures Inv(c') && c'.clean == c.clean
  {
  }

  // ----- Runs

  /** The state after the steps, if each is possible. */
  function After(c: Call, steps: seq<Step>): Option<Call>
    decreases |steps|
  {
    if steps == [] then Some(c)
    else match Next(c, steps[0])
      case None => None
      case Some(c1) => After(c1, steps[1..])
  }

  predicate Reachable(c: Call, timeout: bool, steps: seq<Step>) {
    After(Begin(timeout), steps) == Some(c)
  }

  lemma {:induction false} AfterInv(c: Call, steps: seq<Step>, c': Call)
    requires Inv(c) && After(c, steps) == Some(c')
    ensures Inv(c')
    decreases |steps|
  {
    hide Inv, Next;
    if steps != [] {
      NextInv(c, steps[0], Next(c, steps[0]).value);
      AfterInv(Next(c, steps[0]).value, steps[1..], c');
    }
  }

  lemma BeginInv(timeout: bool)
    ensures Inv(Begin(timeout))
  {
  }

  /** The invariant in every state of every run. */
  lemma RunInv(c: Call, timeout: bool, steps: seq<Step>)
    requires Reachable(c, timeout, steps)
    ensures Inv(c)
  {
    hide Inv, After;
    BeginInv(timeout);
    AfterInv(Begin(timeout), steps, c);
  }

  /** Each wait of the call is answered at most once, by readiness, timeout or close; every wait has
      been answered when the fibre goes on, and when the call is over. */
  lemma OneWakePerWait(c: Call, timeout: bool, steps: seq<Step>)
    requires Reachable(c, timeout, steps)
    ensures c.wakes <= c.parks <= c.wakes + 1
    ensures c.phase != Parked ==> c.parks == c.wakes
  {
    hide Reachable, Next;
    RunInv(c, timeout, steps);
  }

  // ----- What the call returns

  /** The steps of the fibre itself. */
  predicate IsOwn(step: Step) { step.Attempt? || step.AddEvent? || step.Resume? }

  /** Which step was the last that the fibre itself took. */
  function LastOwn(steps: seq<Step>): (r: Option<nat>)
    ensures r.Some? ==> r.value < |steps| && IsOwn(steps[r.value])
    ensures forall i :: (if r.Some? then r.value + 1 else 0) <= i < |steps| ==> !IsOwn(steps[i])
  {
    if steps == [] then None
    else
      var n := |steps| - 1;
      if IsOwn(steps[n]) then Some(n)
      else
        assert forall i :: 0 <= i < n ==> steps[..n][i] == steps[i];
        LastOwn(steps[..n])
  }

  /** Where the call is after its last own step, and what it returns. */
  ghost predicate Answered(c: Call, timeout: bool, steps: seq<Step>) {
    match LastOwn(steps)
    case None => c.phase == Trying
    case Some(k) => AnsweredBy(c.phase, steps[k], FlagAfter(timeout, steps[..k]))
  }

  /** An attempt that is done ends the call with its result, and a refused `addEvent` with -1. After a
      resume the call has timed out if the flag was set by then, and tries again otherwise. */
  predicate AnsweredBy(phase: Phase, step: Step, flag: bool) {
    match step
    case Attempt(reply) => phase == if reply.Done? then Returned(reply.rt) else Armed
    case AddEvent(refused) => phase == if refused then Returned(-1) else Parked
    case Resume => phase == if flag then TimedOut else Trying
    case _ => false
  }

  predicate FlagAfter(timeout: bool, steps: seq<Step>) {
    After(Begin(timeout), steps).Some? && After(Begin(timeout), steps).value.cancelled
  }

  /** In every run the call returns what its last attempt returned, or -1 after a refused `addEvent`, or
      the timeout after it was resumed with the flag set; and it returns nothing else. */
  lemma {:induction false} RunAnswers(c: Call, timeout: bool, steps: seq<Step>)
    requires Reachable(c, timeout, steps)
    ensures Answered(c, timeout, steps)
    decreases |steps|
  {
    hide Reachable, Answered, Next;
    if steps == [] {
      NotStarted(c, timeout);
    } else {
      var front, step := steps[..|steps| - 1], steps[|steps| - 1];
      var d := BeforeLast(c, timeout, steps, front, step);
      RunAnswers(d, timeout, front);
      LastAnswers(d, c, timeout, front, step, steps);
    }
  }

  lemma NotStarted(c: Call, timeout: bool)
    requires Reachable(c, timeout, [])
    ensures Answered(c, timeout, [])
  {
  }

  /** A run without its last step. */
  lemma BeforeLast(c: Call, timeout: bool, steps: seq<Step>, front: seq<Step>, step: Step) returns (d: Call)
    requires Reachable(c, timeout, steps) && steps != []
    requires front == steps[..|steps| - 1] && step == steps[|steps| - 1]
    ensures Reachable(d, timeout, front) && Next(d, step) == Some(c)
  {
    hide Next;
    assert steps == front + [step];
    AfterFront(Begin(timeout), front, step);
    d := After(Begin(timeout), front).value;
    Extend(Begin(timeout), front, d, step);
  }

  lemma {:induction false} AfterFront(c: Call, front: seq<Step>, step: Step)
    requires After(c, front + [step]).Some?
    ensures After(c, front).Some?
    decreases |front|
  {
    hide Next;
    if front != [] {
      assert (front + [step])[1..] == front[1..] + [step];
      AfterFront(Next(c, front[0]).value, front[1..], step);
    }
  }

  lemma LastAnswers(d: Call, c: Call, timeout: bool, front: seq<Step>, step: Step, steps: seq<Step>)
    requires Reachable(d, timeout, front) && Answered(d, timeout, front) && Next(d, step) == Some(c)
    requires steps == front + [step]
    ensures Answered(c, timeout, steps)
  {
    hide Next, After, AnsweredBy;
    var n := |front|;
    assert steps[..n] == front;
    PhaseAfter(d, step, c);
    if IsOwn(step) {
      assert FlagAfter(timeout, front) == d.cancelled;
    } else if LastOwn(front).Some? {
      assert steps[..LastOwn(front).value] == front[..LastOwn(front).value];
    }
  }

  /** What one step does to the phase. */
  lemma PhaseAfter(d: Call, step: Step, c: Call)
    requires Next(d, step) == Some(c)
    ensures if IsOwn(step) then AnsweredBy(c.phase, step, d.cancelled) else c.phase == d.phase
  {
    hide Next, AnsweredBy;
    if step.Attempt? {
      AttemptPhase(d, step.reply, c);
    } else if step.AddEvent? {
      AddEventPhase(d, step.refused, c);
    } else if step.Resume? {
      ResumePhase(d, c);
    } else if step.Trigger? || step.Expire? {
      WokenPhase(d, step, c);
    } else if step.TestDue? || step.TestStale? {
      TestedPhase(d, step, c);
    } else {
      FlagPhase(d, step, c);
    }
  }

  lemma AttemptPhase(d: Call, reply: Reply, c: Call)
    requires Next(d, Attempt(reply)) == Some(c)
    ensures AnsweredBy(c.phase, Attempt(reply), d.cancelled)
  {
    hide Next;
    if reply.Done? {
      DonePhase(d, reply.rt, c);
    } else {
      AgainPhase(d, c);
    }
  }

  lemma DonePhase(d: Call, rt: int, c: Call)
    requires Next(d, Attempt(Done(rt))) == Some(c)
    ensures c.phase == Returned(rt)
  {
  }

  lemma AgainPhase(d: Call, c: Call)
    requires Next(d, Attempt(Again)) == Some(c)
    ensures c.phase == Armed
  {
  }

  lemma AddEventPhase(d: Call, refused: bool, c: Call)
    requires Next(d, AddEvent(refused)) == Some(c)
    ensures AnsweredBy(c.phase, AddEvent(refused), d.cancelled)
  {
  }

  lemma ResumePhase(d: Call, c: Call)
    requires Next(d, Resume) == Some(c)
    ensures AnsweredBy(c.phase, Resume, d.cancelled)
  {
  }

  lemma WokenPhase(d: Call, step: Step, c: Call)
    requires Next(d, step) == Some(c) && (step.Trigger? || step.Expire?)
    ensures c.phase == d.phase
  {
  }

  lemma TestedPhase(d: Call, step: Step, c: Call)
    requires Next(d, step) == Some(c) && (step.TestDue? || step.TestStale?)
    ensures c.phase == d.phase
  {
  }

  lemma FlagPhase(d: Call, step: Step, c: Call)
    requires Next(d, step) == Some(c) && (step.SetFlag? || step.CancelEvent?)
    ensures c.phase == d.phase
  {
  }

  /** Once the call is over only its timers can still take steps. A callback that begins then does nothing;
      one that had already begun cancels at most once more and wakes nobody of this call. */
  lemma OverIsQuiet(c: Call, step: Step, c': Call)
    requires Inv(c) && c.Over() && Next(c, step) == Some(c')
    ensures IsTimer(step) && c'.phase == c.phase && c'.wakes == c.wakes
    ensures step.TestDue? || step.TestStale? ==> c'.passed == c.passed && c'.cancels == c.cancels
    ensures c'.passed <= c.passed && c'.passed + c'.cancels <= c.passed + c.cancels
  {
    hide Timing;
  }

  // ----- The lost timeout

  predicate AllTimer(steps: seq<Step>) { forall i :: 0 <= i < |steps| ==> IsTimer(steps[i]) }

  /** The timers alone can wake the waiting fibre. */
  ghost predicate TimeoutToCome(c: Call) {
    exists steps :: AllTimer(steps) && After(c, steps).Some? && After(c, steps).value.queued
  }

  /** A call waiting in its slot still has its timeout to come if and only if it is not so that at
      `addEvent` the flag was set and no callback was between testing the flag and `cancelEvent`. */
  lemma TimeoutStillComes(c: Call)
    requires Inv(c) && c.slot && c.timeout
    ensures TimeoutToCome(c) <==> !c.lost
  {
    if c.lost {
      hide Inv;
      if TimeoutToCome(c) {
        var steps :| AllTimer(steps) && After(c, steps).Some? && After(c, steps).value.queued;
        StaysLost(c, steps);
      }
    } else {
      TimeoutPath(c);
    }
  }

  lemma {:induction false} StaysLost(c: Call, steps: seq<Step>)
    requires Inv(c) && c.slot && c.lost && AllTimer(steps) && After(c, steps).Some?
    ensures After(c, steps).value.slot && !After(c, steps).value.queued
    decreases |steps|
  {
    if steps != [] {
      var c1 := Next(c, steps[0]).value;
      NextInv(c, steps[0], c1);
      assert AllTimer(steps[1..]);
      StaysLost(c1, steps[1..]);
    }
  }

  /** Where the timeout is not lost, at most four timer steps wake the fibre. */
  lemma TimeoutPath(c: Call)
    requires Inv(c) && c.slot && c.timeout && !c.lost
    ensures TimeoutToCome(c)
  {
    var rest :=
      if c.cancels > 0 then [CancelEvent]
      else if c.passed > 0 then [SetFlag, CancelEvent]
      else if c.due then [TestDue, SetFlag, CancelEvent]
      else [Expire, TestDue, SetFlag, CancelEvent];
    if c.cancels > 0 {
      AfterOne(c, rest);
    } else if c.passed > 0 {
      AfterOne(c, rest);
      AfterOne(Next(c, SetFlag).value, rest[1..]);
    } else {
      var c1 := if c.due then c else Next(c, Expire).value;
      var c2 := Next(c1, TestDue).value;
      var c3 := Next(c2, SetFlag).value;
      if !c.due { AfterOne(c, rest); }
      var test := [TestDue, SetFlag, CancelEvent];
      assert !c.due ==> rest[1..] == test;
      AfterOne(c1, test);
      assert test[1..] == [SetFlag, CancelEvent];
      AfterOne(c2, [SetFlag, CancelEvent]);
      assert [SetFlag, CancelEvent][1..] == [CancelEvent];
      AfterOne(c3, [CancelEvent]);
    }
    assert AllTimer(rest) && After(c, rest).Some? && After(c, rest).value.queued;
  }

  lemma AfterOne(c: Call, steps: seq<Step>)
    requires steps != [] && Next(c, steps[0]).Some?
    ensures After(c, steps) == After(Next(c, steps[0]).value, steps[1..])
    ensures |steps| == 1 ==> After(c, steps) == Next(c, steps[0])
  {
    if |steps| == 1 { assert steps[1..] == []; }
  }

  /** One more step at the end of a run. */
  lemma {:induction false} Extend(c: Call, steps: seq<Step>, d: Call, step: Step)
    requires After(c, steps) == Some(d)
    ensures After(c, steps + [step]) == Next(d, step)
    decreases |steps|
  {
    hide Next;
    var all := steps + [step];
    if steps == [] {
      assert all[1..] == [];
    } else {
      assert all[1..] == steps[1..] + [step];
      Extend(Next(c, steps[0]).value, steps[1..], d, step);
    }
  }

  /** The timer can fire, and its callback be done, before the event is added. */
  lemma FlagBeforeEvent() returns (c: Call, steps: seq<Step>)
    ensures Reachable(c, true, steps) && c.phase == Armed && c.timeout && c.cancelled && !c.queued
    ensures !c.live && !c.due && c.stale + c.passed + c.cancels == 0
  {
    var c2, s2 := DueBeforeEvent();
    var c3, s3 := Reach(c2, s2, TestDue);
    var c4, s4 := Reach(c3, s3, SetFlag);
    c, steps := Reach(c4, s4, CancelEvent);
  }

  lemma DueBeforeEvent() returns (c: Call, steps: seq<Step>)
    ensures Reachable(c, true, steps) && c.phase == Armed && c.timeout && !c.cancelled && !c.queued && !c.slot
    ensures !c.live && c.due && c.stale + c.passed + c.cancels == 0
  {
    var c1, s1 := Reach(Begin(true), [], Attempt(Again));
    c, steps := Reach(c1, s1, Expire);
  }

  /** One step further along a run. */
  lemma Reach(c: Call, steps: seq<Step>, step: Step) returns (c': Call, steps': seq<Step>)
    requires Reachable(c, true, steps) && Enabled(c, step)
    ensures c' == Do(c, step) && steps' == steps + [step] && Reachable(c', true, steps')
  {
    hide Do, Enabled;
    Extend(Begin(true), steps, c, step);
    c', steps' := Do(c, step), steps + [step];
  }

  /** Then the timeout is lost: a run reaches a state that only readiness or close can leave. */
  lemma LostTimeout() returns (c: Call, steps: seq<Step>)
    ensures Reachable(c, true, steps) && Stuck(c)
  {
    var c5, s5 := FlagBeforeEvent();
    c, steps := Reach(c5, s5, AddEvent(false));
    NothingElse(c);
  }

  ghost predicate Stuck(c: Call) {
    c.phase == Parked && c.timeout && forall step :: Next(c, step).Some? ==> step == Trigger
  }

  lemma NothingElse(c: Call)
    requires c.phase == Parked && c.timeout && !c.queued && !c.live && !c.due && c.stale + c.passed + c.cancels == 0
    ensures Stuck(c)
  {
    forall step | Next(c, step).Some? ensures step == Trigger {
      assert !IsTimer(step);
    }
  }

  // ----- The early timeout

  predicate NoAttempt(steps: seq<Step>) { forall i :: 0 <= i < |steps| ==> !steps[i].Attempt? }

  /** The round that begins in `c` can time out although its own timer never expired. */
  ghost predicate TimesOutEarly(c: Call)
    requires c.phase == Trying
  {
    var c1 := Next(c, Attempt(Again)).value;
    exists steps :: NoAttempt(steps) && EndsEarly(After(c1, steps))
  }

  predicate EndsEarly(c: Option<Call>) { c.Some? && c.value.phase == TimedOut && !c.value.expired }

  /** A round can time out before its timer expires if and only if, when it begins, a callback of an
      earlier round is outstanding or the flag is already set. */
  lemma EarlyTimeout(c: Call)
    requires Inv(c) && c.phase == Trying
    ensures TimesOutEarly(c) <==> c.Outstanding()
  {
    var c1 := Next(c, Attempt(Again)).value;
    NextInv(c, Attempt(Again), c1);
    if c.Outstanding() {
      EarlyPath(c, c1);
    } else if TimesOutEarly(c) {
      var steps :| NoAttempt(steps) && EndsEarly(After(c1, steps));
      AfterInv(c1, steps, After(c1, steps).value);
      StaysClean(c1, steps);
    }
  }

  lemma {:induction false} StaysClean(c: Call, steps: seq<Step>)
    requires Inv(c) && c.clean && NoAttempt(steps) && After(c, steps).Some?
    ensures After(c, steps).value.clean
    decreases |steps|
  {
    hide Next, Inv;
    if steps != [] {
      assert NoAttempt(steps[1..]);
      NextInv(c, steps[0], Next(c, steps[0]).value);
      StaysClean(Next(c, steps[0]).value, steps[1..]);
    }
  }

  lemma EarlyPath(c: Call, c1: Call)
    requires Inv(c) && c.phase == Trying && c.Outstanding() && Next(c, Attempt(Again)) == Some(c1)
    ensures TimesOutEarly(c)
  {
    var c2 := Next(c1, AddEvent(false)).value;
    var steps := [] + [AddEvent(false)];
    Extend(c1, [], c1, AddEvent(false));
    if c.cancelled {
      FlaggedPath(c1, steps, c2);
    } else if c.passed > 0 {
      PassedPath(c1, steps, c2);
    } else {
      Extend(c1, steps, c2, TestStale);
      PassedPath(c1, steps + [TestStale], Next(c2, TestStale).value);
    }
  }

  lemma FlaggedPath(c1: Call, steps: seq<Step>, c: Call)
    requires After(c1, steps) == Some(c) && NoAttempt(steps) && c.phase == Parked && c.slot && c.cancelled && !c.expired
    ensures exists more :: NoAttempt(more) && EndsEarly(After(c1, more))
  {
    Extend(c1, steps, c, Trigger);
    Extend(c1, steps + [Trigger], c.Woken(), Resume);
    assert NoAttempt(steps + [Trigger] + [Resume]) && EndsEarly(After(c1, steps + [Trigger] + [Resume]));
  }

  lemma PassedPath(c1: Call, steps: seq<Step>, c: Call)
    requires After(c1, steps) == Some(c) && NoAttempt(steps)
    requires c.phase == Parked && c.slot && c.passed > 0 && !c.expired
    ensures exists more :: NoAttempt(more) && EndsEarly(After(c1, more))
  {
    Extend(c1, steps, c, SetFlag);
    FlaggedPath(c1, steps + [SetFlag], Next(c, SetFlag).value);
  }

  /** A callback is left over when the call is woken after its timer was taken. */
  lemma LeftOverArises() returns (c: Call, steps: seq<Step>)
    ensures Reachable(c, true, steps) && c.phase == Trying && c.due && !c.cancelled && c.cancels == 0 && c.passed == 0
  {
    var c1, s1 := Reach(Begin(true), [], Attempt(Again));
    var c2, s2 := Reach(c1, s1, AddEvent(false));
    var c3, s3 := Reach(c2, s2, Expire);
    var c4, s4 := Reach(c3, s3, Trigger);
    c, steps := Reach(c4, s4, Resume);
  }

  /** It may also run between two rounds, and then none is left but the flag is set. */
  lemma FlagArises() returns (c: Call, steps: seq<Step>)
    ensures Reachable(c, true, steps) && c.phase == Trying && !c.due && c.cancelled && c.cancels == 0
  {
    var c5, s5 := LeftOverArises();
    var c6, s6 := Reach(c5, s5, TestDue);
    var c7, s7 := Reach(c6, s6, SetFlag);
    c, steps := Reach(c7, s7, CancelEvent);
  }
}
