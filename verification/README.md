# Saturn, modelled and proved in Dafny

Saturn is a fibre-based network runtime. This project models the parts of it that carry state and
invariants, and proves what they promise. `dafny verify dfyconfig.toml` checks everything.

* **The event and fibre runtime.** `EventTable` has the waiter slots, the pending counter and the
  kernel's registrations, as a specification and as the class `IOManager` that updates them.
  `Runtime` is the whole protocol as a state and its steps: queue, workers, fibres, event table and
  waiting clients. `SchedulerLoop` is `Scheduler::run` as it changes its fields, proved to take those
  steps, and `Reactor` proves the same of the calls on the event table with the scheduling they cause.
  `HookedIo` is one `io ()` call racing readiness against its timeout, `Timers` is `TimerManager`, and
  `IoRefinement` proves that what the protocol does to a fibre is a run of its hooked call.
* **`ByteArray`.** `ByteArrays` proves that the block list with its cursor is one flat byte string,
  windows included; `Streams` adds the socket transfers; `Codec`, `TypedStream` and `TypedAccess` add
  the typed encodings, on flat bytes and over the blocks, and `Overruns` tells which reads stay inside
  their destinations.
* **The bundled bstring library.** `Search`, `BStrings` with `SnapUp`, `FindReplace`, `StreamReader`,
  `SplitJoin`, `Base64` and `YEnc`.
* **URL coding and query parsing.** `Url` and `Query`.

Methods follow the source's loops and in-place updates. Each is specified by a function or property of
its inputs, and the theorems are lemmas about those. Bytes are integers from 0 to 255; integers are
unbounded, with the source's widths written out where a value can wrap.

## Where the code does less than its purpose

The code is modelled as it is, and each theorem gives the exact condition.

* A cancel leaves EPOLLIN registered, and a report can be handled after another worker changed the mask,
  so a report can fail the assertion of `triggerEvent` (`EventTable.AbortsIff`,
  `EventTable.SpareInterestAborts`, `EventTable.StaleReportAborts`). The ready step of `Runtime` has that
  assertion as its guard.
* A fibre whose event is deleted is never woken (`Runtime.ForgottenIffDeleted`,
  `Runtime.ForgottenStays`, `Runtime.ForgottenArises`).
* A hooked call whose timer callback is done before `addEvent` waits without a timeout, and a callback
  left over from an earlier round, or the flag it set, times a later round out early
  (`HookedIo.TimeoutStillComes`, `HookedIo.LostTimeout`, `HookedIo.EarlyTimeout`,
  `HookedIo.LeftOverArises`, `HookedIo.FlagArises`).
* `reset (ms, true)` adds the old interval, after which `refresh` can miss a wake-up
  (`Timers.TimerManager.Refresh`, `Timers.RefreshAfterShortening`).
* `readInt64` reads a 32-bit varint, and 16-bit and 32-bit length prefixes drop high bits
  (`TypedStream.ItemRoundTrip`).
* `read` copies the rest of the last block, behind the end of a destination that holds only what was
  asked for (`ByteArrays.ByteArray.Read`, `Overruns.AllStay`, `TypedAccess.OverrunExample`). The values
  returned by the typed reads are those of a program whose memory behind its locals does not matter;
  `spill` says when that is needed.
* A read of no bytes at full capacity follows a null pointer (`TypedAccess.Get`,
  `TypedAccess.NullBlockExample`).
* `bsreada` does not complete a short direct read, although its comment promises n bytes or all
  (`StreamReader.ShortDirectRead`).
* `bjoin` of an empty list computes no room for a one-byte separator and then writes outside it, and a
  negative size for a longer one, which cannot be allocated (`SplitJoin.RoomFits`, `SplitJoin.NoRoom`).
* The query parser looks for '=' without regard to '&', so keys may hold '&' but not '='
  (`Query.QueryRoundTrip`).

## Model

| member | source | states |
|---|---|---|
| EventTable.InitialInv | saturn/iomanager.cc:34-34 | The table after construction is consistent |
| EventTable.GrownInv | saturn/iomanager.cc:86-94 | Growing the table to exactly `fd * 2` contexts makes room for the descriptor, changes no event and keeps the table consistent |
| EventTable.AddedInv | saturn/iomanager.cc:104-131 | Where the bit is clear, the slot is completely empty (the clean-slot assertion cannot fail), and adding a waiter keeps counter, slots and kernel in agreement |
| EventTable.RemovedInv | saturn/iomanager.cc:151-202 | Removing set bits keeps counter, slots and kernel in agreement, and each removed bit had a task to wake |
| EventTable.AddedWaits | saturn/iomanager.cc:104-131 | The new waiter stands in the slot of its own event; the other slot and every other descriptor are as before, and the kernel watches exactly one event more |
| EventTable.RemovedWaits | saturn/iomanager.cc:151-202 | Only the removed events lose their slots; the others keep their waiters, and the kernel watches what is still wanted and the spare events |
| EventTable.WaitersInOrder | saturn/iomanager.cc:231-238 | The tasks of a set of events are the waiter in the READ slot and then the waiter in the WRITE slot |
| EventTable.WithoutSteps | saturn/iomanager.cc:231-238 | Triggering READ and then WRITE removes the same events, and schedules the same waiters in the same order, as removing them together |
| EventTable.NoBitsNoEvents | saturn/iomanager.cc:362-367 | A pending count of zero means that no descriptor has an event |
| EventTable.IOManager.EpollCtl | saturn/iomanager.cc:104-108 | The kernel accepts ADD only for an unregistered descriptor and MOD and DEL only for a registered one |
| EventTable.IOManager.ContextResize | saturn/iomanager.cc:351-360 | New contexts are empty and the old ones unchanged; a smaller size cuts contexts off |
| EventTable.IOManager.TriggerEvent | saturn/iomanager.cc:68-79 | The bit is cleared, the slot emptied and exactly its task scheduled |
| EventTable.IOManager.AddEvent | saturn/iomanager.cc:82-133 | Succeeds unless the kernel refuses for its own reasons, so the chosen operation is always legal; the whole new table is given and is consistent |
| EventTable.IOManager.DelEvent | saturn/iomanager.cc:135-169 | True iff the event was set and the kernel agrees; the waiter is dropped without being scheduled; otherwise nothing changes |
| EventTable.IOManager.CancelEvent | saturn/iomanager.cc:170-202 | As for delete, and the waiter is scheduled exactly once |
| EventTable.IOManager.CancelAll | saturn/iomanager.cc:203-243 | Every waiter of the descriptor is scheduled once, READ first, and no event is left |
| EventTable.IOManager.TriggerAll | saturn/iomanager.cc:231-238 | The events given are cleared, their tasks scheduled in order and the counter lowered by their number |
| EventTable.IOManager.HandleReady | saturn/iomanager.cc:297-341 | One report: ignored, refused by the kernel, aborted by the assertion of `triggerEvent`, or fired. Fired, a wanted event with its own flag, and with an error or hang-up every wanted event, is no longer wanted and its waiter is scheduled, the reader first; after an error or hang-up nothing is left |
| EventTable.FiredServes | saturn/iomanager.cc:303-316 | An input-only report serves the READ waiter alone, an output-only report the WRITE waiter, an error or hang-up both |
| EventTable.AbortsIff | saturn/iomanager.cc:307-340 | That assertion fails exactly when a report names a wanted event together with an unwanted one and the kernel accepts the change |
| EventTable.ExactMaskNeverAborts | saturn/iomanager.cc:322-340 | When the registered mask is exactly the wanted one, no report made from that mask fails the assertion |
| EventTable.SpareInterestAborts | saturn/iomanager.cc:186-200 | The EPOLLIN left registered by a cancel makes the failing report possible in a reachable, consistent table |
| EventTable.StaleReportAborts | saturn/iomanager.cc:283-340 | An exact mask does not protect a report fetched before it changed: another worker serving the input first makes the assertion fail |
| EventTable.AppliedInv | saturn/iomanager.cc:82-341 | A call that fails no assertion keeps the table consistent, and waiters are conserved: added = deleted + scheduled + change of the pending count |
| EventTable.AllAppliedInv | saturn/iomanager.cc:82-341 | The same over every sequence of calls |
| EventTable.Perform | saturn/iomanager.cc:82-341 | A call on the object leaves exactly the specified table and schedules exactly the specified tasks in order |
| EventTable.PerformAll | saturn/iomanager.cc:82-341 | The same for every sequence of calls up to the first failing assertion, with the conservation of waiters |
| Runtime.NextInv | saturn/scheduler.cc:131-215 | Every step of the runtime (new task, dequeue and resume, yield, wait, callback wait, thread switch, sleep and its end, delete, cancel, cancel all, readiness) keeps the invariant |
| Runtime.RunInv | saturn/scheduler.cc:131-215 | The invariant holds in every state of every run, for any number of workers and any interleaving |
| Runtime.DequeueIsSafe | saturn/scheduler.cc:138-184 | A resumed task is unpinned or pinned to this worker and not running elsewhere, and the worker's callback fibre is null or INIT, so neither `reset` nor `swapIn` asserts |
| Runtime.DequeueRuns | saturn/scheduler.cc:152-184 | The worker goes on with the task of the entry it took: a fibre itself, a callback on the fibre that now carries it |
| Runtime.QueueKeeps | saturn/scheduler.h:37-94 | Only a dequeue removes from the queue; all else is added at its end, for any thread unless the task or the switch names one |
| Runtime.OneEntry | saturn/scheduler.cc:138-159 | A task has at most one entry in the queue |
| Runtime.PinStays | saturn/scheduler.cc:138-159 | An entry stays in the queue, with its thread, until its task is taken |
| Runtime.RunsWhereAsked | saturn/scheduler.cc:138-244 | In every run a task scheduled on a thread, or a fibre that switches to it, is next taken by the worker of that thread |
| Runtime.FiberConservation | saturn/scheduler.cc:131-195 | A fibre runs on exactly one worker, or waits with exactly one wake-up in queue, slots or timers unless its waiter was deleted, or is finished or idle with none |
| Runtime.ForgottenIffDeleted | saturn/iomanager.cc:135-169 | A parked fibre is left without any wake-up if and only if its waiter was deleted |
| Runtime.ForgottenStays | saturn/iomanager.cc:135-169 | Such a fibre stays parked whatever step follows |
| Runtime.ForgottenArises | saturn/iomanager.cc:135-169 | A run in which a fibre parks and then loses its waiter |
| Runtime.CallbackConservation | saturn/scheduler.cc:178-195 | An accepted callback is queued or waiting once unless its waiter was deleted, carried by one live fibre that carries no other, or finished |
| Runtime.ExactlyOnceWakeup | saturn/hook.cc:94-127 | Waits registered = schedulings caused + the at most one still in a slot or deleted; a running fibre that is not about to park has had all its waits answered |
| Runtime.EarlyWakeupIsKept | saturn/scheduler.cc:148-151 | A wake-up that arrives before the fibre has yielded stays in the queue across every step while the fibre is still running |
| Runtime.StoppingMeansDone | saturn/iomanager.cc:362-367 | When `stopping ()` can hold, no fibre or callback is left waiting or running except those whose waiter was deleted |
| Runtime.TriggeredCount | saturn/iomanager.cc:68-79 | A trigger moves wake-ups from slots to the queue and neither creates nor loses one |
| Runtime.DeletedCount | saturn/iomanager.cc:164-168 | Deleting a waiter takes away exactly its one wake-up, and no other |
| Runtime.SleepInv | saturn/hook.cc:140-151 | A sleeping fibre has its timer as its only wake-up |
| Runtime.GrowInv | saturn/iomanager.cc:86-94 | Growing the event table changes nothing else in the protocol |
| Runtime.YieldInv | saturn/scheduler.cc:169-195 | The bookkeeping after a fibre switched back keeps the invariant for all four ways of switching back |
| Runtime.ResumeCallbackInv | saturn/scheduler.cc:178-184 | Starting a callback on the reused or a new callback fibre keeps the invariant |
| SchedulerLoop.Scheduler.constructor | saturn/scheduler.cc:120-130 | A scheduler without tasks refines the initial protocol state |
| SchedulerLoop.Scheduler.Schedule | saturn/scheduler.h:37-94 | Pushes the task and asks for a tickle exactly when the queue was empty; for a new task this is the protocol's step |
| SchedulerLoop.Scheduler.Scan | saturn/scheduler.cc:138-159 | The first entry that is for any thread or this one and whose fibre is not running; every entry before it is pinned elsewhere or holds a running fibre; a tickle exactly when another entry follows or one was skipped for its thread |
| SchedulerLoop.EligibleIs | saturn/scheduler.cc:141-151 | Which entries a worker takes, by thread and fibre state |
| SchedulerLoop.Scheduler.RunOnce | saturn/scheduler.cc:131-207 | One round up to its switch takes the first entry for any thread or this one whose fibre is not running, and runs its fibre, or its callback on the callback fibre, unless the fibre has ended; this is the dequeue step. A worker idles, or stops when its idle fibre has ended, only if every entry is pinned elsewhere or holds a running fibre. The tickle is exactly the scan's |
| SchedulerLoop.Scheduler.TakeEntry | saturn/scheduler.cc:152-184 | The entry is erased, its fibre or the callback fibre runs, the active count grows by one, and no assertion of `reset` or `swapIn` fails |
| SchedulerLoop.Scheduler.Idle | saturn/scheduler.cc:196-207 | The idle counter is the number of workers inside their idle fibre, which was not running before |
| SchedulerLoop.Scheduler.IdleBack | saturn/scheduler.cc:208-212 | Leaving the idle fibre restores the counter and parks the fibre unless it ended |
| SchedulerLoop.Scheduler.SwitchedBack | saturn/scheduler.cc:168-195 | After its fibre switched back the worker counts itself inactive, queues a READY fibre again for any thread, parks one that holds, and keeps a finished callback fibre as INIT for the next callback; this is the yield step |
| Reactor.Wait | saturn/iomanager.cc:82-133 | Adding the running fibre's event is the wait step of the protocol, or only grows the table when the kernel refuses |
| Reactor.Cancel | saturn/iomanager.cc:170-202 | Cancelling an event and scheduling its waiter is the cancel step, or changes nothing |
| Reactor.CancelAll | saturn/iomanager.cc:203-243 | Cancelling all events is the cancel-all step, or changes nothing |
| Reactor.Delete | saturn/iomanager.cc:135-169 | Deleting an event is the delete step, or changes nothing |
| Reactor.Ready | saturn/iomanager.cc:297-341 | A report that fires is the ready step; any other that does not abort changes nothing |
| IoRefinement.CallFollows | saturn/hook.cc:92-127 | Every step of the runtime shows in the hooked call of an undisturbed fibre as its add, trigger or resume step, which is always possible, or as nothing |
| IoRefinement.RunFollows | saturn/hook.cc:92-127 | Whatever any run of the runtime does to an undisturbed fibre is a run of the hooked call; if a cancel is that of the call's timer, the call has timed out as soon as the fibre is resumed |
| IoRefinement.TimeoutFollows | saturn/hook.cc:99-106 | The cancel of the timer callback is the expiry, test, flag and cancel steps of the call |
| IoRefinement.TimedOutArises | saturn/hook.cc:92-127 | A run of the runtime in which the hooked call times out |
| IoRefinement.TimersShow | saturn/hook.cc:99-106 | The timers show in the fibre only by waking it, as a trigger does |
| IoRefinement.ExpireShows | saturn/timer.cc:115-138 | The timer set delivers the round's timer in the expire step of the call, or keeps it |
| IoRefinement.CancelShows | saturn/hook.cc:117-120 | Cancelling the timer does to the timer set what the resume step does to the call |
| HookedIo.RunInv | saturn/hook.cc:70-128 | In every state of every hooked call the fibre has one wake-up exactly while it is parked, and its timer is ahead of it unless the flag is set or a callback is at work |
| HookedIo.NextInv | saturn/hook.cc:92-128 | Every step keeps that; a timer callback tests the flag, sets it and cancels the event in three steps |
| HookedIo.OneWakePerWait | saturn/hook.cc:94-127 | Readiness, timeout and close together answer each wait at most once, and every wait has been answered when the fibre goes on |
| HookedIo.RunAnswers | saturn/hook.cc:92-127 | In every run the call returns exactly what its last attempt returned, -1 after a refused `addEvent`, or the timeout after a resume with the flag set; after any other resume it tries again |
| HookedIo.OverIsQuiet | saturn/hook.cc:99-106 | Once the call is over, a callback that begins does nothing, and one at work cancels at most once more |
| HookedIo.TimeoutStillComes | saturn/hook.cc:98-109 | The timers alone can still wake a call waiting in its slot if and only if it is not so that at `addEvent` the flag was set and no callback was between its test and its `cancelEvent` |
| HookedIo.LostTimeout | saturn/hook.cc:98-117 | A timer whose callback is done before `addEvent` is lost: a run reaches a state that only readiness or close can leave |
| HookedIo.EarlyTimeout | saturn/hook.cc:117-125 | A round can time out before its own timer expires if and only if, when it begins, a callback of an earlier round is outstanding or the flag is already set |
| HookedIo.LeftOverArises | saturn/hook.cc:117-125 | A run in which such a callback is outstanding |
| HookedIo.FlagArises | saturn/hook.cc:102-125 | A run in which none is, but the flag is set |
| Timers.TimerManager.AddTimer | saturn/timer.cc:86-90 | The set stays strictly sorted with the new timer due at now + ms, and wake-up safety is kept |
| Timers.TimerManager.PushTimer | saturn/timer.cc:143-154 | Notifies exactly when the timer is the new earliest one and nobody was notified yet, which keeps wake-up safety |
| Timers.TimerManager.Cancel | saturn/timer.cc:37-48 | True iff the timer was stored; afterwards it is neither stored nor live |
| Timers.TimerManager.Refresh | saturn/timer.cc:49-61 | The deadline moves to now + interval; wake-up safety survives exactly when the sleeper was notified, the timer was not stored, or the new deadline is not before the reported one |
| Timers.TimerManager.Reset | saturn/timer.cc:62-79 | Fails iff the timer is not stored; else the interval becomes the new one, the deadline is the old interval from now, or keeps the point from which the interval counts, nothing else changes, and wake-up safety is kept |
| Timers.TimerManager.GetNextTimer | saturn/timer.cc:103-114 | The time to the earliest deadline; from here on wake-up safety holds |
| Timers.TimerManager.ListExpired | saturn/timer.cc:115-138 | Delivers, by deadline and then by identity, exactly the timers due before now and those due now up to the probe, re-arms exactly the recurring ones at now + interval and leaves the others alone |
| Timers.TimerManager.UpperBound | saturn/timer.cc:120-124 | Splits the sorted set at the key of the current time |
| Timers.InsertKeepsSorted | saturn/timer.cc:12-29 | Inserting at the upper bound keeps the set strictly sorted by deadline and identity |
| Timers.PrefixIsDue | saturn/timer.cc:119-124 | The part before the upper bound holds, by deadline and then by identity, exactly the timers due before now and those due now up to the probe |
| Timers.Perform | saturn/timer.cc:37-154 | Each call does to the timers, the set and the flag exactly what its step says and causes exactly its events; wake-up safety survives unless a shortened timer is refreshed |
| Timers.Run | saturn/timer.cc:37-154 | For every sequence of calls and non-decreasing clock, state by state and event by event: no delivery after a cancel that returned true, and wake-up safety unless a timer shortened by `reset (ms, true)` was refreshed |
| Timers.LogGrows | saturn/timer.cc:37-48 | A delivered timer was live, a cancelled one is not, and none comes back to life |
| Timers.RefreshAfterShortening | saturn/timer.cc:62-75 | Such a refresh does leave a timer due before the sleeper wakes, unnotified |
| ByteArrays.ByteArray.CursorBlock | saturn/bytearray.cc:384-385 | The cursor's block is block number position / base size, and null exactly at full capacity |
| ByteArrays.OffsetIsRemainder | saturn/bytearray.cc:352-353 | The offset taken with `%` is the distance from the start of the cursor's block |
| ByteArrays.BlocksForCovers | saturn/bytearray.cc:509-510 | The rounded-up number of blocks covers the bytes asked for and no whole block more |
| ByteArrays.FillsCapacity | saturn/bytearray.cc:509-527 | Written bytes fill the capacity exactly when they reach the old one and end at a block boundary |
| ByteArrays.ByteArray.constructor | saturn/bytearray.cc:28-35 | One block, empty, cursor at its start |
| ByteArrays.ByteArray.AddCapacity | saturn/bytearray.cc:500-529 | Room for the bytes behind the cursor, old bytes kept, cursor valid again after full capacity |
| ByteArrays.ByteArray.Write | saturn/bytearray.cc:347-378 | The effect of a flat write at the cursor, across any number of block boundaries; size grows as needed and capacity by less than a block more than that |
| ByteArrays.ByteArray.Read | saturn/bytearray.cc:380-407 | Refused iff fewer bytes are left, follows the null block iff no bytes are read at full capacity; else exactly the n bytes at the cursor and the rest of the last block are written to the destination, nothing beyond, and the cursor moves by n |
| ByteArrays.OverrunIs | saturn/bytearray.cc:388-396 | What a read writes too much is the rest of the block with its last byte, and so nothing exactly when it is empty or ends at a block boundary |
| ByteArrays.ByteArray.SetPosition | saturn/bytearray.cc:439-455 | Fails iff beyond the capacity; else the cursor stands at the position, in the right block, and the size grows to it |
| ByteArrays.ByteArray.Clear | saturn/bytearray.cc:334-345 | Back to one block, position and size zero |
| ByteArrays.ByteArray.GetReadBuffers | saturn/bytearray.cc:557-586 | Windows that run through consecutive bytes from the cursor, as many as asked for and readable |
| ByteArrays.ByteArray.GetWriteBuffers | saturn/bytearray.cc:625-653 | Windows over consecutive bytes from the cursor, exactly as many as asked for, with room made |
| ByteArrays.ByteArray.Scatter | saturn/bytearray.cc:625-653 | Filling such windows in order is one flat overwrite from the cursor |
| ByteArrays.ByteArray.Gather | saturn/bytearray.cc:557-586 | Reading such windows in order is one flat slice from the cursor |
| Streams.ReadInto | saturn/stream/socketstream.cc:28-39 | Returns what the socket grants; receiving k bytes into write windows and moving the cursor has the effect of a write of those bytes |
| Streams.WriteFrom | saturn/stream/socketstream.cc:48-59 | What is sent from read windows is the flat bytes at the cursor, which moves by their number |
| Streams.ReadFixSize | saturn/stream.cc:18-28 | For every pattern of short reads, one transfer of the bytes received; success iff all arrived, which they do when every call transfers something |
| Streams.WriteFixSize | saturn/stream.cc:45-55 | Dually for sending |
| Codec.StoredOrder | saturn/bytearray.cc:63-98 | The stored bytes depend on the chosen byte order alone, not on the machine's |
| Codec.StoredAt | saturn/bytearray.cc:63-98 | Octet k of the value stands at place k in little-endian order and at place n - 1 - k in big-endian order, on any machine |
| Codec.LoadedAt | saturn/bytearray.cc:195-250 | The value read has the stored octets at these places |
| Codec.TwosComplement | saturn/bytearray.cc:57-98 | A negative value is stored as its remainder, and a stored value with the top bit is negative |
| Codec.FixedRoundTrip | saturn/bytearray.cc:63-250 | Storing on one machine and loading on another in the same order gives the integer back |
| Codec.OctetsJoined | saturn/bytearray.cc:195-250 | Splitting and joining octets are inverse |
| Codec.VarintLength | saturn/bytearray.cc:129-152 | A varint has at most n bytes iff the value is below 128^n, so the staging arrays of 5 and 10 bytes suffice |
| Codec.VarintAt | saturn/bytearray.cc:129-152 | Byte k of a varint carries the bits of weight 128^k, with 128 added to all but the last byte |
| Codec.ScanReads | saturn/bytearray.cc:257-288 | On any bytes the read ends behind the first byte below 128 or after all rounds, fails iff the bytes run out before, and has the low seven bits of each byte in their place |
| Codec.VarintRoundTrip | saturn/bytearray.cc:129-152 | A varint that fits in the read rounds is read back to its end; of a longer one exactly the low bits are read |
| Codec.ZigzagRoundTrip | saturn/bytearray.cc:101-123 | Zigzag decoding undoes encoding over the whole signed range, the minimum included |
| Codec.UnzigzagInjective | saturn/bytearray.cc:117-123 | Different codes decode to different values |
| TypedStream.ItemRoundTrip | saturn/bytearray.cc:57-332 | Each typed write is read back, ending where it ended, exactly for narrow items: 32-bit values for `int64`, lengths that fit the prefix |
| TypedStream.FixedAt | saturn/bytearray.cc:57-98 | Where each octet of a fixed-width integer is written, negative ones included |
| TypedStream.VarintItemAt | saturn/bytearray.cc:100-152 | What each byte of a varint or zigzag integer is |
| TypedStream.TextAt | saturn/bytearray.cc:167-182 | A string is written behind its length, which is an integer of 2, 4 or 8 octets, cut to its width, or a varint |
| TypedStream.PlainReads | saturn/bytearray.cc:257-288 | The 32-bit read looks at five bytes at most and the 64-bit read at ten, and what they spell is cut to the width |
| TypedStream.WideZigzagBack | saturn/bytearray.cc:271-273 | A 64-bit zigzag value survives the 32-bit read iff it lies in the 32-bit range |
| TypedStream.WideZigzagLoses | saturn/bytearray.cc:271-273 | 2^31 does not survive `writeInt64` and `readInt64` |
| TypedStream.TypedRoundTrip | saturn/bytearray.cc:57-332 | Any sequence of typed writes is read back in order, ending where it ended, if and only if every item is narrow |
| Overruns.ItemStays | saturn/bytearray.cc:187-332 | Reading a written item back stays inside its local or string exactly when each of its reads ends at a block boundary, which the item and its position tell: a varint only if it is one such byte or blocks have one byte |
| Overruns.AllStay | saturn/bytearray.cc:187-332 | The same for any sequence of items |
| TypedAccess.StageVarint | saturn/bytearray.cc:129-152 | The staging loop stays inside its array and produces the varint |
| TypedAccess.Put | saturn/bytearray.cc:57-185 | Each typed write puts its encoding at the cursor of the block list |
| TypedAccess.GetVarint | saturn/bytearray.cc:257-288 | The shift-and-or loop returns what the flat scan reads, cut to the width, on every input, malformed ones included |
| TypedAccess.Get | saturn/bytearray.cc:187-332 | Each typed read is the flat decoding at the cursor; it fails iff the bytes run out, follows the null block iff an empty string ends at full capacity, leaves the cursor at a known place in either case, and overruns its destinations by exactly the given number of bytes |
| TypedAccess.WriteThenRead | saturn/bytearray.cc:57-332 | Write, rewind, read on any block size and byte order: the values come back and the cursor ends where the writes did iff all items are narrow and no final empty string reaches the old capacity and ends at a block boundary, which follows the null block; the reads stay inside their destinations iff every item is contained |
| TypedAccess.OverrunExample | saturn/bytearray.cc:193-197 | One byte read back from a two-byte block overruns its local |
| TypedAccess.NullBlockExample | saturn/bytearray.cc:302-308 | Reading back an empty string whose prefix fills a two-byte block follows the null block |
| Search.Binstr | saturn/http/external/mongrel2/bstr/bstrlib.cc:1023-1099 | The least occurrence at or after `pos`, or the error code iff there is none |
| Search.GreedyScan | saturn/http/external/mongrel2/bstr/bstrlib.cc:1056-1098 | The two-at-a-time subsequence scan skips no occurrence and terminates |
| Search.MismatchExcludes | saturn/http/external/mongrel2/bstr/bstrlib.cc:1060-1095 | A mismatch at i against pattern byte j rules out the occurrence at i - j, so restarting there skips nothing |
| BStrings.SnapUpSize | saturn/http/external/mongrel2/bstr/bstrlib.cc:71-93 | The least power of two above the request, and at least eight |
| SnapUp.SnapUpIs | saturn/http/external/mongrel2/bstr/bstrlib.cc:71-93 | Below 2^30 the smearing of the highest bit computes that size, on 32-bit patterns |
| SnapUp.SnapUpStops | saturn/http/external/mongrel2/bstr/bstrlib.cc:88-92 | From 2^30 on the request is returned unchanged |
| BStrings.BString.constructor | saturn/http/external/mongrel2/bstr/bstrlib.cc:244-268 | A string with the given bytes |
| BStrings.BString.Alloc | saturn/http/external/mongrel2/bstr/bstrlib.cc:99-153 | Room without changing the string |
| BStrings.BString.Append | saturn/http/external/mongrel2/bstr/bstrlib.cc:318-344 | Contents become old contents + block |
| BStrings.BString.AppendChar | saturn/http/external/mongrel2/bstr/bstrlib.cc:350-360 | Contents become old contents + character |
| BStrings.BString.DeleteFront | saturn/http/external/mongrel2/bstr/bstrlib.cc:965-987 | The first bytes are gone and the others kept in order |
| BStrings.BString.InsertFront | saturn/http/external/mongrel2/bstr/bstrlib.cc:1455-1494 | The block stands before the old contents |
| FindReplace.FindReplaceEngine | saturn/http/external/mongrel2/bstr/bstrlib.cc:1554-1692 | All three in-place algorithms compute the same replacement of every leftmost non-overlapping occurrence from `pos` on; error code iff `pos` is negative or the pattern empty |
| FindReplace.ReplaceEqual | saturn/http/external/mongrel2/bstr/bstrlib.cc:1587-1595 | Equal lengths: the loop computes that replacement although it searches the buffer it is changing |
| FindReplace.ReplaceShrinking | saturn/http/external/mongrel2/bstr/bstrlib.cc:1598-1621 | Shrinking: sliding pieces left while still searching the unread rest computes it |
| FindReplace.ReplaceExpanding | saturn/http/external/mongrel2/bstr/bstrlib.cc:1637-1684 | Expanding: collecting matches and moving pieces right to left in the same buffer computes it |
| FindReplace.CollectMatches | saturn/http/external/mongrel2/bstr/bstrlib.cc:1641-1663 | The doubling index array holds exactly the matches, with room for one more, and the total growth |
| FindReplace.FirstAtIsFirst | saturn/http/external/mongrel2/bstr/bstrlib.cc:1588-1588 | The search used by the specification is the leftmost occurrence |
| FindReplace.FirstIgnoresPrefix | saturn/http/external/mongrel2/bstr/bstrlib.cc:1601-1608 | Overwriting bytes before the search position does not change the search |
| FindReplace.MatchesAreApart | saturn/http/external/mongrel2/bstr/bstrlib.cc:1641-1663 | The matches are occurrences at or after the start that do not overlap |
| FindReplace.EveryOccurrenceIsHit | saturn/http/external/mongrel2/bstr/bstrlib.cc:1641-1663 | Every occurrence of the pattern overlaps or is one of the matches, so none is missed |
| FindReplace.TargetPieces | saturn/http/external/mongrel2/bstr/bstrlib.cc:1670-1682 | In the replaced string each match became the replacement and each piece between matches stands unchanged at its shifted place |
| StreamReader.LineUnique | saturn/http/external/mongrel2/bstr/bstrlib.cc:1983-2038 | A prefix with no terminator before its last byte that ends in one or is everything is the line |
| StreamReader.BStream.constructor | saturn/http/external/mongrel2/bstr/bstrlib.cc:1926-1937 | A stream whose pending bytes are those of the source |
| StreamReader.BStream.ReadLine | saturn/http/external/mongrel2/bstr/bstrlib.cc:1983-2038 | Moves bytes from the front of buffer ++ source to the result without loss or reordering, through the first terminator, or until one read delivers nothing and then all of them; an error code iff nothing was moved |
| StreamReader.BStream.ReadChunks | saturn/http/external/mongrel2/bstr/bstrlib.cc:2014-2030 | The direct reads stop at the first chunk that holds the terminator or at the end |
| StreamReader.BStream.Read | saturn/http/external/mongrel2/bstr/bstrlib.cc:2118-2173 | Moves a prefix of at most n bytes: on the direct path exactly one chunk, on every other path n bytes unless a read delivers nothing, and from an honest source n bytes or all; an error code iff nothing was moved |
| StreamReader.BStream.Unread | saturn/http/external/mongrel2/bstr/bstrlib.cc:2229-2232 | The bytes stand before everything pending |
| StreamReader.Serve | saturn/http/external/mongrel2/bstr/bstrlib.cc:1983-2232 | For any mix of calls and any chunk sizes, delivered ++ pending is always the original stream; with an honest source each request delivers exactly its line, its block or what its direct read was granted, or returns what was given back |
| StreamReader.ShortDirectRead | saturn/http/external/mongrel2/bstr/bstrlib.cc:2133-2145 | The direct path does deliver fewer bytes than asked for while more remain, unlike the comment above it says |
| SplitJoin.JoinSplit | saturn/http/external/mongrel2/bstr/bstrlib.cc:2250-2288 | Joining the fields of any string with the split character gives the string back |
| SplitJoin.SplitJoin | saturn/http/external/mongrel2/bstr/bstrlib.cc:2521-2537 | Splitting a joined list gives the list back if and only if it is non-empty and no entry holds the character |
| SplitJoin.SplitField | saturn/http/external/mongrel2/bstr/bstrlib.cc:2521-2537 | A stretch without the character is one field, and the character behind it starts the next |
| SplitJoin.JoinPlaces | saturn/http/external/mongrel2/bstr/bstrlib.cc:2274-2286 | In the joined string each entry stands behind the entries before it and as many separators, the last of them directly before it |
| SplitJoin.BStrList.Collect | saturn/http/external/mongrel2/bstr/bstrlib.cc:2632-2653 | The entry array grows by doubling and the field is appended |
| SplitJoin.SplitInto | saturn/http/external/mongrel2/bstr/bstrlib.cc:2521-2537 | All fields from `pos` on are appended in order, with an error code iff `pos` is outside the string |
| SplitJoin.BSplit | saturn/http/external/mongrel2/bstr/bstrlib.cc:2660-2681 | The list of fields |
| SplitJoin.RoomFits | saturn/http/external/mongrel2/bstr/bstrlib.cc:2257-2264 | The room computed is right exactly unless an empty list is joined with a separator; it is then zero for one byte and negative for more |
| SplitJoin.NoRoom | saturn/http/external/mongrel2/bstr/bstrlib.cc:2257-2270 | The case of an empty list and a one-byte separator |
| SplitJoin.BJoin | saturn/http/external/mongrel2/bstr/bstrlib.cc:2250-2288 | The joined string in a buffer of exactly its size, no string for a negative size, or the terminator written outside a block of no bytes, each exactly when the room says so |
| Base64.RoundTrip | saturn/http/external/mongrel2/bstr/bstraux.cc:310-482 | Decoding an encoding gives every byte string back without an error, for all three tail lengths |
| Base64.JunkIsIgnored | saturn/http/external/mongrel2/bstr/bstraux.cc:382-482 | Inserting characters outside the alphabet and '=' changes the result only between the two final '=' of a text whose last group has two letters |
| Base64.GroupIs | saturn/http/external/mongrel2/bstr/bstraux.cc:317-331 | The four letters of a group spell in base 64 what its three bytes spell in base 256 |
| Base64.TailIs | saturn/http/external/mongrel2/bstr/bstraux.cc:333-357 | The last one or two bytes are filled up with zero bits, and the missing letters with two or one '=' |
| Base64.EncodedPlaces | saturn/http/external/mongrel2/bstr/bstraux.cc:317-357 | An encoding is four characters for every three bytes, in order, and four for what is left at the end |
| Base64.AssembledEnds | saturn/http/external/mongrel2/bstr/bstraux.cc:382-482 | Well formed are exactly whole groups to the end of the text, two letters before two pads and three before a pad, and how many bytes each text gives |
| Base64.AssembledGroup | saturn/http/external/mongrel2/bstr/bstraux.cc:388-481 | The bytes of a group spell what its letters do |
| Base64.AssembledTail | saturn/http/external/mongrel2/bstr/bstraux.cc:421-470 | The bytes at the end spell what the last letters do, without the bits that fill up |
| Base64.LetterAt | saturn/http/external/mongrel2/bstr/bstraux.cc:304-304 | Each letter is the one at its place in the alphabet |
| Base64.SymbolIs | saturn/http/external/mongrel2/bstr/bstraux.cc:365-375 | A character stands for its place in the alphabet, and for an error iff it is neither there nor '=' |
| Base64.Letter | saturn/http/external/mongrel2/bstr/bstraux.cc:304-304 | The table and the symbol decoder agree |
| Base64.Symbol | saturn/http/external/mongrel2/bstr/bstraux.cc:365-375 | The pad code for '=' only, an error for everything outside the alphabet |
| Base64.Encode | saturn/http/external/mongrel2/bstr/bstraux.cc:310-360 | The loop computes the encoding |
| Base64.Decode | saturn/http/external/mongrel2/bstr/bstraux.cc:382-482 | The nested loops compute letters, ending and bytes as specified, with and without the truncation flag, on every text |
| YEnc.RoundTrip | saturn/http/external/mongrel2/bstr/bstraux.cc:751-829 | Decoding an encoding gives every byte string back |
| YEnc.EncodedByteIs | saturn/http/external/mongrel2/bstr/bstraux.cc:759-767 | Exactly the bytes 214, 224, 227 and 19 are escaped, as '=' and the byte plus 106; any other byte becomes itself plus 42 |
| YEnc.DecodedFront | saturn/http/external/mongrel2/bstr/bstraux.cc:802-812 | A character other than '=' stands for itself less 42, CR and LF for nothing, and NUL is an error |
| YEnc.EscapeFront | saturn/http/external/mongrel2/bstr/bstraux.cc:795-801 | An escaped character stands for itself less 106, and an open escape is an error |
| YEnc.NoControls | saturn/http/external/mongrel2/bstr/bstraux.cc:751-773 | An encoding holds no NUL, CR or LF |
| YEnc.BreakIsIgnored | saturn/http/external/mongrel2/bstr/bstraux.cc:808-809 | In any text a line break not directly after '=' does not change the result |
| YEnc.BreakInEscape | saturn/http/external/mongrel2/bstr/bstraux.cc:795-801 | In an encoding a line break directly after '=' always does |
| YEnc.DecodedConcat | saturn/http/external/mongrel2/bstr/bstraux.cc:794-822 | Decoding is piecewise wherever no escape is cut |
| YEnc.Encode | saturn/http/external/mongrel2/bstr/bstraux.cc:751-773 | The loop computes the encoding |
| YEnc.Decode | saturn/http/external/mongrel2/bstr/bstraux.cc:782-829 | The loop through the 64-octet buffer computes the decoding, and fails on NUL and on an escape at the end |
| YEnc.Stage | saturn/http/external/mongrel2/bstr/bstraux.cc:812-821 | Staging an octet appends it to output ++ staged octets, full or not |
| Url.RoundTrip | saturn/util.cc:132-192 | Decoding an encoding gives the string back for every mode of either side, except iff a space is written as '+' and read literally |
| Url.UnreservedIs | saturn/util.cc:87-108 | Left as they are: the letters, the digits and - . = _ ~ |
| Url.HexIs | saturn/util.cc:110-127 | The hexadecimal digits of either case and their values; an encoding is written with capitals |
| Url.EscapeRead | saturn/util.cc:174-180 | An escape with digits of either case is read as its byte |
| Url.LiteralRead | saturn/util.cc:167-183 | Everything else is read as itself, a '%' without two digits behind it included, except '+' for a space |
| Url.EncodedAvoids | saturn/util.cc:132-161 | Reserved characters other than '%' and '+' never appear in an encoding |
| Url.UrlEncode | saturn/util.cc:132-161 | The lazily created buffer equals the eager encoding |
| Url.UrlDecode | saturn/util.cc:163-192 | The lazily created buffer equals the eager decoding, malformed escapes included |
| Query.QueryRoundTrip | saturn/http/http.cc:196-221 | Parsing `k=UrlEncode(v)` fields joined by '&' yields exactly those pairs if and only if no key holds '=' |
| Query.PairRead | saturn/http/http.cc:201-218 | On any text, encoded or not: a key runs to its '=', its decoded value to the next separator, and the next pair starts behind it |
| Query.NoMore | saturn/http/http.cc:203-206 | A rest without '=' holds no pair |
| Query.LowerEqual | saturn/http/http.cc:52-54 | Two bytes are equivalent exactly when they are equal or one letter in its two cases |
| Query.FoldEqual | saturn/http/http.cc:52-54 | Two keys are equivalent exactly when they are so byte by byte up to the first NUL |
| Query.FirstWins | saturn/http/http.cc:52-54 | Entries already present stay, and of new pairs the first per case-insensitive key is stored |
| Query.WrittenLookup | saturn/http/http.cc:196-221 | In the parameters parsed from written pairs a key finds the first equivalent pair |
| Query.ParseParam | saturn/http/http.cc:201-218 | The loop inserts the specified pairs in order, on every string |
| Query.HttpRequest.InitQueryParam | saturn/http/http.cc:196-221 | Parses once; later calls change nothing |

## Left out

- Runtime.NextInv: dequeue and resume, and yield and the bookkeeping behind it, are single steps; the code leaves windows at saturn/fiber.cc:149-150 and saturn/scheduler.cc:169-174.
- Runtime.RunInv: a new fibre starts as INIT, which the constructor at saturn/fiber.cc:34-53 intends but does not assign; a fibre yields to HOLD only after it registered a wake-up, as `io`, `connect_with_timeout`, `sleep` and `switchTo` do; the callback of a sleep timer and the scheduling it does are one step.
- Runtime.ExactlyOnceWakeup: timeouts and `close ()` are the cancel steps of any other task.
- SchedulerLoop.Scheduler.RunOnce: the root thread, and what runs inside the idle fibre besides the event loop, are not modelled.
- SchedulerLoop.Scheduler.Schedule: scheduling a known fibre again pushes it, without a promise that it was due.
- EventTable.IOManager.AddEvent: growth of the context table is one step, without the stale check at saturn/iomanager.cc:85-94.
- HookedIo.RunInv: the descriptor's slot belongs to this call, and `connect_with_timeout` is the same race without the retry.
- IoRefinement.RunFollows: a timeout in it is that of the round's own timer; left-over callbacks are in `HookedIo`.
- Timers.TimerManager.ListExpired: one step, without the unlocked window at saturn/timer.cc:125-127.
- Timers.TimerManager.Reset: reset and the insertion after it are one step; deadlines do not wrap at 64 bits.
- ByteArrays.ByteArray.AddCapacity: the linked list is a sequence of arrays, and the floating-point `ceil` is exact division rounded up.
- TypedAccess.GetVarint: shifts and bitwise or are products and sums, which agree because the pieces do not overlap; float and double travel as their bit patterns.
- Base64.Encode: bit fields are quotients and remainders.
- BStrings.BString.Alloc: this and the other operations assume that allocation succeeds, that arguments do not alias the string, and that lengths stay below 2^30.
- FindReplace.FindReplaceEngine: the case-insensitive search is left out; the algorithms are the same with it.
- SplitJoin.SplitInto: splitting at strings and at character sets is left out.
- Query.ParseParam: the trimmed cookie variant and the body variant are left out; they use the same loop.
- Positional reads and read windows of `ByteArray`, file and hex output: valid only in special cases, or formatting.
- The generated URI and HTTP parsers and what rests on them: tables of hundreds of states.
- Threads, locks, context switching, real clocks, sockets and the kernel: nondeterministic choices and parameters instead.
- Logging, configuration, addresses, servlets, the descriptor manager, and formatted printing and UU coding of the bstring library: easy members or plumbing.
