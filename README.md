# Paging simulator: manager and worker, modelled in Dafny

The system is a small operating-system simulator. A manager process (`oss`) owns
a virtual clock in shared memory, a table of up to 20 child processes, and a table
of 256 page frames. Worker processes (`user`) send the manager read and write
requests for random virtual addresses over a message queue. The manager answers
each request from its frame table:

- a hit costs 100 virtual nanoseconds and is answered with `MSG_GRANTED`;
- a miss is a page fault, answered with `MSG_BLOCKED`. The fault runs the
  second-chance (clock) replacement scan from a persistent hand, loads the page
  into the victim frame, and is answered with `MSG_GRANTED`.

A worker exits with status 1 when a BLOCKED reply is not followed by GRANTED.

The project models this in these modules:

- `Clock` (`clock.dfy`): the (seconds, nanoseconds) clock and its single-carry
  `IncrementClock`.
- `Protocol` (`protocol.dfy`): message codes, the message record, the page
  computation (C's truncating `/ 1024`), and the shape of a well-formed reply.
- `Mailbox` (`mailbox.dfy`): a queue of messages, and `msgrcv` under a tag as
  "remove the first message carrying the tag".
- `ProcessTable` (`process_table.dfy`): the process control table helpers. They
  are methods over an `array` of slots, each proved against a function of the
  array's contents.
- `FrameTable` (`frame_table.dfy`): the frame table as a class. It has the frame
  array, the clock hand, the counters `memoryAccesses` and `pageFaults`, and an
  outbox standing for `SendMessageToProcess`. `HandlePageRequest` and
  `HandlePageFault` are proved against the eviction specification `AfterFault`.
- `Oss` (`oss.dfy`): the manager. This covers the launch-interval gate with its
  last-launch fields, the slot update of `LaunchProcess`, the reap step, the
  dispatch of a polled request, and one pass of the main loop.
- `User` (`user.dfy`): the worker's loop. The random draws and the worker's queue
  are inputs. `Run` specifies the loop and `RunWorker` is the loop itself. The
  lemmas include the end-to-end property that the manager's replies never drive a
  worker into its status-1 exit.

Inputs that oss.cpp and user.cpp take from the operating system are parameters:

- the pid a `fork` returns;
- the pid `waitpid` reaps (0 for none);
- the message an `IPC_NOWAIT` poll yields (`None` for none);
- each value `GenerateRandomNumber` draws.

## Model

| member | source | states |
|---|---|---|
| Clock.Incremented | oss.cpp:287-293 | For nanoseconds in [0, 1e9) and an amount in [0, 1e9], the total `seconds*1e9 + nanoseconds` grows by exactly the amount, the nanoseconds stay in [0, 1e9), and the seconds grow by at most one; without a carry only the nanoseconds change |
| Clock.SingleCarryOnly | oss.cpp:289-292 | There is one carry step only: from any reading with non-negative nanoseconds, an amount of two seconds or more is carried once and leaves the nanoseconds at one second or more, so the reading is not normalized |
| Clock.SystemClock.Increment | user.cpp:64-70 | The clock struct after `IncrementClock` is `Incremented` of the old reading; the worker's copy (field `nanosecond`) is the same operation |
| Protocol.PageOf | oss.cpp:302 | `memoryAddress/1024` truncates toward zero: for a non-negative address the page is its floor quotient, for a negative one the quotient rounded up |
| Mailbox.Addressed | user.cpp:268 | The messages a receive under a tag can see: no more than the queue holds, each carrying the tag |
| Mailbox.Receive | user.cpp:268-276 | `msgrcv` under a tag: what it returns carries the tag, and the queue left behind is one message shorter |
| Mailbox.ReceiveTakesFirstAddressed | user.cpp:268-276 | A receive under a tag finds nothing exactly when no message carries the tag; otherwise it returns the first such message, the remaining tagged messages are the rest in order, and other tags' messages are untouched |
| ProcessTable.Occupied | oss.cpp:97-105 | The occupied count over the first n slots is at most n, is 0 iff none is occupied, and is n iff all are |
| ProcessTable.IndexOf | oss.cpp:205-212 | The first index below max carrying the pid, or -1 exactly when none does |
| ProcessTable.FirstFree | oss.cpp:87-94 | The first unoccupied index below max, or -1 exactly when all are occupied |
| ProcessTable.OccupiedUpdate | oss.cpp:158-172 | Replacing one slot changes the count by that slot's contribution |
| ProcessTable.OccupiedBeyondMax | oss.cpp:87-94 | When no slot at or above max is occupied, the count over the whole table equals the count over the first max slots and is at most max |
| ProcessTable.NoFreeSlotIffFull | oss.cpp:87-94 | There is no free slot exactly when all max slots are occupied |
| ProcessTable.LaunchAddsOne | oss.cpp:499-507 | Filling the first free slot raises the count by exactly one, keeps it within max, and changes no other slot |
| ProcessTable.RemoveResetsFirstMatch | oss.cpp:158-172 | Removal resets only the first slot carrying the pid, is a no-op when none does, and lowers the count by one exactly when that slot was occupied |
| ProcessTable.BlockedOnlyClearedByRemoval | oss.cpp:175-183 | Neither marking nor a launch clears the blocked flag of an occupied blocked slot |
| ProcessTable.MarkBlockedTouchesFirstMatch | oss.cpp:175-183 | Marking blocked sets the flag on the first slot carrying the pid only, is a no-op when none does, and keeps the count |
| ProcessTable.PidsStayUnique | oss.cpp:158-172 | Removal, and launching a pid no occupied slot carries, keep the occupied slots' pids distinct |
| ProcessTable.InitializeProcessTable | oss.cpp:73-84 | All 20 slots become the empty slot |
| ProcessTable.FindEmptyProcessSlot | oss.cpp:87-94 | Returns i+1 for the first unoccupied index i below max, or 0 exactly when all max slots are occupied |
| ProcessTable.CountActiveProcesses | oss.cpp:97-105 | Returns the occupied count among the first max slots, or 1 when that count is 0 |
| ProcessTable.IsProcessTableEmpty | oss.cpp:108-115 | True iff no slot below max is occupied |
| ProcessTable.AreAllProcessesBlocked | oss.cpp:118-125 | True iff every occupied slot below max is blocked |
| ProcessTable.IsProcessPresent | oss.cpp:195-202 | True iff some slot below max carries the pid, occupied or not |
| ProcessTable.GetProcessIndex | oss.cpp:205-212 | Returns the first index below max carrying the pid, or -1 |
| ProcessTable.RemoveProcessFromTable | oss.cpp:158-172 | The table afterwards is `Removed` of the old one: the first slot carrying the pid is reset |
| ProcessTable.UpdateBlockedProcess | oss.cpp:175-183 | The table afterwards is `MarkedBlocked` of the old one: the first slot carrying the pid is marked blocked |
| FrameTable.FirstMatch | oss.cpp:305-306 | The index of the first frame owned by the pid holding the page, or the frame count exactly when none does |
| FrameTable.Dist | oss.cpp:279-282 | The cyclic distance from the hand to a frame: the one offset of at most N-1 steps from the hand that reaches it |
| FrameTable.FirstClear | oss.cpp:256-260 | The scan from an offset: every frame it passes has its second-chance bit set, and where it stops before N the bit is clear |
| FrameTable.EvictionScan | oss.cpp:256-283 | The scan passes over all N frames exactly when every bit is set; the victim is the first frame from the hand whose bit is clear, or the hand's frame when all bits are set; every frame passed over had its bit set |
| FrameTable.AfterFaultFrames | oss.cpp:256-283 | After a fault the victim holds (pid, page) with bit set and dirty iff the access was a write; frames passed over lose only their bit; all others are unchanged |
| FrameTable.FaultKeepsUnique | oss.cpp:305-322 | A fault on a page no frame holds keeps the (pid, page) pairs of owned frames distinct |
| FrameTable.HitKeepsUnique | oss.cpp:306-310 | Touching a matched frame keeps the (pid, page) pairs distinct |
| FrameTable.RepliesWellFormed | oss.cpp:313-321 | A request is answered with one GRANTED exactly when some frame matches it, otherwise with BLOCKED then GRANTED, all addressed to the requester |
| FrameTable.ScenarioNoHitEvictsOldest | oss.cpp:252-284 | With two frames, faults on pages 0, 1, 2 fill both frames and then evict frame 0 after clearing both bits |
| FrameTable.ScenarioHitThenMisses | oss.cpp:296-322 | With two frames: load page 0, hit it, then miss on pages 1 and 2. The hit leaves the table unchanged because loading already set the bit, and the second miss clears both bits and evicts frame 0 |
| FrameTable.FaultBringsFrameCloser | oss.cpp:256-283 | A fault always looks at the frame under the hand, and every frame it does not look at is strictly nearer, cyclically, to the new hand than it was to the old one |
| FrameTable.NoFrameStarves | oss.cpp:253-283 | Whatever the bits are at each fault, a frame d steps after the persistent hand is looked at by one of the next d + 1 faults |
| FrameTable.EveryFrameExaminedWithinN | oss.cpp:253-283 | Any N successive faults between them look at every one of the N frames |
| FrameTable.AfterRequest | oss.cpp:296-324 | The value-level table after a request: one more access and exactly the replies appended; a hit keeps the hand and the fault count; a miss counts one fault |
| FrameTable.RequestKeepsUnique | oss.cpp:305-322 | A request, hit or miss, keeps the (pid, page) pairs of owned frames distinct |
| FrameTable.ScanStep | oss.cpp:256-282 | At each scan step, a set bit under the hand means the victim lies further on, and clearing it extends the cleared range by one frame; a clear bit means the hand is at the victim |
| FrameTable.FrameTable.InitializePageTable | oss.cpp:222-229 | Every frame becomes (0, 0, clear, clean), so ownership is trivially unique |
| FrameTable.FrameTable.SendMessageToProcess | oss.cpp:481-486 | The message is appended to the outbox |
| FrameTable.FrameTable.HandlePageFault | oss.cpp:252-284 | The loop runs `VictimOffset + 1` iterations, at most N + 1. The frames become `AfterFault` of the old frames, the hand moves to just past the victim, `memoryAccesses` rises by one, and one GRANTED carrying the page number goes to the requester |
| FrameTable.FrameTable.HandlePageRequest | oss.cpp:296-324 | The new state is `AfterRequest` of the old and the clock is `ClockAfterRequest` of the old reading. On a hit, only the matched frame changes: its bit is set and it becomes dirty on a write. The clock then advances by 100 and the hand and `pageFaults` are kept. On a miss, the fault runs and `pageFaults` rises while the clock is kept. Either way `memoryAccesses` rises by one, the outbox gains exactly the replies, and (pid, page) uniqueness is preserved |
| FrameTable.FrameTable.constructor | oss.cpp:217-229 | A table of N >= 1 empty frames, hand at 0, both counters 0 and an empty outbox |
| Oss.GateWaitsAtMostOneSecond | oss.cpp:526 | The gate opens exactly when the interval has elapsed for intervals up to one second, and after one second for longer ones |
| Oss.ElapsedSince | oss.cpp:518-524 | The borrowing loop yields the exact difference of the two readings, with non-negative nanoseconds, below one second when a borrow happened |
| Oss.ReapAsWritten | oss.cpp:440-444 | The unguarded reap agrees with the guarded one wherever the looked-up index is a real slot, and is undefined otherwise |
| Oss.ReapAsWrittenIndexesMinusOne | oss.cpp:205-212 | A reaped pid that no slot carries makes the lookup return -1, outside the domain the unguarded reap can index |
| Oss.ReapIsGuarded | oss.cpp:436-446 | The guarded reap is a no-op for an unknown pid. Otherwise it resets the slot when it is occupied and lowers the count by one. It never raises the count, keeps pids unique and leaves slots at or above max alone |
| Oss.Manager.OccupiedWithinMax | oss.cpp:87-94 | In every valid state no more than max slots of the whole table are occupied |
| Oss.Manager.constructor | oss.cpp:403-407 | Both tables initialised, clock and last-launch time at zero |
| Oss.Manager.KeepRunning | oss.cpp:428 | The main loop continues iff children remain to launch or some slot is occupied |
| Oss.Manager.IsLaunchIntervalMet | oss.cpp:514-533 | True iff the elapsed time since the last recorded launch is a second or more, or reaches the interval; the last-launch time becomes the current time exactly when it returns true |
| Oss.Manager.LaunchProcess | oss.cpp:499-508 | The first free slot is filled with the child pid and the current time, unblocked; the clock advances by 1000; the count rises by one |
| Oss.Manager.ReapChild | oss.cpp:436-446 | The table becomes `Reaped` of the old one, with the guard on the index |
| Oss.Manager.Dispatch | oss.cpp:448-461 | For a polled READ or WRITE request, the frame table's frames, hand, counters and outbox become `AfterRequest` of the old under the sender's pid, and the clock advances by 100 on a hit and not at all on a miss. Anything else changes nothing. The clock never goes back |
| Oss.Manager.LaunchStep | oss.cpp:429-434 | With children remaining, the gate is asked first and re-arms whenever it opens. A child is launched only when it opened and a slot is free: the slot is filled, the clock advances by 1000 and the count of children to launch drops by one. Otherwise the table and the clock are unchanged |
| Oss.Manager.ReapAndDispatch | oss.cpp:436-461 | The table becomes `Reaped` of the old when a child exited. The frame table and the clock then change as `Dispatch` states |
| Oss.Manager.Tick | oss.cpp:428-467 | One pass gives the exact new state. The process table is the launch update, then the reap. The frame table is `AfterRequest` of the old for a polled request, and unchanged otherwise. The clock gets the launch charge, then the hit charge, then the dispatch amount. The children still to launch drop by one exactly when a launch happened. The last-launch time becomes the old clock reading exactly when the gate opened, and is kept otherwise. Validity and the bound of max occupied slots are kept |
| User.FormAddress | user.cpp:254-256 | For a page in [0, 63] and an offset in [0, 1023] the address lies in [0, 65535] and the manager's page computation recovers the page |
| User.RequestCodeAsWritten | user.cpp:258-262 | As written: the code is READ or WRITE, and READ exactly when the draw is below 85 |
| User.RequestCode | user.cpp:25 | Corrected: the code is READ or WRITE, and READ exactly when the draw is at most 85 |
| User.ReadDrawsBelowThreshold | user.cpp:258 | A choice that reads exactly on the draws up to t reads on min(k, t) of the draws 1..k |
| User.RequestCodeAsWrittenReads84 | user.cpp:258-262 | As written, draw 85 writes, and 84 of the 100 draws read; draw 85 is the only one on which the as-written and the corrected codes differ |
| User.RequestCodeReads85 | user.cpp:25 | The corrected choice reads on exactly 85 of the 100 draws |
| User.RunWorker | user.cpp:243-285 | The loop's sent requests and ending are exactly those of the specification `Run`, whose requests take their code from the corrected `User.RequestCode` |
| User.RequestsWellFormed | user.cpp:243-262 | Every request is tagged with the parent's pid, sent by the worker, coded READ or WRITE, for an address in [0, 65535], at most one per draw |
| User.NormalExitOnlyByDraw | user.cpp:248-252 | The worker exits only with status 0 or 1, and with status 0 only on the iteration whose termination draw is below 1, no earlier draw having fired |
| User.OnlyOwnMessagesMatter | user.cpp:268-276 | Two queues with the same messages tagged with the worker's pid give the same run |
| User.UnblockedRepliesAreNotChecked | user.cpp:272 | A first reply other than BLOCKED ends the iteration unchecked, so a queue without tagged BLOCKED messages never causes the status-1 exit |
| User.WorkerAcceptsManagerReplies | user.cpp:268-281 | When the worker's tagged messages are a sequence of manager-shaped replies, it never exits with status 1, and never waits forever while each request has its reply |
| User.WorkerNeverFaults | oss.cpp:313-322 | When the worker's tagged messages are the replies HandlePageRequest gives, against any frame tables, the worker never takes the status-1 exit |

## Left out

- System V shared memory and message queues: the clock is an object and the queue a sequence. Sending appends to an outbox, a receive is `Mailbox.Receive`, and the manager's non-blocking poll is an `Option<Message>` parameter.
- The uninitialised `rcvbuf` that the manager reads after an empty poll (oss.cpp:448-456) is modelled as "no message"; what the C code then does depends on stack contents.
- `fork`, `execl`, `waitpid`, `kill`, `TerminateAllProcesses` and `CleanupSystem`: process control. The forked and the reaped pids are parameters of `Oss.Manager.Tick`.
- Signals and the five-second `alarm` timeout: they are asynchronous.
- `DisplayProcessTable`, `DisplayPageTable`, `OutputStats` and all console and log output, including the "dirty frame swapped out" message. Nothing in the model depends on them, and `OutputStats` uses floating point and wall-clock time.
- `GenerateRandomNumber`: it is seeded from the wall clock. Each draw is an input, constrained by `User.DrawsInRange` where a property needs the range.
- Option parsing in `main`, and the display-only `resourcesHeld` vectors.
- `timeAddition` (oss.cpp:327-333, user.cpp:73-79) has no callers. As written, `*addend1Secs++` advances the pointer instead of the seconds.
- The worker's own copies of the table helpers: they are identical to the manager's and are modelled once, in `ProcessTable`.
- The main loop runs as repeated `Oss.Manager.Tick` passes while `Oss.Manager.KeepRunning` holds. Termination of the whole simulation is not modelled, because it depends on when workers exit.
- Concurrency: the manager and the workers are modelled separately. They are connected only through replies, by `User.WorkerNeverFaults`.
- User.RunWorker: sends READ on draw 85, where user.cpp:258-261 sends WRITE, because the loop builds its request with the corrected `User.RequestCode` of the second Findings row; the code as written is `User.RequestCodeAsWritten`, which differs from it on that draw only.
- Oss.Manager.Tick: assumes a forked pid that no occupied slot carries, as the operating system guarantees.
- Integer widths: the counters, pids and clock fields are unbounded integers, so 32-bit overflow of `int` is not modelled.
- Negative values of `maxSimultaneousProcesses` are not modelled: it is a natural number no larger than the 20 slots.
- `FRAME_TABLE_SIZE` is 256 in the code. Here it is the frame array's length, any N >= 1, so that small scenarios can be stated.
- Oss.Manager.IsLaunchIntervalMet: the gate re-arms whenever it opens, including when no slot is free (oss.cpp:429). The model follows this code, not a reading in which only a successful launch re-arms it. An interval above one second behaves as one second, because any whole elapsed second opens the gate.
- Fairness between workers is not modelled: which worker's request the poll yields is an input. Fairness between frames is modelled, by `FrameTable.NoFrameStarves`.

## Findings

| source | as written | input that shows it | evidently intended | confidence | as-written member | corrected member |
|---|---|---|---|---|---|---|
| oss.cpp:440-442 | `GetProcessIndex` may return -1, and `processTable[i].isOccupied` is then read with `i == -1`, out of the array's bounds | a reaped pid that is in none of the first `maxSimultaneousProcesses` slots, e.g. pid 7 with an empty table and max 1 | look at the slot only when the index is at least 0 | not executed | Oss.ReapAsWritten, with Oss.ReapAsWrittenIndexesMinusOne | Oss.Reaped, proved by Oss.ReapIsGuarded and used by Oss.Manager.ReapChild |
| user.cpp:258 | `READ_CHANCE > draw` for a draw in [1, 100] reads on the 84 draws 1..84, while the constant's comment promises an 85% read chance | draw 85, which writes | read when the draw is at most 85 | medium; not executed | User.RequestCodeAsWritten, with User.RequestCodeAsWrittenReads84 | User.RequestCode, proved by User.RequestCodeReads85 and used by User.Request |
