# Sked and Tasker: a Dafny model of a fixed-table periodic task scheduler

Sked is a scheduling library for 8-bit Arduino boards. A single global
scheduler object holds a table of at most 16 periodic tasks. A hardware timer
interrupts every 100 us, and the tick handler does two things:

- It advances each task's countdown. When a deadline arrives it marks the task
  Ready, or counts a miss or an overrun.
- In preemptive mode it runs Ready tasks whose priority beats the priority of
  the callback currently running.

In non-preemptive mode, the main `loop` runs Ready tasks cooperatively.
Registration (`schedule`) validates a request. It converts microseconds to
ticks and inserts the task into the table, which is kept in priority order.
Tasker is an older copy of the same engine. Its insertion and tick code are
identical, but its validation and lifecycle differ.

The project is split into these modules:

- `Types` (types.dfy) holds the integer widths of the C++ fields (`u8`, `u16`,
  `u32`, `i8`), the constants and the task record.
  - Callbacks are opaque values `Null | Fn(id)`. A callback never touches
    scheduler state.
  - The float tick macros are replaced by the integers they evaluate to: 100 us
    per tick and 6,553,500 us as the maximum period.
- `TaskTable` (table.dfy) covers the insertion step shared by both variants.
  It gives the insertion index as a closed formula and the search loop as a
  method proved equal to it. It also holds the shift-down and store on a
  16-slot array, and the order and permutation lemmas.
- `Tick` (tick.dfy) covers the tick handler's bookkeeping pass, the preemptive
  dispatch pass and the cooperative pass of `loop`.
  - It states deadline timing and counter saturation over any number of ticks.
  - It also proves the consequences of resetting the running priority to
    the -127 sentinel instead of restoring it, and defines the pass that
    restores it.
- `Sked` (sked.dfy) models the `Sked` class: constructor, `reset`, `init`,
  `start`, `schedule`, `timerISR`, `loop` and the two getters, over an
  immutable scheduler record. It also holds the invariant every reachable
  state keeps and the initialisation and priority scenarios of the basic tests.
- `Tasker` (tasker.dfy) models the `Tasker` class the same way, with its own
  validation rules and status codes.
- `Variants` (variants.dfy) shows that the two variants insert and tick
  identically, and that their validations differ in both directions.

Some behaviours of the code are reproduced as written, each with a lemma:

- Equal priorities are not ordered by period. The comments at
  Sked.cpp:299-302 and Sked.cpp:319-320 promise a table sorted by priority
  and then by shortest period. The test at tests/test_basics.cpp:137-139
  expects the same order (see Findings). The model follows the code.
- `loop` returns no value on its success path. This is `None` in
  `Sked.Loop`'s status.
- An offset of one tick fires on the first tick, exactly like no offset.
- After each callback the running priority is reset to -127, not restored.
  So a nested dispatch pass, once it has started one task, also starts later
  Ready tasks that could not beat the interrupted one
  (`Tick.NestedPassStartsLowerAfterHigher`). The dispatch test at
  Sked.cpp:170 uses a strict `>`, which keeps equal priorities out. The
  comment at Sked.cpp:173-174 records the priority "so we don't let other
  lower-prio tasks interrupt us". The model follows the code, and
  `Tick.PreemptRestoring` is the corrected pass (see Findings).
- Tasker accepts a phase equal to the period.

The initial clock source is zero. The C++ object is a zero-initialised global
and its constructor never writes `_clk_src`.

## Model

| member | source | states |
|---|---|---|
| Types.SatInc | Sked.cpp:145-150 | `constrain(255, 0, x+1)` on a `uint8_t` counter is the saturating increment: x+1 below 255, 255 at 255 |
| Types.UsToTicks | Sked.cpp:292-294 | a period or offset within the 6,553,500 us maximum becomes the whole number of 100 us ticks it contains: r*100 <= us < (r+1)*100 |
| Types.UsToTicksMonotone | Tasker.cpp:289-291 | converting a duration no larger than another (both within the maximum) never yields more ticks, so a phase at most the period stays at most the period once both are stored as ticks |
| TaskTable.InsertionIndex | Sked.cpp:310-330 | the insertion index is the first slot with a lower priority; failing that, the last slot with the same priority; failing that, the end. The new task's period plays no part |
| TaskTable.FindInsertionIndex | Sked.cpp:310-330 | the nested search loops, with their breaks, compute exactly the closed-form insertion index (the only index meeting its characterisation) |
| TaskTable.ShiftAndStore | Sked.cpp:332-341 | moving slots count-1 down to the index up by one on the 16-slot array and then storing the new task yields the old table with the task inserted at the index; the contents are the old contents plus the new task |
| TaskTable.Insert | Sked.cpp:310-352 | search followed by shift and store equals insertion at the closed-form index |
| TaskTable.InsertAtMultiset | Sked.cpp:332-352 | an insertion grows the table by one and adds exactly the new task to its contents |
| TaskTable.InsertKeepsPriorityOrder | Sked.cpp:299-352 | inserting at the computed index keeps a priority-sorted table sorted, and the result is a permutation of the old table plus the new task |
| TaskTable.TieBreakNotHonoured | Sked.cpp:299-330 | a table in (priority, period) order holding one priority-0 task of period 10 receives a priority-0 task of period 20 at index 0, breaking that order |
| TaskTable.IntendedIndex | Sked.cpp:299-302 | the corrected search returns the first slot with a lower priority or the same priority and a longer period; every earlier slot precedes the new task in the key order |
| TaskTable.IntendedInsertKeepsKeyOrder | Sked.cpp:299-302 | inserting at the corrected index keeps a table sorted by priority descending, then period ascending |
| Tick.TickTask | Sked.cpp:121-161 | one task's tick: a countdown above one just decrements; at 0 or 1 the deadline arrives: Idle becomes Ready, Running counts a saturating overrun, Ready a saturating miss, and the countdown restarts at the period; identity, period, offset and priority never change |
| Tick.TickAll | Sked.cpp:121-162 | the bookkeeping pass applies the one-task step to every live slot in place, keeping the table length |
| Tick.TickTaskMonotone | Sked.cpp:124-160 | misses and overruns never decrease, a nonzero period leaves the countdown at least one, and the step never makes a task Running |
| Tick.CountdownCycle | Sked.cpp:153-160 | from its first deadline on, r ticks after the n-th deadline the countdown is period - r |
| Tick.DeadlineTiming | Sked.cpp:125-160 | a task with countdown o and period p >= 1 reaches a deadline on tick k exactly when k = max(o,1) + n*p for some n |
| Tick.OffsetOneSameAsNone | Sked.cpp:348-350 | a task stored with an offset of one tick has exactly the deadlines of the same task with no offset, so it is ready on the first tick |
| Tick.ZeroPeriodEveryTick | Tasker.cpp:126-160 | a task whose period is zero ticks keeps a zero countdown and reaches a deadline on every tick |
| Tick.MissesSaturate | Sked.cpp:139-151 | a Ready task whose period is one tick (or zero) hits a deadline on every tick and counts one miss per tick, min(misses + n, 255) after n ticks, staying Ready |
| Tick.OverrunsSaturate | Sked.cpp:139-151 | a Running task whose period is one tick (or zero) counts one overrun per tick, min(overruns + n, 255) after n ticks, staying Running |
| Tick.CountersAtDeadline | Sked.cpp:124-160 | for any period of at least one tick, a task that stays Ready has min(misses + n + 1, 255) misses right after its n-th deadline (counted from zero), and one that stays Running has min(overruns + n + 1, 255) overruns; its state and the other counter are unchanged |
| Tick.CountersNeverWrap | Sked.cpp:139-151 | for any period of at least one tick, from any starting value, the counter of a task that stays Ready (misses) or Running (overruns) is 255 right after its 256th deadline and every later one: it never wraps to zero |
| Tick.PreemptFrom | Sked.cpp:163-192 | the preemptive pass: calls come in increasing slot order, each for a slot that was Ready with a priority above the running priority it had to beat, with that slot Running and the running priority equal to its own during the callback; after any call the running priority is -127, with none nothing changes |
| Tick.PreemptFromEffect | Sked.cpp:163-192 | the pass starts exactly the first slot that beats the entry running priority and every later Ready slot above -127; those slots end Idle, every other slot is unchanged, and a slot is called iff it is one of them |
| Tick.TopLevelPassRunsAllReady | Sked.cpp:165-191 | a pass entered with the sentinel running priority turns every Ready task Idle, calls exactly the Ready tasks in table order, touches nothing else and leaves the sentinel |
| Tick.NestedPassResetsRunning | Sked.cpp:184-187 | a pass entered while a priority-p callback runs, that starts anything, leaves -127 behind and not p |
| Tick.NestedPassStartsLowerAfterHigher | Sked.cpp:170-187 | once a nested pass has started a task beating p, it also starts any later Ready task of priority at most p |
| Tick.NestedPassRespectsRunningTask | Sked.cpp:168-175 | a nested pass never restarts the task whose callback is in progress, and its first start beats the interrupted priority |
| Tick.CooperativeFrom | Sked.cpp:91-116 | the cooperative pass calls exactly the Ready tasks, in table order, each Running during its own callback and Idle afterwards; no priority is compared and the running priority is untouched |
| Tick.CooperativeRunsAllReady | Sked.cpp:93-115 | after the cooperative pass no task is Ready and every task that was not Ready is unchanged |
| Tick.PreemptRestoring | Sked.cpp:168-175 | the corrected pass, which puts the entry running priority back after each callback: it starts exactly the Ready slots that beat the entry priority, in table order, each Running at its own priority during its callback; those end Idle, the rest is unchanged, and the entry priority is left in place |
| Tick.RestoringPassWaitsForLower | Sked.cpp:168-175 | on the input where the as-written pass starts a lower task after a higher one, the corrected pass still starts the higher task but leaves the lower one Ready and uncalled |
| Tick.TimerTick | Sked.cpp:119-193 | a tick is the bookkeeping pass, followed by the preemptive pass only in preemptive mode; in non-preemptive mode nothing runs and the running priority is unchanged |
| Sked.Status.Code | Sked.h:8-16 | each status maps to its `SKED_E_*` value: 0 exactly for Ok and a negative number for every error |
| Sked.StatusOf | Sked.h:8-16 | decoding a returned value gives the status whose code it is, and nothing for values that are no `SKED_E_*` code |
| Sked.StatusCodeRoundTrip | Sked.h:8-16 | decoding a status's code gives that status back, so no two statuses share a code |
| Sked.Reset | Sked.cpp:370-391 | `reset` empties the table, clears both bounds, makes the scheduler uninitialised with running priority -127 and preemptive mode, keeps the clock source, and yields a valid state |
| Sked.ResetIdempotent | Sked.cpp:370-379 | resetting twice is the same as resetting once |
| Sked.New | Sked.cpp:37-39 | the constructor yields a valid, uninitialised scheduler with an empty table |
| Sked.Init | Sked.cpp:41-84 | `init` always records mode and clock source; TIMER1 (1) answers Ok, initialises and sets bounds 100 and 6,553,500 us; any other source answers NotImplemented and leaves state and bounds as they were; validity is kept |
| Sked.Start | Sked.cpp:393-411 | `start` answers NotInitialized iff uninitialised, otherwise Ok, and never changes the scheduler |
| Sked.StartIdempotent | Sked.cpp:393-411 | starting twice gives the same answer and state as starting once |
| Sked.Schedule | Sked.cpp:251-356 | `schedule` answers each status under exactly the condition of its check, in the order uninitialised, full, period, offset, priority, function; a rejection changes nothing; success inserts the tick-converted task at the insertion index and changes nothing else |
| Sked.ScheduleRules | Sked.cpp:257-290 | in a reachable initialised state: a period is refused iff it is below 100 or above 6,553,500 us; an acceptable period with an offset above 6,553,500 or in 1..99 us is refused for the offset; success iff period and offset are acceptable, priority above -127 and a function is given |
| Sked.ScheduleKeepsValid | Sked.cpp:299-352 | a registration from a valid state yields a valid state, so the table stays priority-sorted, and on success the contents are the old contents plus exactly the new task |
| Sked.ScheduleStoresTask | Sked.cpp:292-352 | on success the new record is Idle with zero counters, period period_us/100 (at least 1 tick), offset offset_us/100 (0 or at least 1 tick) and countdown equal to the offset; earlier slots stay put and later ones move up by one |
| Sked.TimerIsr | Sked.cpp:119-193 | a tick changes only the table and the running priority; within the table it keeps length, callbacks, periods, offsets and priorities, and counters never decrease; in non-preemptive mode nothing runs |
| Sked.TimerIsrKeepsValid | Sked.cpp:119-193 | a tick from a valid state yields a valid state whose running priority is -127 and whose countdowns are all at least one; in preemptive mode every task is Idle afterwards |
| Sked.Loop | Sked.cpp:86-117 | `loop` answers NotInitialized and changes nothing when uninitialised, and otherwise returns no value; in preemptive mode it changes nothing; in non-preemptive mode it calls exactly the Ready tasks in table order and makes them Idle, leaving the others alone |
| Sked.LoopKeepsValid | Sked.cpp:86-117 | `loop` keeps every reachable state valid |
| Sked.GetTaskCount | Sked.cpp:358-360 | the count is the number of live tasks |
| Sked.GetTaskInfo | Sked.cpp:362-368 | slot i is returned iff i is below the count (NULL otherwise), and it is the i-th live task |
| Sked.FirstTaskHasHighestPriority | Sked.cpp:97-101 | in a valid state slot 0 holds a task of the highest live priority |
| Sked.InitScenario | tests/test_basics.cpp:38-58 | after reset: start is refused, TIMER1 init succeeds, sources 0 and 2 are not implemented, a second TIMER1 init switches to non-preemptive mode, the table is empty and start succeeds |
| Sked.PriorityScenario | tests/test_basics.cpp:125-169 | registering 1 s and 1 ms at priority 0, 100 us at -1, 200 us at 127 and 400 us at 63 leaves periods 2, 4, 10, 10000, 1 ticks in table order |
| Tasker.Status.Code | Tasker.h:8-16 | each status maps to its `TASKER_E_*` value: 0 exactly for Ok and a negative number for every error |
| Tasker.StatusOf | Tasker.h:8-16 | decoding a returned value gives the status whose code it is, and nothing for values that are no `TASKER_E_*` code |
| Tasker.StatusCodeRoundTrip | Tasker.h:8-16 | decoding a status's code gives that status back, so no two statuses share a code |
| Tasker.New | Tasker.cpp:37-45 | the constructor yields a valid, uninitialised scheduler with an empty table, maximum period 0, running priority -127 and preemptive mode |
| Tasker.Init | Tasker.cpp:47-89 | `init` always records mode and clock source; TIMER1 (0 in this variant) answers Ok, initialises and sets the maximum to 6,553,500 us; any other source answers NotImplemented and leaves state and maximum as they were |
| Tasker.Start | Tasker.cpp:355-373 | `start` answers NotInitialized iff uninitialised, otherwise Ok, and never changes the scheduler |
| Tasker.Schedule | Tasker.cpp:252-353 | `schedule` has no init check; it answers each status under exactly the condition of its check, in the order full, period (zero or above the maximum), phase above the period, priority, function; a rejection changes nothing; success inserts the tick-converted task at the shared insertion index |
| Tasker.ScheduleBeforeInitFails | Tasker.cpp:257-268 | before `init` every registration is refused as an invalid period, because the maximum is still zero |
| Tasker.ScheduleRules | Tasker.cpp:262-287 | after `init`, with room: a period is refused iff it is 0 or above 6,553,500 us; success iff the period is 1..6,553,500 us, the phase at most the period (equality accepted), priority above -127 and a function is given |
| Tasker.ScheduleKeepsValid | Tasker.cpp:296-350 | a registration from a valid state yields a valid state (priority-sorted, every stored phase at most its period), and on success the contents are the old contents plus exactly the new task |
| Tasker.ScheduleStoresTask | Tasker.cpp:289-350 | on success the new record is Idle with zero counters, period period_us/100 and phase phase_us/100 ticks with the phase at most the period, and countdown equal to the phase; earlier slots stay put and later ones move up by one |
| Tasker.ShortPeriodFiresEveryTick | Tasker.cpp:262-291 | a period of 1 to 99 us is accepted, stored as zero ticks with zero phase, and the task then reaches a deadline on every tick |
| Tasker.TimerIsr | Tasker.cpp:120-194 | a tick changes only the table and the running priority; within the table it keeps callbacks, periods, phases and priorities, and counters never decrease; in non-preemptive mode nothing runs |
| Tasker.TimerIsrKeepsValid | Tasker.cpp:120-194 | a tick from a valid state yields a valid state with running priority -127; in preemptive mode every task is Idle afterwards |
| Tasker.Loop | Tasker.cpp:91-118 | `loop` has no init check and no result; it changes nothing in preemptive mode; in non-preemptive mode it calls exactly the Ready tasks in table order and makes them Idle |
| Tasker.LoopKeepsValid | Tasker.cpp:91-118 | `loop` keeps every reachable state valid |
| Tasker.InitScenario | Tasker.cpp:37-89 | on a fresh object registration and start are refused, clock source 1 is not implemented and leaves it uninitialised, and after a TIMER1 init start succeeds |
| Variants.SameInsertion | Tasker.cpp:307-350 | with the same table, a request both variants accept yields the same table in both |
| Variants.SameTick | Tasker.cpp:120-194 | with the same table, running priority and mode, a tick yields the same table, running priority and calls in both variants |
| Variants.ValidationDiffers | Tasker.cpp:262-275 | after `init`, Sked refuses a 50 us period that Tasker accepts, and Tasker refuses a 200 us phase on a 100 us period that Sked accepts as an offset |

## Left out

- Hardware timer registers are not modelled: the TCNT1, TCCR1A/B, ICR1, TIMSK1 and TIFR1 writes in `init`, `reset` and `start`, and the `ISR(TIMER1_CAPT_vect)` glue. They are device I/O. This also covers the ICR1 reload value, which differs by one between the variants (Sked.cpp:71, Tasker.cpp:76). `start` is modelled only through its status.
- `ATOMIC_BLOCK` and `NONATOMIC_BLOCK` are treated as plain sequential code. Interrupt masking has no meaning in a sequential model.
- A tick interrupt that fires while a callback runs is not modelled as concurrent execution. The Tick lemmas about a pass entered with a given running priority describe what such a nested pass does to the table. Wall-clock timing is left out too: it is real time, not logic.
- The float tick macros are replaced by the integers they evaluate to, 100 us per tick and 6,553,500 us maximum. No float arithmetic is modelled.
- `debugPrintState` is left out: it only prints text to a stream.
- Callback bodies are left out. A callback is an opaque value that is either null or some function, and it never changes scheduler state.
- A `mode` value other than the two enumerators cannot be expressed. Such a value would make both `loop` and the tick skip dispatch, and the C++ enum type allows it only through a cast.
- `uint8_t _task_count` is not modelled as a separate field. It equals the table length, which never exceeds 16.
- The test and tooling files are left out: the unit-test framework, serial capture scripts and C++ ABI stubs. So are the timing assertions of the preemption tests, which depend on real time.
- Sked.GetTaskInfo: returns a copy of the record. The C++ function returns a live, writable pointer into the table (Sked.cpp:362-368). Through it a caller sees later ticks change the record and can write to it, for example breaking the priority order. Aliasing of that kind is outside a model over immutable values.
- Tick.PreemptFrom: the record of each call shows the table and running priority seen during the callback. It does not model what a nested tick would do at that moment. Lemmas about a pass entered with a given running priority cover that instead.

## Findings

| source | as written | input that shows it | evidently intended | confidence | as-written member | corrected member |
|---|---|---|---|---|---|---|
| Sked.cpp:310-330 | the outer loop never stops at an equal priority, so the period comparison of the inner loop is overwritten; the task goes at the first lower priority, else before the last equal-priority task | table holding one priority-0 task of period 10 ticks; insert a priority-0 task of period 20 ticks: it lands at index 0, ahead of the shorter period | order by priority descending, then period ascending (Sked.cpp:299-302; same code in Tasker.cpp:307-327) | not executed; derived by proof | TaskTable.TieBreakNotHonoured | TaskTable.IntendedInsertKeepsKeyOrder |
| Sked.cpp:184-187 | after each callback the running priority is reset to -127 instead of being restored to its value on entry (same code at Tasker.cpp:184-187) | a tick arrives while a priority-5 callback runs; slot 0 is Ready at priority 10 and slot 2 Ready at priority 3: the nested pass starts slot 0, then also slot 2, which cannot beat 5 | a pass started during a callback starts only tasks of higher priority than that callback (Sked.cpp:168-175) | not executed; derived by proof | Tick.NestedPassStartsLowerAfterHigher | Tick.PreemptRestoring |

`Sked.Schedule` and `Tasker.Schedule` keep the as-written search. A model of
the scheduler has to place tasks where the code places them. The corrected
search `TaskTable.IntendedIndex` is defined next to the as-written one, and
`TaskTable.IntendedInsertKeepsKeyOrder` proves that it keeps the intended
(priority, period) order.

`Tick.TimerTick` likewise keeps the as-written dispatch pass. The corrected
pass `Tick.PreemptRestoring` is defined next to it, and
`Tick.RestoringPassWaitsForLower` shows it refusing the task that the
as-written pass starts.
