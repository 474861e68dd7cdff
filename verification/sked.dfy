/** The Sked scheduler: lifecycle (construction, init, start, reset),
    registration (`schedule`), the tick handler (`timerISR`), cooperative
    dispatch (`loop`) and the two introspection getters. The hardware timer
    registers the source programs alongside are not part of this model. */
module Sked {
  import opened Types
  import TaskTable
  import Tick

  /** The one supported clock source (`SRC_TIMER1` is 1 in this variant). */
  const SRC_TIMER1: int := 1

  /** `_state`. */
  datatype InitState = Uninitialized | Initialized

  /** The error codes of the public operations. */
  datatype Status =
    | Ok
    | NotInitialized
    | TooManyTasks
    | InvalidPeriod
    | InvalidFunction
    | InvalidOffset
    | InvalidPriority
    | InvalidOperation
    | NotImplemented
  {
    /** The `int8_t` value returned to the caller: zero for success and a
        negative number for every error. */
    function Code(): (c: i8)
      ensures c <= 0
      ensures c == 0 <==> this == Ok
    {
      match this
      case Ok => 0
      case NotInitialized => -1
      case TooManyTasks => -2
      case InvalidPeriod => -3
      case InvalidFunction => -4
      case InvalidOffset => -5
      case InvalidPriority => -6
      case InvalidOperation => -7
      case NotImplemented => -99
    }
  }

  /** The status a returned code stands for, if any. */
  function StatusOf(c: int): (r: Option<Status>)
    ensures r.Some? ==> r.value.Code() == c
    ensures r.None? ==> c !in {0, -1, -2, -3, -4, -5, -6, -7, -99}
  {
    match c
    case 0 => Some(Ok)
    case -1 => Some(NotInitialized)
    case -2 => Some(TooManyTasks)
    case -3 => Some(InvalidPeriod)
    case -4 => Some(InvalidFunction)
    case -5 => Some(InvalidOffset)
    case -6 => Some(InvalidPriority)
    case -7 => Some(InvalidOperation)
    case -99 => Some(NotImplemented)
    case _ => None
  }

  /** Every status has its own code: decoding a status's code gives that
      status back, so no two statuses share a code. */
  lemma StatusCodeRoundTrip(st: Status)
    ensures StatusOf(st.Code()) == Some(st)
    ensures forall other: Status :: other.Code() == st.Code() ==> other == st
  {
  }

  /** The scheduler object. `tasks` is the live prefix of the 16-slot array,
      so `|tasks|` is `_task_count`; `running` is `_current_task_priority`. */
  datatype Scheduler = Scheduler(
    state: InitState,
    minPeriodUs: u32,
    maxPeriodUs: u32,
    clkSrc: int,
    tasks: Table,
    running: i8,
    mode: Mode)

  datatype Outcome = Outcome(sched: Scheduler, status: Status)

  /** Result of `loop`: on success the source returns no value at all. */
  datatype LoopOutcome = LoopOutcome(sched: Scheduler, status: Option<Status>, calls: seq<Tick.Call>)

  /** Result of one tick interrupt: the new state and the callbacks run. */
  datatype IsrOutcome = IsrOutcome(sched: Scheduler, calls: seq<Tick.Call>)

  // ---------------------------------------------------------------------------
  // The invariant every reachable state satisfies
  // ---------------------------------------------------------------------------

  /** A live task as `schedule` admits it, outside any callback. */
  predicate LiveTask(t: Task)
  {
    t.fcn != Null && t.priority > MIN_PRIORITY && t.period >= 1 && t.state != Running
  }

  predicate Valid(s: Scheduler)
  {
    TaskTable.PrioritySorted(s.tasks)
    && (forall i :: 0 <= i < |s.tasks| ==> LiveTask(s.tasks[i]))
    && s.running == MIN_PRIORITY
    && (s.state == Uninitialized ==> s.tasks == [] && s.minPeriodUs == 0 && s.maxPeriodUs == 0)
    && (s.state == Initialized ==> s.minPeriodUs == TICK_PERIOD_US && s.maxPeriodUs == MAX_PERIOD_US)
  }

  // ---------------------------------------------------------------------------
  // Lifecycle
  // ---------------------------------------------------------------------------

  /** `reset`: empty table, bounds cleared, uninitialised, sentinel running
      priority, preemptive mode. The clock source is kept. */
  function Reset(s: Scheduler): (r: Scheduler)
    ensures Valid(r)
    ensures r.tasks == [] && r.state == Uninitialized
    ensures r.minPeriodUs == 0 && r.maxPeriodUs == 0
    ensures r.running == MIN_PRIORITY && r.mode == Preemptive
    ensures r.clkSrc == s.clkSrc
  {
    s.(tasks := [], maxPeriodUs := 0, minPeriodUs := 0, state := Uninitialized,
       running := MIN_PRIORITY, mode := Preemptive)
  }

  /** The constructor: `reset` applied to the zero-initialised global. */
  function New(): (r: Scheduler)
    ensures Valid(r) && r.state == Uninitialized && r.tasks == []
  {
    Reset(Scheduler(Uninitialized, 0, 0, 0, [], 0, Preemptive))
  }

  /** `init`: records mode and clock source; only TIMER1 initialises, any
      other source answers NotImplemented and leaves the initialisation
      state and bounds as they were. */
  function Init(s: Scheduler, mode: Mode, clkSrc: int): (r: Outcome)
    ensures r.sched.mode == mode && r.sched.clkSrc == clkSrc
    ensures r.sched.tasks == s.tasks && r.sched.running == s.running
    ensures r.status == Ok <==> clkSrc == SRC_TIMER1
    ensures r.status != Ok ==>
      r.status == NotImplemented && r.sched.state == s.state
      && r.sched.minPeriodUs == s.minPeriodUs && r.sched.maxPeriodUs == s.maxPeriodUs
    ensures r.status == Ok ==>
      r.sched.state == Initialized
      && r.sched.minPeriodUs == 100 && r.sched.maxPeriodUs == 6553500
    ensures Valid(s) ==> Valid(r.sched)
  {
    var s' := s.(mode := mode, clkSrc := clkSrc);
    if clkSrc == SRC_TIMER1 then
      Outcome(s'.(maxPeriodUs := MAX_PERIOD_US, minPeriodUs := TICK_PERIOD_US, state := Initialized), Ok)
    else
      Outcome(s', NotImplemented)
  }

  /** `start`: refuses before `init`; otherwise it only touches the timer. */
  function Start(s: Scheduler): (r: Outcome)
    ensures r.sched == s
    ensures r.status == NotInitialized <==> s.state == Uninitialized
    ensures r.status != NotInitialized ==> r.status == Ok
  {
    if s.state == Uninitialized then Outcome(s, NotInitialized) else Outcome(s, Ok)
  }

  lemma ResetIdempotent(s: Scheduler)
    ensures Reset(Reset(s)) == Reset(s)
  {
  }

  lemma StartIdempotent(s: Scheduler)
    ensures Start(Start(s).sched) == Start(s)
  {
  }

  // ---------------------------------------------------------------------------
  // Registration
  // ---------------------------------------------------------------------------

  predicate PeriodAccepted(s: Scheduler, periodUs: int)
  {
    s.minPeriodUs <= periodUs <= s.maxPeriodUs
  }

  predicate OffsetAccepted(s: Scheduler, offsetUs: int)
  {
    offsetUs <= s.maxPeriodUs && (offsetUs == 0 || offsetUs >= s.minPeriodUs)
  }

  /** `schedule`. The checks run in a fixed order and the first failing one
      decides the answer; a rejection changes nothing. On success the task
      is inserted in priority order and the count grows by one. */
  function Schedule(s: Scheduler, periodUs: u32, offsetUs: u32, priority: i8, fcn: TaskFn): (r: Outcome)
    ensures r.status != Ok ==> r.sched == s
    ensures r.status == NotInitialized <==> s.state == Uninitialized
    ensures r.status == TooManyTasks <==> s.state == Initialized && |s.tasks| >= MAX_TASKS
    ensures r.status == InvalidPeriod <==>
      s.state == Initialized && |s.tasks| < MAX_TASKS && !PeriodAccepted(s, periodUs)
    ensures r.status == InvalidOffset <==>
      s.state == Initialized && |s.tasks| < MAX_TASKS && PeriodAccepted(s, periodUs)
      && !OffsetAccepted(s, offsetUs)
    ensures r.status == InvalidPriority <==>
      s.state == Initialized && |s.tasks| < MAX_TASKS && PeriodAccepted(s, periodUs)
      && OffsetAccepted(s, offsetUs) && priority <= MIN_PRIORITY
    ensures r.status == InvalidFunction <==>
      s.state == Initialized && |s.tasks| < MAX_TASKS && PeriodAccepted(s, periodUs)
      && OffsetAccepted(s, offsetUs) && priority > MIN_PRIORITY && fcn == Null
    ensures r.status != InvalidOperation && r.status != NotImplemented
    ensures r.status == Ok ==>
      var t := NewTask(fcn, UsToTicks(periodUs), UsToTicks(offsetUs), priority);
      r.sched == s.(tasks := r.sched.tasks)
      && |r.sched.tasks| == |s.tasks| + 1
      && r.sched.tasks == TaskTable.InsertAt(s.tasks, TaskTable.InsertionIndex(s.tasks, priority), t)
  {
    if s.state.Uninitialized? then Outcome(s, NotInitialized)
    else if |s.tasks| >= MAX_TASKS then Outcome(s, TooManyTasks)
    else if periodUs > s.maxPeriodUs || periodUs < s.minPeriodUs then Outcome(s, InvalidPeriod)
    else if offsetUs > s.maxPeriodUs || (offsetUs > 0 && offsetUs < s.minPeriodUs) then Outcome(s, InvalidOffset)
    else if priority <= MIN_PRIORITY then Outcome(s, InvalidPriority)
    else if fcn == Null then Outcome(s, InvalidFunction)
    else
      var t := NewTask(fcn, UsToTicks(periodUs), UsToTicks(offsetUs), priority);
      var k := TaskTable.InsertionIndex(s.tasks, priority);
      Outcome(s.(tasks := TaskTable.InsertAt(s.tasks, k, t)), Ok)
  }

  /** In a reachable initialised state the bounds are the fixed 100 us and
      6,553,500 us, so the rejections read as plain numeric rules. */
  lemma ScheduleRules(s: Scheduler, periodUs: u32, offsetUs: u32, priority: i8, fcn: TaskFn)
    requires Valid(s) && s.state == Initialized && |s.tasks| < MAX_TASKS
    ensures var r := Schedule(s, periodUs, offsetUs, priority, fcn).status;
            (r == InvalidPeriod <==> periodUs < 100 || periodUs > 6553500)
            && (r == InvalidOffset <==>
                  100 <= periodUs <= 6553500 && (offsetUs > 6553500 || 0 < offsetUs < 100))
            && (r == Ok <==>
                  100 <= periodUs <= 6553500 && (offsetUs == 0 || 100 <= offsetUs <= 6553500)
                  && priority > -127 && fcn != Null)
  {
  }

  /** A registration from a reachable state keeps the invariant, so the
      table stays in priority order; on success the contents are the old
      contents plus the new task. */
  lemma ScheduleKeepsValid(s: Scheduler, periodUs: u32, offsetUs: u32, priority: i8, fcn: TaskFn)
    requires Valid(s)
    ensures Valid(Schedule(s, periodUs, offsetUs, priority, fcn).sched)
    ensures var r := Schedule(s, periodUs, offsetUs, priority, fcn);
            r.status == Ok ==>
              multiset(r.sched.tasks)
              == multiset(s.tasks) + multiset{NewTask(fcn, periodUs / 100, offsetUs / 100, priority)}
  {
    var r := Schedule(s, periodUs, offsetUs, priority, fcn);
    if r.status == Ok {
      var t := NewTask(fcn, UsToTicks(periodUs), UsToTicks(offsetUs), priority);
      TaskTable.InsertKeepsPriorityOrder(s.tasks, t);
      ScheduleStoresTask(s, periodUs, offsetUs, priority, fcn);
      var ts, k := r.sched.tasks, TaskTable.InsertionIndex(s.tasks, priority);
      assert t == NewTask(fcn, periodUs / 100, offsetUs / 100, priority);
      forall i | 0 <= i < |ts|
        ensures LiveTask(ts[i])
      {
        if i < k {
          assert ts[i] == s.tasks[i];
        } else if i > k {
          assert ts[i] == s.tasks[i - 1];
        }
      }
    }
  }

  /** A successful registration stores the period and offset converted to
      whole ticks (period 1..65535 ticks, offset 0 or 1..65535 ticks), an
      Idle task with cleared counters, and starts its countdown at the
      offset. Entries before the insertion slot stay put; those from it on
      move up by one. */
  lemma ScheduleStoresTask(s: Scheduler, periodUs: u32, offsetUs: u32, priority: i8, fcn: TaskFn)
    requires Valid(s) && Schedule(s, periodUs, offsetUs, priority, fcn).status == Ok
    ensures var ts := Schedule(s, periodUs, offsetUs, priority, fcn).sched.tasks;
            var k := TaskTable.InsertionIndex(s.tasks, priority);
            ts[k] == Task(fcn, offsetUs / 100, periodUs / 100, offsetUs / 100, 0, 0, priority, Idle)
            && 1 <= ts[k].period && (ts[k].offset == 0 || 1 <= ts[k].offset)
            && ts[k].count == ts[k].offset
            && (forall j :: 0 <= j < k ==> ts[j] == s.tasks[j])
            && (forall j :: k <= j < |s.tasks| ==> ts[j + 1] == s.tasks[j])
  {
    var ts := Schedule(s, periodUs, offsetUs, priority, fcn).sched.tasks;
    var k := TaskTable.InsertionIndex(s.tasks, priority);
    assert forall j :: k < j < |ts| ==> ts[j] == s.tasks[j - 1];
  }

  // ---------------------------------------------------------------------------
  // Tick handler and cooperative dispatch
  // ---------------------------------------------------------------------------

  /** `timerISR`: the bookkeeping pass, then in preemptive mode the dispatch
      pass. Only the table and the running priority change, and within the
      table only countdowns, states and counters: identity, period, offset,
      priority and order stay. */
  function TimerIsr(s: Scheduler): (r: IsrOutcome)
    ensures r.sched == s.(tasks := r.sched.tasks, running := r.sched.running)
    ensures |r.sched.tasks| == |s.tasks|
    ensures forall i :: 0 <= i < |s.tasks| ==>
      var a, b := s.tasks[i], r.sched.tasks[i];
      b.fcn == a.fcn && b.period == a.period && b.offset == a.offset && b.priority == a.priority
      && b.misses >= a.misses && b.overruns >= a.overruns
    ensures s.mode == NonPreemptive ==>
      r.sched.tasks == Tick.TickAll(s.tasks) && r.sched.running == s.running && r.calls == []
  {
    var pass := Tick.TimerTick(s.tasks, s.running, s.mode);
    Tick.PreemptFromEffect(Tick.TickAll(s.tasks), 0, s.running);
    IsrOutcome(s.(tasks := pass.tasks, running := pass.running), pass.calls)
  }

  /** A tick from a reachable state: the invariant holds after it (so the
      running priority is the sentinel again outside callbacks), every
      countdown is at least one, and in preemptive mode every task that
      became or stayed Ready has been run and is Idle again. */
  lemma TimerIsrKeepsValid(s: Scheduler)
    requires Valid(s)
    ensures var r := TimerIsr(s).sched;
            Valid(r) && r.running == MIN_PRIORITY
            && (forall i :: 0 <= i < |r.tasks| ==> r.tasks[i].count >= 1)
            && (s.mode == Preemptive ==> forall i :: 0 <= i < |r.tasks| ==> r.tasks[i].state == Idle)
  {
    var ticked := Tick.TickAll(s.tasks);
    forall i | 0 <= i < |s.tasks|
      ensures LiveTask(ticked[i]) && ticked[i].count >= 1
    {
      Tick.TickTaskMonotone(s.tasks[i]);
    }
    if s.mode == Preemptive {
      Tick.TopLevelPassRunsAllReady(ticked);
    }
    var r := TimerIsr(s).sched;
    assert TaskTable.PrioritySorted(r.tasks) by {
      assert forall i :: 0 <= i < |s.tasks| ==> r.tasks[i].priority == s.tasks[i].priority;
    }
  }

  /** `loop`: refuses before `init`; in non-preemptive mode runs every Ready
      task in table order (Ready, Running during its callback, then Idle)
      and leaves Idle tasks alone; in preemptive mode does nothing. The
      success path returns no value. */
  function Loop(s: Scheduler): (r: LoopOutcome)
    ensures s.state == Uninitialized ==>
      r.status == Some(NotInitialized) && r.sched == s && r.calls == []
    ensures s.state == Initialized ==> r.status == None
    ensures s.state == Initialized && s.mode == Preemptive ==> r.sched == s && r.calls == []
    ensures r.sched == s.(tasks := r.sched.tasks) && |r.sched.tasks| == |s.tasks|
    ensures s.state == Initialized && s.mode == NonPreemptive ==>
      (forall i :: 0 <= i < |s.tasks| ==>
         r.sched.tasks[i] == if s.tasks[i].state == Ready then s.tasks[i].(state := Idle) else s.tasks[i])
      && Tick.Increasing(r.calls)
      && (forall i :: Tick.Called(r.calls, i) <==> 0 <= i < |s.tasks| && s.tasks[i].state == Ready)
  {
    if s.state == Uninitialized then LoopOutcome(s, Some(NotInitialized), [])
    else if s.mode == NonPreemptive then
      var pass := Tick.CooperativeFrom(s.tasks, 0, s.running);
      LoopOutcome(s.(tasks := pass.tasks), None, pass.calls)
    else
      LoopOutcome(s, None, [])
  }

  lemma LoopKeepsValid(s: Scheduler)
    requires Valid(s)
    ensures Valid(Loop(s).sched)
  {
    var r := Loop(s).sched;
    assert forall i :: 0 <= i < |s.tasks| ==> r.tasks[i].priority == s.tasks[i].priority;
  }

  // ---------------------------------------------------------------------------
  // Introspection
  // ---------------------------------------------------------------------------

  function GetTaskCount(s: Scheduler): (r: u8)
    ensures r == |s.tasks|
  {
    |s.tasks|
  }

  /** `getTaskInfo(i)`: the i-th live task, or none (NULL) past the count. */
  function GetTaskInfo(s: Scheduler, i: u8): (r: Option<Task>)
    ensures r.Some? <==> i < |s.tasks|
    ensures r.Some? ==> r.value == s.tasks[i]
  {
    if i < |s.tasks| then Some(s.tasks[i]) else None
  }

  /** Index 0 always holds a task of the highest live priority. */
  lemma FirstTaskHasHighestPriority(s: Scheduler)
    requires Valid(s)
    ensures GetTaskInfo(s, 0).Some? ==>
      forall i :: 0 <= i < |s.tasks| ==> s.tasks[i].priority <= GetTaskInfo(s, 0).value.priority
  {
  }

  // ---------------------------------------------------------------------------
  // Scenarios
  // ---------------------------------------------------------------------------

  /** Initialisation sequence: start is refused before init, TIMER1 is
      accepted, sources 0 and 2 are not, a second TIMER1 init switches to
      non-preemptive mode, the table is empty and start succeeds. */
  lemma InitScenario()
    ensures var s0 := Reset(New());
            var a := Start(s0);
            var b := Init(s0, Preemptive, 1);
            var c := Init(b.sched, Preemptive, 0);
            var d := Init(c.sched, Preemptive, 2);
            var e := Init(d.sched, NonPreemptive, 1);
            a.status == NotInitialized && b.status == Ok && c.status == NotImplemented
            && d.status == NotImplemented && e.status == Ok
            && GetTaskCount(e.sched) == 0 && Start(e.sched).status == Ok
            && e.sched.mode == NonPreemptive
  {
  }

  /** One successful registration, computed: the table after `schedule`
      when `k` is the insertion slot. */
  lemma ScheduleAt(s: Scheduler, periodUs: u32, priority: i8, k: nat, expected: seq<Task>)
    requires s.state == Initialized && s.minPeriodUs == 100 && s.maxPeriodUs == 6553500
    requires |s.tasks| < MAX_TASKS && 100 <= periodUs <= 6553500 && priority > MIN_PRIORITY
    requires TaskTable.IsInsertionIndex(s.tasks, priority, k)
    requires expected == TaskTable.InsertAt(s.tasks, k, NewTask(Fn(0), periodUs / 100, 0, priority))
    ensures Schedule(s, periodUs, 0, priority, Fn(0)) == Outcome(s.(tasks := expected), Ok)
  {
    TaskTable.InsertionIndexUnique(s.tasks, priority, TaskTable.InsertionIndex(s.tasks, priority), k);
  }

  /** The state right after `init(PREEMPTIVE, TIMER1)` on a fresh object. */
  const Initialised: Scheduler := Scheduler(Initialized, 100, 6553500, SRC_TIMER1, [], MIN_PRIORITY, Preemptive)

  /** The tasks of the priority scenario, as `schedule` stores them. */
  const TaskA: Task := NewTask(Fn(0), 10000, 0, 0)
  const TaskB: Task := NewTask(Fn(0), 10, 0, 0)
  const TaskC: Task := NewTask(Fn(0), 1, 0, -1)
  const TaskD: Task := NewTask(Fn(0), 2, 0, 127)
  const TaskE: Task := NewTask(Fn(0), 4, 0, 63)

  lemma ScenarioStep1()
    ensures Schedule(Initialised, 1000000, 0, 0, Fn(0)) == Outcome(Initialised.(tasks := [TaskA]), Ok)
  {
    assert TaskTable.InsertAt([], 0, TaskA) == [TaskA];
    ScheduleAt(Initialised, 1000000, 0, 0, [TaskA]);
  }

  /** An equal priority sits at the tail, so the new task goes in front of
      it; here that happens to give the shorter period first. */
  lemma ScenarioStep2()
    ensures Schedule(Initialised.(tasks := [TaskA]), 1000, 0, 0, Fn(0))
         == Outcome(Initialised.(tasks := [TaskB, TaskA]), Ok)
  {
    assert TaskTable.InsertAt([TaskA], 0, TaskB) == [TaskB, TaskA];
    ScheduleAt(Initialised.(tasks := [TaskA]), 1000, 0, 0, [TaskB, TaskA]);
  }

  lemma ScenarioStep3()
    ensures Schedule(Initialised.(tasks := [TaskB, TaskA]), 100, 0, -1, Fn(0))
         == Outcome(Initialised.(tasks := [TaskB, TaskA, TaskC]), Ok)
  {
    assert TaskTable.InsertAt([TaskB, TaskA], 2, TaskC) == [TaskB, TaskA, TaskC];
    ScheduleAt(Initialised.(tasks := [TaskB, TaskA]), 100, -1, 2, [TaskB, TaskA, TaskC]);
  }

  lemma ScenarioStep4()
    ensures Schedule(Initialised.(tasks := [TaskB, TaskA, TaskC]), 200, 0, 127, Fn(0))
         == Outcome(Initialised.(tasks := [TaskD, TaskB, TaskA, TaskC]), Ok)
  {
    assert TaskTable.InsertAt([TaskB, TaskA, TaskC], 0, TaskD) == [TaskD, TaskB, TaskA, TaskC];
    ScheduleAt(Initialised.(tasks := [TaskB, TaskA, TaskC]), 200, 127, 0, [TaskD, TaskB, TaskA, TaskC]);
  }

  lemma ScenarioStep5()
    ensures Schedule(Initialised.(tasks := [TaskD, TaskB, TaskA, TaskC]), 400, 0, 63, Fn(0))
         == Outcome(Initialised.(tasks := [TaskD, TaskE, TaskB, TaskA, TaskC]), Ok)
  {
    assert TaskTable.InsertAt([TaskD, TaskB, TaskA, TaskC], 1, TaskE) == [TaskD, TaskE, TaskB, TaskA, TaskC];
    ScheduleAt(Initialised.(tasks := [TaskD, TaskB, TaskA, TaskC]), 400, 63, 1, [TaskD, TaskE, TaskB, TaskA, TaskC]);
  }

  /** Five registrations (1 s and 1 ms at priority 0, 100 us at -1, 200 us
      at 127, 400 us at 63) leave the periods, in table order, at
      2, 4, 10, 10000 and 1 ticks. */
  lemma PriorityScenario()
    ensures var s0 := Init(Reset(New()), Preemptive, SRC_TIMER1).sched;
            var s1 := Schedule(s0, 1000000, 0, 0, Fn(0)).sched;
            var s2 := Schedule(s1, 1000, 0, 0, Fn(0)).sched;
            var s3 := Schedule(s2, 100, 0, -1, Fn(0)).sched;
            var s4 := Schedule(s3, 200, 0, 127, Fn(0)).sched;
            var s5 := Schedule(s4, 400, 0, 63, Fn(0)).sched;
            |s5.tasks| == 5
            && s5.tasks[0].period == 2 && s5.tasks[1].period == 4 && s5.tasks[2].period == 10
            && s5.tasks[3].period == 10000 && s5.tasks[4].period == 1
  {
    var s0 := Init(Reset(New()), Preemptive, SRC_TIMER1).sched;
    assert s0 == Initialised;
    ScenarioStep1();
    var s1 := Schedule(s0, 1000000, 0, 0, Fn(0)).sched;
    assert s1 == Initialised.(tasks := [TaskA]);
    ScenarioStep2();
    var s2 := Schedule(s1, 1000, 0, 0, Fn(0)).sched;
    assert s2 == Initialised.(tasks := [TaskB, TaskA]);
    ScenarioStep3();
    var s3 := Schedule(s2, 100, 0, -1, Fn(0)).sched;
    assert s3 == Initialised.(tasks := [TaskB, TaskA, TaskC]);
    ScenarioStep4();
    var s4 := Schedule(s3, 200, 0, 127, Fn(0)).sched;
    assert s4 == Initialised.(tasks := [TaskD, TaskB, TaskA, TaskC]);
    ScenarioStep5();
    var s5 := Schedule(s4, 400, 0, 63, Fn(0)).sched;
    assert s5.tasks == [TaskD, TaskE, TaskB, TaskA, TaskC];
  }
}
