/** Tasker, the older copy of the engine. Insertion, tick handler and
    dispatch passes are the shared ones; what differs is validation (no
    init check, no minimum period, a phase that may not exceed the period),
    the clock source numbering, `loop` (no init check, no result) and the
    absence of `reset` and of the getters. */
module Tasker {
  import opened Types
  import TaskTable
  import Tick

  /** The one supported clock source (`SRC_TIMER1` is 0 in this variant). */
  const SRC_TIMER1: int := 0

  datatype InitState = Uninitialized | Initialized

  datatype Status =
    | Ok
    | NotInitialized
    | TooManyTasks
    | InvalidPeriod
    | InvalidFunction
    | InvalidPhase
    | InvalidPriority
    | InvalidOperation
    | NotImplemented
  {
    /** The `int8_t` value returned to the caller: zero for success and a
        negative number for every error. */
    function Code(): (c: i8)
      ensures c <= 0
      ensures c == 0 <==> this == Ok
    {
      match this
      case Ok => 0
      case NotInitialized => -1
      case TooManyTasks => -2
      case InvalidPeriod => -3
      case InvalidFunction => -4
      case InvalidPhase => -5
      case InvalidPriority => -6
      case InvalidOperation => -7
      case NotImplemented => -99
    }
  }

  /** The status a returned code stands for, if any. */
  function StatusOf(c: int): (r: Option<Status>)
    ensures r.Some? ==> r.value.Code() == c
    ensures r.None? ==> c !in {0, -1, -2, -3, -4, -5, -6, -7, -99}
  {
    match c
    case 0 => Some(Ok)
    case -1 => Some(NotInitialized)
    case -2 => Some(TooManyTasks)
    case -3 => Some(InvalidPeriod)
    case -4 => Some(InvalidFunction)
    case -5 => Some(InvalidPhase)
    case -6 => Some(InvalidPriority)
    case -7 => Some(InvalidOperation)
    case -99 => Some(NotImplemented)
    case _ => None
  }

  /** Every status has its own code: decoding a status's code gives that
      status back, so no two statuses share a code. */
  lemma StatusCodeRoundTrip(st: Status)
    ensures StatusOf(st.Code()) == Some(st)
    ensures forall other: Status :: other.Code() == st.Code() ==> other == st
  {
  }

  /** The scheduler object; there is no minimum-period field. A task's
      `offset` field holds its phase. */
  datatype Scheduler = Scheduler(
    state: InitState,
    maxPeriodUs: u32,
    clkSrc: int,
    tasks: Table,
    running: i8,
    mode: Mode)

  datatype Outcome = Outcome(sched: Scheduler, status: Status)

  /** Result of `loop` or of one tick: the new state and the callbacks run. */
  datatype Dispatch = Dispatch(sched: Scheduler, calls: seq<Tick.Call>)

  /** A live task as this variant admits it: the phase never exceeds the
      period, but the period may be zero ticks. */
  predicate LiveTask(t: Task)
  {
    t.fcn != Null && t.priority > MIN_PRIORITY && t.offset <= t.period && t.state != Running
  }

  predicate Valid(s: Scheduler)
  {
    TaskTable.PrioritySorted(s.tasks)
    && (forall i :: 0 <= i < |s.tasks| ==> LiveTask(s.tasks[i]))
    && s.running == MIN_PRIORITY
    && (s.state == Uninitialized ==> s.tasks == [] && s.maxPeriodUs == 0)
    && (s.state == Initialized ==> s.maxPeriodUs == MAX_PERIOD_US)
  }

  // ---------------------------------------------------------------------------
  // Lifecycle
  // ---------------------------------------------------------------------------

  /** The constructor: empty table, no maximum period, uninitialised,
      sentinel running priority, preemptive mode; the clock source keeps the
      zero of the static object. */
  function New(): (r: Scheduler)
    ensures Valid(r)
    ensures r.tasks == [] && r.maxPeriodUs == 0 && r.state == Uninitialized
    ensures r.running == MIN_PRIORITY && r.mode == Preemptive
  {
    Scheduler(Uninitialized, 0, 0, [], MIN_PRIORITY, Preemptive)
  }

  /** `init`: records mode and clock source; only TIMER1 (0) sets the
      maximum period and initialises. */
  function Init(s: Scheduler, mode: Mode, clkSrc: int): (r: Outcome)
    ensures r.sched.mode == mode && r.sched.clkSrc == clkSrc
    ensures r.sched.tasks == s.tasks && r.sched.running == s.running
    ensures r.status == Ok <==> clkSrc == SRC_TIMER1
    ensures r.status != Ok ==>
      r.status == NotImplemented && r.sched.state == s.state && r.sched.maxPeriodUs == s.maxPeriodUs
    ensures r.status == Ok ==> r.sched.state == Initialized && r.sched.maxPeriodUs == 6553500
    ensures Valid(s) ==> Valid(r.sched)
  {
    var s' := s.(mode := mode, clkSrc := clkSrc);
    if clkSrc == SRC_TIMER1 then
      Outcome(s'.(maxPeriodUs := MAX_PERIOD_US, state := Initialized), Ok)
    else
      Outcome(s', NotImplemented)
  }

  function Start(s: Scheduler): (r: Outcome)
    ensures r.sched == s
    ensures r.status == NotInitialized <==> s.state == Uninitialized
    ensures r.status != NotInitialized ==> r.status == Ok
  {
    if s.state.Uninitialized? then Outcome(s, NotInitialized) else Outcome(s, Ok)
  }

  // ---------------------------------------------------------------------------
  // Registration
  // ---------------------------------------------------------------------------

  /** `schedule`: no init check. Checks in order capacity, period (nonzero,
      at most the maximum), phase (at most the period), priority and
      function; the first failing one decides and a rejection changes
      nothing. */
  function Schedule(s: Scheduler, periodUs: u32, phaseUs: u32, priority: i8, fcn: TaskFn): (r: Outcome)
    ensures r.status != Ok ==> r.sched == s
    ensures r.status == TooManyTasks <==> |s.tasks| >= MAX_TASKS
    ensures r.status == InvalidPeriod <==>
      |s.tasks| < MAX_TASKS && (periodUs == 0 || periodUs > s.maxPeriodUs)
    ensures r.status == InvalidPhase <==>
      |s.tasks| < MAX_TASKS && 0 < periodUs <= s.maxPeriodUs && phaseUs > periodUs
    ensures r.status == InvalidPriority <==>
      |s.tasks| < MAX_TASKS && 0 < periodUs <= s.maxPeriodUs && phaseUs <= periodUs
      && priority <= MIN_PRIORITY
    ensures r.status == InvalidFunction <==>
      |s.tasks| < MAX_TASKS && 0 < periodUs <= s.maxPeriodUs && phaseUs <= periodUs
      && priority > MIN_PRIORITY && fcn == Null
    ensures r.status in {Ok, TooManyTasks, InvalidPeriod, InvalidPhase, InvalidPriority, InvalidFunction}
    ensures r.status == Ok ==>
      var t := NewTask(fcn, UsToTicks(periodUs), UsToTicks(phaseUs), priority);
      r.sched == s.(tasks := r.sched.tasks)
      && |r.sched.tasks| == |s.tasks| + 1
      && r.sched.tasks == TaskTable.InsertAt(s.tasks, TaskTable.InsertionIndex(s.tasks, priority), t)
  {
    if |s.tasks| >= MAX_TASKS then Outcome(s, TooManyTasks)
    else if periodUs == 0 || periodUs > s.maxPeriodUs then Outcome(s, InvalidPeriod)
    else if phaseUs > periodUs then Outcome(s, InvalidPhase)
    else if priority <= MIN_PRIORITY then Outcome(s, InvalidPriority)
    else if fcn == Null then Outcome(s, InvalidFunction)
    else
      var t := NewTask(fcn, UsToTicks(periodUs), UsToTicks(phaseUs), priority);
      Outcome(s.(tasks := TaskTable.InsertAt(s.tasks, TaskTable.InsertionIndex(s.tasks, priority), t)), Ok)
  }

  /** Before `init` the maximum period is zero, so every registration is
      refused as an invalid period. */
  lemma ScheduleBeforeInitFails(s: Scheduler, periodUs: u32, phaseUs: u32, priority: i8, fcn: TaskFn)
    requires Valid(s) && s.state == Uninitialized
    ensures Schedule(s, periodUs, phaseUs, priority, fcn).status == InvalidPeriod
  {
  }

  /** After `init`, with room in the table: a period of 1 to 6,553,500 us is
      accepted (there is no 100 us minimum) and a phase equal to the period
      is accepted. */
  lemma ScheduleRules(s: Scheduler, periodUs: u32, phaseUs: u32, priority: i8, fcn: TaskFn)
    requires Valid(s) && s.state == Initialized && |s.tasks| < MAX_TASKS
    ensures var r := Schedule(s, periodUs, phaseUs, priority, fcn).status;
            (r == InvalidPeriod <==> periodUs == 0 || periodUs > 6553500)
            && (r == Ok <==>
                  1 <= periodUs <= 6553500 && phaseUs <= periodUs && priority > -127 && fcn != Null)
  {
  }

  /** A registration from a reachable state keeps the invariant (priority
      order, stored phase at most the stored period); on success the
      contents are the old contents plus the new task. */
  lemma ScheduleKeepsValid(s: Scheduler, periodUs: u32, phaseUs: u32, priority: i8, fcn: TaskFn)
    requires Valid(s)
    ensures Valid(Schedule(s, periodUs, phaseUs, priority, fcn).sched)
    ensures var r := Schedule(s, periodUs, phaseUs, priority, fcn);
            r.status == Ok ==>
              multiset(r.sched.tasks)
              == multiset(s.tasks) + multiset{NewTask(fcn, periodUs / 100, phaseUs / 100, priority)}
  {
    var r := Schedule(s, periodUs, phaseUs, priority, fcn);
    if r.status == Ok {
      var t := NewTask(fcn, UsToTicks(periodUs), UsToTicks(phaseUs), priority);
      TaskTable.InsertKeepsPriorityOrder(s.tasks, t);
      ScheduleStoresTask(s, periodUs, phaseUs, priority, fcn);
      var ts, k := r.sched.tasks, TaskTable.InsertionIndex(s.tasks, priority);
      assert t == NewTask(fcn, periodUs / 100, phaseUs / 100, priority);
      forall i | 0 <= i < |ts|
        ensures LiveTask(ts[i])
      {
        if i < k {
          assert ts[i] == s.tasks[i];
        } else if i > k {
          assert ts[i] == s.tasks[i - 1];
        }
      }
    }
  }

  /** A successful registration stores an Idle task with cleared counters,
      the period and phase in whole ticks and the countdown at the phase;
      earlier slots stay put and later ones move up by one. */
  lemma ScheduleStoresTask(s: Scheduler, periodUs: u32, phaseUs: u32, priority: i8, fcn: TaskFn)
    requires Valid(s) && Schedule(s, periodUs, phaseUs, priority, fcn).status == Ok
    ensures var ts := Schedule(s, periodUs, phaseUs, priority, fcn).sched.tasks;
            var k := TaskTable.InsertionIndex(s.tasks, priority);
            ts[k] == Task(fcn, phaseUs / 100, periodUs / 100, phaseUs / 100, 0, 0, priority, Idle)
            && ts[k].count == ts[k].offset <= ts[k].period
            && (forall j :: 0 <= j < k ==> ts[j] == s.tasks[j])
            && (forall j :: k <= j < |s.tasks| ==> ts[j + 1] == s.tasks[j])
  {
    UsToTicksMonotone(phaseUs, periodUs);
    var ts := Schedule(s, periodUs, phaseUs, priority, fcn).sched.tasks;
    var k := TaskTable.InsertionIndex(s.tasks, priority);
    assert forall j :: k < j < |ts| ==> ts[j] == s.tasks[j - 1];
  }

  /** A period below one tick (1 to 99 us) is accepted, is stored as zero
      ticks with a zero phase, and the task then reaches a deadline on
      every tick. */
  lemma ShortPeriodFiresEveryTick(s: Scheduler, periodUs: u32, phaseUs: u32, priority: i8, fcn: TaskFn, k: nat)
    requires Valid(s) && s.state == Initialized && |s.tasks| < MAX_TASKS
    requires 1 <= periodUs < 100 && phaseUs <= periodUs && priority > MIN_PRIORITY && fcn != Null
    ensures var r := Schedule(s, periodUs, phaseUs, priority, fcn);
            var t := r.sched.tasks[TaskTable.InsertionIndex(s.tasks, priority)];
            r.status == Ok && t.period == 0 && t.count == 0
            && (k >= 1 ==> Tick.DeadlineAt(t, k))
  {
    var r := Schedule(s, periodUs, phaseUs, priority, fcn);
    var t := r.sched.tasks[TaskTable.InsertionIndex(s.tasks, priority)];
    ScheduleStoresTask(s, periodUs, phaseUs, priority, fcn);
    Tick.ZeroPeriodEveryTick(t, k);
  }

  // ---------------------------------------------------------------------------
  // Tick handler and cooperative dispatch
  // ---------------------------------------------------------------------------

  /** `timerISR`, the shared tick: only the table and the running priority
      change, and within the table no identity, period, phase or priority. */
  function TimerIsr(s: Scheduler): (r: Dispatch)
    ensures r.sched == s.(tasks := r.sched.tasks, running := r.sched.running)
    ensures |r.sched.tasks| == |s.tasks|
    ensures forall i :: 0 <= i < |s.tasks| ==>
      var a, b := s.tasks[i], r.sched.tasks[i];
      b.fcn == a.fcn && b.period == a.period && b.offset == a.offset && b.priority == a.priority
      && b.misses >= a.misses && b.overruns >= a.overruns
    ensures s.mode == NonPreemptive ==>
      r.sched.tasks == Tick.TickAll(s.tasks) && r.sched.running == s.running && r.calls == []
  {
    var pass := Tick.TimerTick(s.tasks, s.running, s.mode);
    Tick.PreemptFromEffect(Tick.TickAll(s.tasks), 0, s.running);
    Dispatch(s.(tasks := pass.tasks, running := pass.running), pass.calls)
  }

  /** A tick from a reachable state keeps the invariant and, in preemptive
      mode, leaves every task Idle with the sentinel running priority. */
  lemma TimerIsrKeepsValid(s: Scheduler)
    requires Valid(s)
    ensures var r := TimerIsr(s).sched;
            Valid(r) && r.running == MIN_PRIORITY
            && (s.mode == Preemptive ==> forall i :: 0 <= i < |r.tasks| ==> r.tasks[i].state == Idle)
  {
    var ticked := Tick.TickAll(s.tasks);
    forall i | 0 <= i < |s.tasks|
      ensures LiveTask(ticked[i])
    {
      Tick.TickTaskMonotone(s.tasks[i]);
    }
    if s.mode == Preemptive {
      Tick.TopLevelPassRunsAllReady(ticked);
    }
    var r := TimerIsr(s).sched;
    assert TaskTable.PrioritySorted(r.tasks) by {
      assert forall i :: 0 <= i < |s.tasks| ==> r.tasks[i].priority == s.tasks[i].priority;
    }
  }

  /** `loop`: no init check and no result. In non-preemptive mode every
      Ready task runs, in table order, and becomes Idle; in preemptive mode
      nothing happens. */
  function Loop(s: Scheduler): (r: Dispatch)
    ensures r.sched == s.(tasks := r.sched.tasks) && |r.sched.tasks| == |s.tasks|
    ensures s.mode == Preemptive ==> r.sched == s && r.calls == []
    ensures s.mode == NonPreemptive ==>
      (forall i :: 0 <= i < |s.tasks| ==>
         r.sched.tasks[i] == if s.tasks[i].state == Ready then s.tasks[i].(state := Idle) else s.tasks[i])
      && Tick.Increasing(r.calls)
      && (forall i :: Tick.Called(r.calls, i) <==> 0 <= i < |s.tasks| && s.tasks[i].state == Ready)
  {
    if s.mode == NonPreemptive then
      var pass := Tick.CooperativeFrom(s.tasks, 0, s.running);
      Dispatch(s.(tasks := pass.tasks), pass.calls)
    else
      Dispatch(s, [])
  }

  lemma LoopKeepsValid(s: Scheduler)
    requires Valid(s)
    ensures Valid(Loop(s).sched)
  {
    var r := Loop(s).sched;
    assert forall i :: 0 <= i < |s.tasks| ==> r.tasks[i].priority == s.tasks[i].priority;
  }

  /** From construction: registration and start are refused until a TIMER1
      `init`, clock source 1 is not implemented, and afterwards start
      succeeds. */
  lemma InitScenario()
    ensures var s0 := New();
            var a := Schedule(s0, 100, 0, 0, Fn(0));
            var b := Start(s0);
            var c := Init(s0, Preemptive, 1);
            var d := Init(c.sched, Preemptive, 0);
            a.status == InvalidPeriod && b.status == NotInitialized
            && c.status == NotImplemented && c.sched.state == Uninitialized
            && d.status == Ok && Start(d.sched).status == Ok
  {
  }
}
