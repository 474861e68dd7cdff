/** Machine widths, constants and the task record shared by both scheduler
    variants (Sked and the older Tasker). */
module Types {

  /** The C integer types the scheduler stores its fields in. */
  type u8 = x: int | 0 <= x < 0x100
  type u16 = x: int | 0 <= x < 0x1_0000
  type u32 = x: int | 0 <= x < 0x1_0000_0000
  type i8 = x: int | -0x80 <= x < 0x80

  /** Capacity of the task table. */
  const MAX_TASKS: nat := 16

  /** Reserved "nothing is running" priority; no task may carry it. */
  const MIN_PRIORITY: int := -127

  /** Saturation bound of the miss and overrun counters. */
  const COUNTER_MAX: int := 255

  /** One timer tick, in microseconds (the float tick macro evaluates to 100). */
  const TICK_PERIOD_US: nat := 100

  /** Largest period in microseconds: 0xFFFF ticks of 100 us each. */
  const MAX_PERIOD_US: nat := 0xFFFF * 100

  datatype Option<+T> = None | Some(value: T)

  /** The task function pointer, kept opaque: only its identity and the
      possibility of being null matter to the scheduler. */
  datatype TaskFn = Null | Fn(id: nat)

  datatype TaskState = Idle | Ready | Running

  /** Dispatch mode. Fixed by init; reset restores Preemptive. */
  datatype Mode = Preemptive | NonPreemptive

  /** One slot of the task table. `offset` is the first-activation delay in
      ticks (called `phase` in the Tasker variant); `count` is the countdown. */
  datatype Task = Task(
    fcn: TaskFn,
    count: u16,
    period: u16,
    offset: u16,
    misses: u8,
    overruns: u8,
    priority: i8,
    state: TaskState)

  /** The live part of the fixed 16-slot array: slots at or beyond the task
      count are never read, so only the live prefix is kept. */
  type Table = ts: seq<Task> | |ts| <= MAX_TASKS

  /** Arduino's `constrain(amt, low, high)` macro. */
  function Constrain(amt: int, low: int, high: int): int
  {
    if amt < low then low else if amt > high then high else amt
  }

  /** The counter update of the tick handler, written as the source writes it:
      `constrain(255, 0, x + 1)` (arguments in that order). It is the
      saturating increment. */
  function SatInc(x: u8): (r: u8)
    ensures r == if x < COUNTER_MAX then x + 1 else COUNTER_MAX
  {
    Constrain(COUNTER_MAX, 0, x + 1)
  }

  /** The record `schedule` stores: Idle, counters cleared, countdown started
      at the offset. */
  function NewTask(fcn: TaskFn, period: u16, offset: u16, priority: i8): Task
  {
    Task(fcn, offset, period, offset, 0, 0, priority, Idle)
  }

  /** Conversion from microseconds to ticks, followed by the implicit
      truncation to `uint16_t` of the assignment. */
  function UsToTicks(us: u32): (r: u16)
    ensures us <= MAX_PERIOD_US ==> r * TICK_PERIOD_US <= us < (r + 1) * TICK_PERIOD_US
  {
    (us / TICK_PERIOD_US) % 0x1_0000
  }

  /** Converting a smaller duration never gives more ticks. */
  lemma UsToTicksMonotone(a: u32, b: u32)
    requires a <= b <= MAX_PERIOD_US
    ensures UsToTicks(a) <= UsToTicks(b)
  {
  }
}
