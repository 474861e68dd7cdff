/** How the two variants relate: same insertion and same tick, different
    validation. */
module Variants {
  import opened Types
  import Sked
  import Tasker

  /** Given the same table and the same request, a registration both
      variants accept produces the same table: the insertion index, the
      shift and the stored record are shared (Sked's offset is Tasker's
      phase). */
  lemma SameInsertion(s: Sked.Scheduler, t: Tasker.Scheduler, periodUs: u32, offsetUs: u32, priority: i8, fcn: TaskFn)
    requires s.tasks == t.tasks
    requires Sked.Schedule(s, periodUs, offsetUs, priority, fcn).status == Sked.Ok
    requires Tasker.Schedule(t, periodUs, offsetUs, priority, fcn).status == Tasker.Ok
    ensures Sked.Schedule(s, periodUs, offsetUs, priority, fcn).sched.tasks
         == Tasker.Schedule(t, periodUs, offsetUs, priority, fcn).sched.tasks
  {
  }

  /** With the same table, running priority and mode, one tick does the
      same thing in both variants. */
  lemma SameTick(s: Sked.Scheduler, t: Tasker.Scheduler)
    requires s.tasks == t.tasks && s.running == t.running && s.mode == t.mode
    ensures Sked.TimerIsr(s).sched.tasks == Tasker.TimerIsr(t).sched.tasks
    ensures Sked.TimerIsr(s).sched.running == Tasker.TimerIsr(t).sched.running
    ensures Sked.TimerIsr(s).calls == Tasker.TimerIsr(t).calls
  {
  }

  /** The validations differ in both directions after `init`: a 50 us
      period is refused by Sked and accepted by Tasker; a 200 us offset on a
      100 us period is accepted by Sked and refused by Tasker. */
  lemma ValidationDiffers(s: Sked.Scheduler, t: Tasker.Scheduler)
    requires Sked.Valid(s) && s.state == Sked.Initialized && |s.tasks| < MAX_TASKS
    requires Tasker.Valid(t) && t.state == Tasker.Initialized && |t.tasks| < MAX_TASKS
    ensures Sked.Schedule(s, 50, 0, 0, Fn(0)).status == Sked.InvalidPeriod
    ensures Tasker.Schedule(t, 50, 0, 0, Fn(0)).status == Tasker.Ok
    ensures Sked.Schedule(s, 100, 200, 0, Fn(0)).status == Sked.Ok
    ensures Tasker.Schedule(t, 100, 200, 0, Fn(0)).status == Tasker.InvalidPhase
  {
  }
}
