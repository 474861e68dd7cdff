/** The tick handler (`timerISR`) and the cooperative dispatch pass (`loop`),
    shared verbatim by Sked and Tasker: a bookkeeping pass that advances
    every countdown, then, in preemptive mode, a dispatch pass gated on the
    running priority. */
module Tick {
  import opened Types

  // ---------------------------------------------------------------------------
  // Bookkeeping pass
  // ---------------------------------------------------------------------------

  /** One task's countdown step. The countdown reaches zero on this tick
      exactly when it was 0 or 1 before it; then Idle becomes Ready, Running
      counts an overrun, Ready counts a miss, and the countdown restarts at
      the period. Identity, period, offset and priority never change. */
  function TickTask(t: Task): (r: Task)
    ensures r.fcn == t.fcn && r.period == t.period && r.offset == t.offset
    ensures r.priority == t.priority
    ensures t.count > 1 ==> r == t.(count := t.count - 1)
    ensures t.count <= 1 ==> r.count == t.period
    ensures t.count <= 1 && t.state == Idle ==>
      r.state == Ready && r.misses == t.misses && r.overruns == t.overruns
    ensures t.count <= 1 && t.state == Running ==>
      r.state == Running && r.misses == t.misses
      && r.overruns == (if t.overruns < COUNTER_MAX then t.overruns + 1 else COUNTER_MAX)
    ensures t.count <= 1 && t.state == Ready ==>
      r.state == Ready && r.overruns == t.overruns
      && r.misses == (if t.misses < COUNTER_MAX then t.misses + 1 else COUNTER_MAX)
  {
    var count := if t.count != 0 then t.count - 1 else t.count;
    if count == 0 then
      var t' :=
        if t.state == Idle then t.(state := Ready)
        else if t.state == Running then t.(overruns := SatInc(t.overruns))
        else t.(misses := SatInc(t.misses));
      t'.(count := t.period)
    else
      t.(count := count)
  }

  /** The bookkeeping pass over the live tasks, in table order. */
  function TickAll(ts: Table): (r: Table)
    ensures |r| == |ts|
    ensures forall i :: 0 <= i < |ts| ==> r[i] == TickTask(ts[i])
  {
    seq(|ts|, i requires 0 <= i < |ts| => TickTask(ts[i]))
  }

  /** Counters never decrease, and with a nonzero period every countdown is
      at least one after the tick. */
  lemma TickTaskMonotone(t: Task)
    ensures TickTask(t).misses >= t.misses && TickTask(t).overruns >= t.overruns
    ensures t.period >= 1 ==> TickTask(t).count >= 1
    ensures t.state != Running ==> TickTask(t).state != Running
  {
  }

  // ---------------------------------------------------------------------------
  // Deadline timing and counter saturation
  // ---------------------------------------------------------------------------

  /** `n` consecutive ticks of a single task. */
  function TickN(t: Task, n: nat): (r: Task)
    ensures r.period == t.period && r.priority == t.priority
    ensures r.fcn == t.fcn && r.offset == t.offset
  {
    if n == 0 then t else TickTask(TickN(t, n - 1))
  }

  /** Tick `k` (counting from 1) is a deadline of `t`: the countdown reaches
      zero on it. */
  ghost predicate DeadlineAt(t: Task, k: nat)
  {
    k >= 1 && TickN(t, k - 1).count <= 1
  }

  /** The first deadline tick of `t` is max(countdown, 1); the n-th after it
      follows n periods later. */
  function NthDeadline(t: Task, n: nat): nat
  {
    (if t.count == 0 then 1 else t.count) + n * t.period
  }

  /** Before the first deadline the countdown falls by one per tick. */
  lemma {:induction false} CountdownBeforeFirst(t: Task, k: nat)
    requires k < t.count
    ensures TickN(t, k).count == t.count - k
  {
    if k > 0 {
      CountdownBeforeFirst(t, k - 1);
    }
  }

  /** From the first deadline on, the countdown cycles through
      period, period-1, ..., 1: r ticks after a deadline it is period - r. */
  lemma {:induction false} CountdownCycle(t: Task, n: nat, r: nat)
    requires t.period >= 1 && r < t.period
    ensures TickN(t, NthDeadline(t, n) + r).count == t.period - r
    decreases n, r
  {
    var p := t.period;
    if r > 0 {
      CountdownCycle(t, n, r - 1);
    } else if n > 0 {
      CountdownCycle(t, n - 1, p - 1);
      assert NthDeadline(t, n) == NthDeadline(t, n - 1) + (p - 1) + 1;
    } else if t.count >= 2 {
      CountdownBeforeFirst(t, t.count - 1);
    }
  }

  /** Division with remainder by repeated subtraction. */
  lemma {:induction false} Decompose(j: nat, p: nat) returns (q: nat, r: nat)
    requires p >= 1
    ensures j == q * p + r && r < p
    decreases j
  {
    if j < p {
      q, r := 0, j;
    } else {
      var q', r' := Decompose(j - p, p);
      q, r := q' + 1, r';
      assert (q' + 1) * p == q' * p + p;
    }
  }

  /** Every deadline tick is of the form max(o, 1) + n * p. */
  lemma DeadlineIsNth(t: Task, k: nat) returns (n: nat)
    requires t.period >= 1
    requires DeadlineAt(t, k)
    ensures k == NthDeadline(t, n)
  {
    var p := t.period;
    var m := NthDeadline(t, 0);
    if k < m {
      CountdownBeforeFirst(t, k - 1);
      assert false;
    } else if k == m {
      n := 0;
    } else {
      var j := k - 1 - m;
      var q, r := Decompose(j, p);
      assert k - 1 == NthDeadline(t, q) + r;
      CountdownCycle(t, q, r);
      n := q + 1;
    }
  }

  /** Every tick of the form max(o, 1) + n * p is a deadline. */
  lemma NthIsDeadline(t: Task, n: nat)
    requires t.period >= 1
    ensures DeadlineAt(t, NthDeadline(t, n))
  {
    var p := t.period;
    if n == 0 {
      if t.count >= 2 {
        CountdownBeforeFirst(t, t.count - 1);
      }
    } else {
      CountdownCycle(t, n - 1, p - 1);
      assert NthDeadline(t, n) - 1 == NthDeadline(t, n - 1) + (p - 1);
    }
  }

  /** A task with countdown (offset) o and period p >= 1 reaches its
      deadlines exactly at ticks max(o, 1) + n * p. */
  lemma DeadlineTiming(t: Task, k: nat)
    requires t.period >= 1
    ensures DeadlineAt(t, k) <==> exists n: nat :: k == NthDeadline(t, n)
  {
    if DeadlineAt(t, k) {
      var n := DeadlineIsNth(t, k);
    }
    if exists n: nat :: k == NthDeadline(t, n) {
      var n: nat :| k == NthDeadline(t, n);
      NthIsDeadline(t, n);
    }
  }

  /** An offset of one tick fires on the first tick, exactly like no offset:
      both tasks have the same deadlines forever. */
  lemma OffsetOneSameAsNone(t: Task, k: nat)
    requires t.period >= 1
    ensures DeadlineAt(t.(count := 1), k) <==> DeadlineAt(t.(count := 0), k)
  {
    DeadlineTiming(t.(count := 1), k);
    DeadlineTiming(t.(count := 0), k);
    assert forall n: nat :: NthDeadline(t.(count := 1), n) == NthDeadline(t.(count := 0), n);
  }

  /** With a period of zero ticks the countdown is reset to zero each time,
      so every tick is a deadline. */
  lemma {:induction false} ZeroPeriodEveryTick(t: Task, k: nat)
    requires t.period == 0 && t.count == 0
    ensures TickN(t, k).count == 0
    ensures k >= 1 ==> DeadlineAt(t, k)
  {
    if k > 0 {
      ZeroPeriodEveryTick(t, k - 1);
    }
  }

  /** `x` after `n` saturating increments. */
  function Bumped(x: int, n: nat): int
  {
    if x + n < COUNTER_MAX then x + n else COUNTER_MAX
  }

  /** A Ready task whose every tick is a deadline (a period of one tick, or
      of zero ticks) counts one miss per tick until the counter sticks at
      255. */
  lemma {:induction false} MissesSaturate(t: Task, n: nat)
    requires t.state == Ready && t.period <= 1 && t.count <= 1
    ensures TickN(t, n).state == Ready && TickN(t, n).count <= 1
    ensures TickN(t, n).misses == Bumped(t.misses, n)
  {
    if n > 0 {
      MissesSaturate(t, n - 1);
    }
  }

  /** A Running task whose every tick is a deadline (a period of one tick,
      or of zero ticks) counts one overrun per tick until the counter sticks
      at 255. */
  lemma {:induction false} OverrunsSaturate(t: Task, n: nat)
    requires t.state == Running && t.period <= 1 && t.count <= 1
    ensures TickN(t, n).state == Running && TickN(t, n).count <= 1
    ensures TickN(t, n).overruns == Bumped(t.overruns, n)
  {
    if n > 0 {
      OverrunsSaturate(t, n - 1);
    }
  }

  /** Ticks on which the countdown stays above one change neither the
      state nor the counters. */
  lemma {:induction false} QuietTicks(t: Task, a: nat, m: nat)
    requires forall k :: a <= k < a + m ==> TickN(t, k).count >= 2
    ensures TickN(t, a + m).state == TickN(t, a).state
    ensures TickN(t, a + m).misses == TickN(t, a).misses
    ensures TickN(t, a + m).overruns == TickN(t, a).overruns
    decreases m
  {
    if m > 0 {
      QuietTicks(t, a, m - 1);
      assert TickN(t, a + m) == TickTask(TickN(t, a + (m - 1)));
    }
  }

  /** Quiet ticks from `a`, then a deadline on tick `d`: one saturating
      miss for a Ready task, one saturating overrun for a Running one. */
  lemma {:induction false} DeadlineStep(t: Task, a: nat, m: nat, d: nat)
    requires d == a + m + 1
    requires forall k :: a <= k < a + m ==> TickN(t, k).count >= 2
    requires TickN(t, a + m).count <= 1 && TickN(t, a).state != Idle
    ensures var u, v := TickN(t, a), TickN(t, d);
            v.state == u.state
            && v.misses == (if u.state == Ready then Bumped(u.misses, 1) else u.misses)
            && v.overruns == (if u.state == Running then Bumped(u.overruns, 1) else u.overruns)
  {
    QuietTicks(t, a, m);
    assert TickN(t, d) == TickTask(TickN(t, a + m));
  }

  /** The first deadline is one quiet stretch away from the start. */
  lemma {:induction false} FirstDeadlineStep(t: Task)
    requires t.period >= 1 && t.state != Idle
    ensures var v := TickN(t, NthDeadline(t, 0));
            v.state == t.state
            && v.misses == (if t.state == Ready then Bumped(t.misses, 1) else t.misses)
            && v.overruns == (if t.state == Running then Bumped(t.overruns, 1) else t.overruns)
  {
    var m := NthDeadline(t, 0) - 1;
    forall k | 0 <= k < m
      ensures TickN(t, k).count >= 2
    {
      CountdownBeforeFirst(t, k);
    }
    if t.count >= 2 {
      CountdownBeforeFirst(t, t.count - 1);
    }
    assert TickN(t, 0) == t;
    DeadlineStep(t, 0, m, m + 1);
  }

  /** Consecutive deadlines are one period apart. */
  lemma NthDeadlineNext(t: Task, n: nat)
    ensures NthDeadline(t, n + 1) == NthDeadline(t, n) + t.period
  {
  }

  /** From a countdown of c on tick `a`, the next c - 1 ticks only count
      down. */
  lemma {:induction false} CountdownFrom(t: Task, a: nat, r: nat)
    requires r < TickN(t, a).count
    ensures TickN(t, a + r).count == TickN(t, a).count - r
    decreases r
  {
    if r > 0 {
      CountdownFrom(t, a, r - 1);
      assert TickN(t, a + r) == TickTask(TickN(t, a + (r - 1)));
    }
  }

  /** A countdown of c >= 1 on tick `a` of a task that is not Idle: tick
      `a + c` is its next deadline, with one saturating miss or overrun. */
  lemma {:induction false} GapStep(t: Task, a: nat, c: nat, d: nat)
    requires c >= 1 && TickN(t, a).count == c && d == a + c
    requires TickN(t, a).state != Idle
    ensures var u, v := TickN(t, a), TickN(t, d);
            v.state == u.state
            && v.misses == (if u.state == Ready then Bumped(u.misses, 1) else u.misses)
            && v.overruns == (if u.state == Running then Bumped(u.overruns, 1) else u.overruns)
  {
    forall k | a <= k < a + (c - 1)
      ensures TickN(t, k).count >= 2
    {
      CountdownFrom(t, a, k - a);
    }
    CountdownFrom(t, a, c - 1);
    DeadlineStep(t, a, c - 1, d);
  }

  /** On each deadline tick the countdown restarts at the period. */
  lemma {:induction false} CountdownAtDeadline(t: Task, n: nat)
    requires t.period >= 1
    ensures TickN(t, NthDeadline(t, n)).count == t.period
  {
    if n > 0 {
      CountdownCycle(t, n - 1, t.period - 1);
      NthDeadlineNext(t, n - 1);
    } else if t.count >= 2 {
      CountdownBeforeFirst(t, t.count - 1);
    }
  }

  /** Each later deadline is one period of quiet ticks after the previous
      one. */
  lemma {:induction false} NextDeadlineStep(t: Task, n: nat)
    requires t.period >= 1
    requires TickN(t, NthDeadline(t, n)).state != Idle
    ensures var u, v := TickN(t, NthDeadline(t, n)), TickN(t, NthDeadline(t, n + 1));
            v.state == u.state
            && v.misses == (if u.state == Ready then Bumped(u.misses, 1) else u.misses)
            && v.overruns == (if u.state == Running then Bumped(u.overruns, 1) else u.overruns)
  {
    var a := NthDeadline(t, n);
    NthDeadlineNext(t, n);
    CountdownAtDeadline(t, n);
    GapStep(t, a, t.period, NthDeadline(t, n + 1));
  }

  /** Whatever the period: a task that stays Ready (no dispatch) has, right
      after its n-th deadline counted from zero, counted n + 1 saturating
      misses; one that stays Running (its callback never returns) has
      counted n + 1 saturating overruns; the other counter is untouched. */
  lemma {:induction false} CountersAtDeadline(t: Task, n: nat)
    requires t.period >= 1 && t.state != Idle
    ensures var u := TickN(t, NthDeadline(t, n));
            u.state == t.state
            && u.misses == (if t.state == Ready then Bumped(t.misses, n + 1) else t.misses)
            && u.overruns == (if t.state == Running then Bumped(t.overruns, n + 1) else t.overruns)
    decreases n
  {
    if n == 0 {
      FirstDeadlineStep(t);
    } else {
      CountersAtDeadline(t, n - 1);
      NextDeadlineStep(t, n - 1);
    }
  }

  /** Whatever the period, 256 consecutive miss (or overrun) events leave
      the counter at 255 from any starting value: it never wraps to zero. */
  lemma CountersNeverWrap(t: Task, n: nat)
    requires t.period >= 1 && n >= 255
    ensures t.state == Ready ==> TickN(t, NthDeadline(t, n)).misses == COUNTER_MAX
    ensures t.state == Running ==> TickN(t, NthDeadline(t, n)).overruns == COUNTER_MAX
  {
    if t.state != Idle {
      CountersAtDeadline(t, n);
    }
  }

  // ---------------------------------------------------------------------------
  // Dispatch passes
  // ---------------------------------------------------------------------------

  /** One callback invocation: which slot ran, its function, the table as it
      stands while the callback executes, the running priority it had to
      beat and the running priority during the callback. */
  datatype Call = Call(index: nat, fcn: TaskFn, view: seq<Task>, before: int, during: int)

  /** Result of a dispatch pass: the table and running priority afterwards
      and the callbacks invoked, in order. */
  datatype Pass = Pass(tasks: seq<Task>, running: int, calls: seq<Call>)

  /** May the preemptive pass start `t` while `running` is the running
      priority? */
  predicate Dispatchable(t: Task, running: int)
  {
    t.state == Ready && t.priority > running
  }

  /** First slot at or after `i` that the pass may start under `running`. */
  function FirstDispatchable(ts: seq<Task>, i: nat, running: int): (f: nat)
    requires i <= |ts|
    ensures i <= f <= |ts|
    ensures forall j :: i <= j < f ==> !Dispatchable(ts[j], running)
    ensures f < |ts| ==> Dispatchable(ts[f], running)
    decreases |ts| - i
  {
    if i == |ts| then |ts|
    else if Dispatchable(ts[i], running) then i
    else FirstDispatchable(ts, i + 1, running)
  }

  /** Which slots a preemptive pass from `i` with entry running priority
      `running` starts: the first slot that beats `running`, and after it,
      because the running priority is then reset to the sentinel rather than
      restored, every Ready slot above the sentinel. */
  ghost predicate PreemptedAt(ts: seq<Task>, i: nat, running: int, m: int)
    requires i <= |ts|
  {
    var f := FirstDispatchable(ts, i, running);
    f <= m < |ts| && (m == f || Dispatchable(ts[m], MIN_PRIORITY))
  }

  ghost predicate Called(calls: seq<Call>, m: int)
  {
    exists a :: 0 <= a < |calls| && calls[a].index == m
  }

  lemma CalledCons(c: Call, calls: seq<Call>)
    ensures forall m :: Called([c] + calls, m) <==> m == c.index || Called(calls, m)
  {
    forall m | Called(calls, m)
      ensures Called([c] + calls, m)
    {
      var a :| 0 <= a < |calls| && calls[a].index == m;
      assert ([c] + calls)[a + 1].index == m;
    }
    assert ([c] + calls)[0].index == c.index;
  }

  ghost predicate Increasing(calls: seq<Call>)
  {
    forall a, b :: 0 <= a < b < |calls| ==> calls[a].index < calls[b].index
  }

  /** What one callback record promises about the table `ts` the pass ran
      over: the slot was startable under the running priority it had to
      beat, it is Running while its callback executes, and the running
      priority during the callback is its own. */
  ghost predicate WellFormedCall(ts: seq<Task>, c: Call)
  {
    0 <= c.index < |ts| && c.index < |c.view| && c.fcn == ts[c.index].fcn
    && Dispatchable(ts[c.index], c.before)
    && c.view[c.index] == ts[c.index].(state := Running)
    && c.during == ts[c.index].priority
  }

  /** The preemptive dispatch pass from slot `i` on. A started task becomes
      Running, the running priority becomes its priority, its callback runs,
      then the running priority is set to the sentinel and the task to Idle.
      The callback is opaque and leaves the scheduler's state alone. */
  function PreemptFrom(ts: seq<Task>, i: nat, running: int): (r: Pass)
    requires i <= |ts|
    ensures |r.tasks| == |ts|
    ensures r.calls == [] ==> r.running == running && r.tasks == ts
    ensures r.calls != [] ==> r.running == MIN_PRIORITY
    ensures Increasing(r.calls)
    ensures forall a :: 0 <= a < |r.calls| ==> i <= r.calls[a].index && WellFormedCall(ts, r.calls[a])
    decreases |ts| - i
  {
    if i == |ts| then Pass(ts, running, [])
    else if Dispatchable(ts[i], running) then
      var view := ts[i := ts[i].(state := Running)];
      var call := Call(i, ts[i].fcn, view, running, ts[i].priority);
      var rest := PreemptFrom(ts[i := ts[i].(state := Idle)], i + 1, MIN_PRIORITY);
      Pass(rest.tasks, rest.running, [call] + rest.calls)
    else
      PreemptFrom(ts, i + 1, running)
  }

  /** The table a preemptive pass leaves behind, and the callbacks it makes,
      stated against `PreemptedAt`. */
  lemma {:induction false} PreemptFromEffect(ts: seq<Task>, i: nat, running: int)
    requires i <= |ts|
    ensures var r := PreemptFrom(ts, i, running);
            (forall m :: 0 <= m < |ts| ==>
               r.tasks[m] == if PreemptedAt(ts, i, running, m) then ts[m].(state := Idle) else ts[m])
            && (forall m :: Called(r.calls, m) <==> PreemptedAt(ts, i, running, m))
    decreases |ts| - i
  {
    var r := PreemptFrom(ts, i, running);
    if i == |ts| {
    } else if Dispatchable(ts[i], running) {
      var ts' := ts[i := ts[i].(state := Idle)];
      var rest := PreemptFrom(ts', i + 1, MIN_PRIORITY);
      PreemptFromEffect(ts', i + 1, MIN_PRIORITY);
      CalledCons(r.calls[0], rest.calls);
      assert r.calls == [r.calls[0]] + rest.calls;
      var f' := FirstDispatchable(ts', i + 1, MIN_PRIORITY);
      forall m | 0 <= m < |ts|
        ensures PreemptedAt(ts, i, running, m) <==> m == i || PreemptedAt(ts', i + 1, MIN_PRIORITY, m)
      {
        if i < m && Dispatchable(ts[m], MIN_PRIORITY) {
          assert ts'[m] == ts[m];
          assert f' <= m;
        }
      }
    } else {
      PreemptFromEffect(ts, i + 1, running);
    }
  }

  /** What one callback record of the cooperative pass from slot `i` on
      promises about the table `ts` it ran over: the slot was at or after
      `i`, it is Running while its callback executes, and the running
      priority is the untouched entry value. */
  ghost predicate CooperativeCall(ts: seq<Task>, i: nat, running: int, c: Call)
  {
    i <= c.index < |ts| && c.index < |c.view| && c.fcn == ts[c.index].fcn
    && c.view[c.index] == ts[c.index].(state := Running)
    && c.before == running && c.during == running
  }

  /** Prepending the call for slot `i` to the calls of the pass from
      `i + 1` (run over the table with slot `i` already Idle) keeps the
      calls increasing and well formed. */
  lemma CooperativeCallsCons(ts: seq<Task>, i: nat, running: int, call: Call, rest: seq<Call>)
    requires i < |ts|
    requires CooperativeCall(ts, i, running, call) && call.index == i
    requires Increasing(rest)
    requires forall a :: 0 <= a < |rest| ==>
      CooperativeCall(ts[i := ts[i].(state := Idle)], i + 1, running, rest[a])
    ensures Increasing([call] + rest)
    ensures forall a :: 0 <= a < |[call] + rest| ==> CooperativeCall(ts, i, running, ([call] + rest)[a])
  {
    var calls := [call] + rest;
    forall a | 0 <= a < |calls|
      ensures CooperativeCall(ts, i, running, calls[a])
    {
      if a > 0 {
        assert calls[a] == rest[a - 1];
      }
    }
    forall a, b | 0 <= a < b < |calls|
      ensures calls[a].index < calls[b].index
    {
      assert calls[b] == rest[b - 1];
      if a > 0 {
        assert calls[a] == rest[a - 1];
      }
    }
  }

  /** The cooperative pass of `loop` from slot `i` on: every Ready task, in
      table order, becomes Running, its callback runs, and it becomes Idle.
      No priority is compared and the running priority is untouched. */
  function CooperativeFrom(ts: seq<Task>, i: nat, running: int): (r: Pass)
    requires i <= |ts|
    ensures |r.tasks| == |ts| && r.running == running
    ensures forall m :: 0 <= m < |ts| ==>
      r.tasks[m] == if i <= m && ts[m].state == Ready then ts[m].(state := Idle) else ts[m]
    ensures Increasing(r.calls)
    ensures forall m :: Called(r.calls, m) <==> i <= m < |ts| && ts[m].state == Ready
    ensures forall a :: 0 <= a < |r.calls| ==> CooperativeCall(ts, i, running, r.calls[a])
    decreases |ts| - i
  {
    if i == |ts| then Pass(ts, running, [])
    else if ts[i].state == Ready then
      var ts' := ts[i := ts[i].(state := Idle)];
      var call := Call(i, ts[i].fcn, ts[i := ts[i].(state := Running)], running, running);
      var rest := CooperativeFrom(ts', i + 1, running);
      CalledCons(call, rest.calls);
      CooperativeCallsCons(ts, i, running, call, rest.calls);
      Pass(rest.tasks, rest.running, [call] + rest.calls)
    else
      CooperativeFrom(ts, i + 1, running)
  }

  /** What one callback record of the restoring pass from slot `i` on
      promises: the slot was at or after `i` and beat the entry running
      priority, it is Running while its callback executes, and the running
      priority during the callback is its own. */
  ghost predicate RestoringCall(ts: seq<Task>, i: nat, running: int, c: Call)
  {
    i <= c.index < |ts| && c.before == running && WellFormedCall(ts, c)
  }

  /** Prepending the call for slot `i` to the calls of the restoring pass
      from `i + 1` (run over the table with slot `i` already Idle) keeps the
      calls increasing and well formed. */
  lemma RestoringCallsCons(ts: seq<Task>, i: nat, running: int, call: Call, rest: seq<Call>)
    requires i < |ts|
    requires RestoringCall(ts, i, running, call) && call.index == i
    requires Increasing(rest)
    requires forall a :: 0 <= a < |rest| ==>
      RestoringCall(ts[i := ts[i].(state := Idle)], i + 1, running, rest[a])
    ensures Increasing([call] + rest)
    ensures forall a :: 0 <= a < |[call] + rest| ==> RestoringCall(ts, i, running, ([call] + rest)[a])
  {
    var calls := [call] + rest;
    forall a | 0 <= a < |calls|
      ensures RestoringCall(ts, i, running, calls[a])
    {
      if a > 0 {
        assert calls[a] == rest[a - 1];
      }
    }
    forall a, b | 0 <= a < b < |calls|
      ensures calls[a].index < calls[b].index
    {
      assert calls[b] == rest[b - 1];
      if a > 0 {
        assert calls[a] == rest[a - 1];
      }
    }
  }

  /** The preemptive pass as its own comment describes it: after each
      callback the running priority goes back to the value it had on entry
      instead of the sentinel, so a pass started while a callback of some
      priority runs only ever starts tasks that beat that priority. */
  function PreemptRestoring(ts: seq<Task>, i: nat, running: int): (r: Pass)
    requires i <= |ts|
    ensures |r.tasks| == |ts| && r.running == running
    ensures forall m :: 0 <= m < |ts| ==>
      r.tasks[m] == if i <= m && Dispatchable(ts[m], running) then ts[m].(state := Idle) else ts[m]
    ensures Increasing(r.calls)
    ensures forall m :: Called(r.calls, m) <==> i <= m < |ts| && Dispatchable(ts[m], running)
    ensures forall a :: 0 <= a < |r.calls| ==> RestoringCall(ts, i, running, r.calls[a])
    decreases |ts| - i
  {
    if i == |ts| then Pass(ts, running, [])
    else if Dispatchable(ts[i], running) then
      var ts' := ts[i := ts[i].(state := Idle)];
      var call := Call(i, ts[i].fcn, ts[i := ts[i].(state := Running)], running, ts[i].priority);
      var rest := PreemptRestoring(ts', i + 1, running);
      CalledCons(call, rest.calls);
      RestoringCallsCons(ts, i, running, call, rest.calls);
      Pass(rest.tasks, rest.running, [call] + rest.calls)
    else
      PreemptRestoring(ts, i + 1, running)
  }

  /** A whole tick: bookkeeping, then the preemptive pass when enabled. */
  function TimerTick(ts: Table, running: int, mode: Mode): (r: Pass)
    ensures |r.tasks| == |ts|
    ensures mode == NonPreemptive ==> r.tasks == TickAll(ts) && r.running == running && r.calls == []
    ensures mode == Preemptive ==> r == PreemptFrom(TickAll(ts), 0, running)
  {
    var ticked := TickAll(ts);
    if mode == Preemptive then PreemptFrom(ticked, 0, running)
    else Pass(ticked, running, [])
  }

  // ---------------------------------------------------------------------------
  // Properties of the passes
  // ---------------------------------------------------------------------------

  /** A pass entered with the sentinel running priority (no callback in
      progress) over tasks whose priorities exceed the sentinel turns every
      Ready task Idle, calls them all in table order, touches nothing else and
      leaves the sentinel in place. */
  lemma TopLevelPassRunsAllReady(ts: seq<Task>)
    requires forall m :: 0 <= m < |ts| ==> ts[m].priority > MIN_PRIORITY
    ensures var r := PreemptFrom(ts, 0, MIN_PRIORITY);
            r.running == MIN_PRIORITY
            && (forall m :: 0 <= m < |ts| ==>
                  r.tasks[m] == if ts[m].state == Ready then ts[m].(state := Idle) else ts[m])
            && (forall m :: Called(r.calls, m) <==> 0 <= m < |ts| && ts[m].state == Ready)
  {
    PreemptFromEffect(ts, 0, MIN_PRIORITY);
    assert forall m :: 0 <= m < |ts| ==>
      (PreemptedAt(ts, 0, MIN_PRIORITY, m) <==> ts[m].state == Ready);
  }

  /** The running priority is reset, not restored: a pass entered while a
      callback of priority p runs (p above the sentinel) that starts anything
      leaves the sentinel behind, not p. */
  lemma NestedPassResetsRunning(ts: seq<Task>, p: int)
    requires p > MIN_PRIORITY
    requires exists m :: 0 <= m < |ts| && Dispatchable(ts[m], p)
    ensures PreemptFrom(ts, 0, p).running == MIN_PRIORITY != p
  {
    var m :| 0 <= m < |ts| && Dispatchable(ts[m], p);
    var f := FirstDispatchable(ts, 0, p);
    assert f <= m;
    PreemptFromEffect(ts, 0, p);
    assert Called(PreemptFrom(ts, 0, p).calls, f);
  }

  /** Consequence of the reset: once a nested pass (entry priority p) has
      started a higher task, it also starts any later Ready task whose
      priority is at most p, although that task cannot beat p. */
  lemma NestedPassStartsLowerAfterHigher(ts: seq<Task>, p: int, a: nat, b: nat)
    requires a < b < |ts|
    requires Dispatchable(ts[a], p)
    requires ts[b].state == Ready && MIN_PRIORITY < ts[b].priority <= p
    ensures PreemptFrom(ts, 0, p).tasks[b].state == Idle
    ensures Called(PreemptFrom(ts, 0, p).calls, b)
  {
    var f := FirstDispatchable(ts, 0, p);
    assert f <= a;
    PreemptFromEffect(ts, 0, p);
  }

  /** The corrected pass on the input where the as-written one goes wrong:
      the later Ready task of priority at most p stays Ready and is never
      called, while the task that beats p is still started. */
  lemma RestoringPassWaitsForLower(ts: seq<Task>, p: int, a: nat, b: nat)
    requires a < b < |ts|
    requires Dispatchable(ts[a], p)
    requires ts[b].state == Ready && MIN_PRIORITY < ts[b].priority <= p
    ensures PreemptRestoring(ts, 0, p).tasks[b].state == Ready
    ensures !Called(PreemptRestoring(ts, 0, p).calls, b)
    ensures Called(PreemptRestoring(ts, 0, p).calls, a)
    ensures PreemptRestoring(ts, 0, p).running == p
  {
  }

  /** A nested pass never restarts the task whose callback is in progress,
      and starts nothing at or below the running priority before it has
      started something above it. */
  lemma NestedPassRespectsRunningTask(c: Call, m: nat)
    requires c.index < |c.view|
    requires c.view[c.index].state == Running && c.during == c.view[c.index].priority
    requires m < |c.view| && PreemptedAt(c.view, 0, c.during, m)
    ensures m != c.index
    ensures m == FirstDispatchable(c.view, 0, c.during) ==> c.view[m].priority > c.during
  {
  }

  /** The cooperative pass runs every Ready task and leaves every other task
      as it was. */
  lemma CooperativeRunsAllReady(ts: seq<Task>, running: int)
    ensures var r := CooperativeFrom(ts, 0, running);
            (forall m :: 0 <= m < |ts| ==> r.tasks[m].state != Ready)
            && (forall m :: 0 <= m < |ts| && ts[m].state != Ready ==> r.tasks[m] == ts[m])
  {
  }
}
