/** The priority-ordered task table and the insertion step of `schedule`,
    identical in Sked and Tasker: an insertion-index search followed by a
    shift-down and a store. */
module TaskTable {
  import opened Types

  /** Priorities never increase along the table. */
  predicate PrioritySorted(ts: seq<Task>)
  {
    forall a, b :: 0 <= a < b < |ts| ==> ts[a].priority >= ts[b].priority
  }

  /** What the insertion-index search delivers for a new task of priority
      `p`: the first slot holding a lower priority if there is one; otherwise
      the LAST slot holding priority `p` if there is one; otherwise the end of
      the table. The new task's period plays no part. */
  predicate IsInsertionIndex(ts: seq<Task>, p: int, k: int)
  {
    0 <= k <= |ts|
    && (forall j :: 0 <= j < k ==> ts[j].priority >= p)
    && (k < |ts| ==> ts[k].priority <= p)
    && (k < |ts| && ts[k].priority == p ==> forall j :: k < j < |ts| ==> ts[j].priority > p)
    && (k == |ts| ==> forall j :: 0 <= j < |ts| ==> ts[j].priority != p)
  }

  lemma InsertionIndexUnique(ts: seq<Task>, p: int, k1: int, k2: int)
    requires IsInsertionIndex(ts, p, k1) && IsInsertionIndex(ts, p, k2)
    ensures k1 == k2
  {
  }

  /** First index at or after `i` whose priority is below `p`, or |ts|. */
  function FirstLower(ts: seq<Task>, p: int, i: nat): (k: nat)
    requires i <= |ts|
    ensures i <= k <= |ts|
    ensures forall j :: i <= j < k ==> ts[j].priority >= p
    ensures k < |ts| ==> ts[k].priority < p
    decreases |ts| - i
  {
    if i == |ts| then |ts|
    else if ts[i].priority < p then i
    else FirstLower(ts, p, i + 1)
  }

  /** Last index below `n` whose priority equals `p`, or -1. */
  function LastEqual(ts: seq<Task>, p: int, n: nat): (k: int)
    requires n <= |ts|
    ensures -1 <= k < n
    ensures forall j :: k < j < n ==> ts[j].priority != p
    ensures k >= 0 ==> ts[k].priority == p
  {
    if n == 0 then -1
    else if ts[n - 1].priority == p then n - 1
    else LastEqual(ts, p, n - 1)
  }

  /** The insertion index as a closed formula, independent of the loops that
      compute it in the source. */
  function InsertionIndex(ts: seq<Task>, p: int): (k: nat)
    ensures IsInsertionIndex(ts, p, k)
  {
    var lower := FirstLower(ts, p, 0);
    if lower < |ts| then lower
    else
      var last := LastEqual(ts, p, |ts|);
      if last >= 0 then last else |ts|
  }

  /** The table after the shift-down and store at slot `k`. */
  function InsertAt(ts: seq<Task>, k: nat, t: Task): seq<Task>
    requires k <= |ts|
  {
    ts[..k] + [t] + ts[k..]
  }

  /** The insertion adds exactly the new task to the table's contents. */
  lemma InsertAtMultiset(ts: seq<Task>, k: nat, t: Task)
    requires k <= |ts|
    ensures |InsertAt(ts, k, t)| == |ts| + 1
    ensures multiset(InsertAt(ts, k, t)) == multiset(ts) + multiset{t}
  {
    assert ts == ts[..k] + ts[k..];
  }

  /** The search loop of `schedule`, statement for statement: the outer loop
      never stops on an equal priority, and the inner loop's period
      comparison is always overwritten by the next outer iteration or by a
      lower-priority slot. */
  method FindInsertionIndex(ts: Table, priority: i8, period: u16) returns (index: nat)
    ensures IsInsertionIndex(ts, priority, index)
    ensures index == InsertionIndex(ts, priority)
  {
    var count := |ts|;
    index := count;
    var i := 0;
    while i < count
      invariant 0 <= i <= count
      invariant index <= count
      invariant forall m :: 0 <= m < i ==> ts[m].priority >= priority
      invariant index == count ==> forall m :: 0 <= m < i ==> ts[m].priority != priority
      invariant index < count ==> ts[index].priority == priority
      invariant index < count ==> forall m :: index < m < i ==> ts[m].priority != priority
      invariant index < count ==> forall m :: i <= m <= index ==> ts[m].priority == priority
    {
      if ts[i].priority < priority {
        index := i;
        break;
      } else if ts[i].priority == priority {
        index := i;
        var j := i;
        while j < count && ts[j].priority == priority
          invariant i <= j <= count
          invariant index == i
          invariant forall m :: i <= m < j ==> ts[m].priority == priority
        {
          if period < ts[j].period {
            index := j;
            break;
          }
          j := j + 1;
        }
      }
      i := i + 1;
    }
    InsertionIndexUnique(ts, priority, index, InsertionIndex(ts, priority));
  }

  /** A sequence that agrees with `ts` before `k`, holds `t` at `k` and
      agrees with `ts` shifted by one after `k` is the insertion. */
  lemma PointwiseInsertAt(ts: seq<Task>, k: nat, t: Task, r: seq<Task>)
    requires k <= |ts| && |r| == |ts| + 1
    requires forall m :: 0 <= m < k ==> r[m] == ts[m]
    requires r[k] == t
    requires forall m :: k < m < |r| ==> r[m] == ts[m - 1]
    ensures r == InsertAt(ts, k, t)
    ensures multiset(r) == multiset(ts) + multiset{t}
  {
    var ins := InsertAt(ts, k, t);
    assert |ins| == |r|;
    forall m | 0 <= m < |r|
      ensures r[m] == ins[m]
    {
      if m < k {
        assert ins[m] == ts[m];
      } else if m > k {
        assert ins[m] == ts[m - 1];
      }
    }
    assert ts == ts[..k] + ts[k..];
  }

  /** The shift-down and store, on a 16-slot array as in the source:
      slots count-1 down to `index` move up by one, then the new task is
      written at `index`. */
  method ShiftAndStore(ts: Table, index: nat, t: Task) returns (r: seq<Task>)
    requires |ts| < MAX_TASKS
    requires index <= |ts|
    ensures r == InsertAt(ts, index, t)
    ensures multiset(r) == multiset(ts) + multiset{t}
  {
    var count := |ts|;
    var slots := new Task[MAX_TASKS](m => if 0 <= m < |ts| then ts[m] else t);
    if count > 0 {
      var i: int := count - 1;
      while i >= index
        invariant index - 1 <= i <= count - 1
        invariant forall m :: 0 <= m <= i ==> slots[m] == ts[m]
        invariant forall m :: i + 1 < m <= count ==> slots[m] == ts[m - 1]
      {
        slots[i + 1] := slots[i];
        i := i - 1;
      }
    }
    slots[index] := t;
    r := slots[..count + 1];
    PointwiseInsertAt(ts, index, t, r);
  }

  /** The whole insertion step: search, shift, store. */
  method Insert(ts: Table, t: Task) returns (r: seq<Task>)
    requires |ts| < MAX_TASKS
    ensures r == InsertAt(ts, InsertionIndex(ts, t.priority), t)
  {
    var index := FindInsertionIndex(ts, t.priority, t.period);
    r := ShiftAndStore(ts, index, t);
  }

  /** Storing a task between a prefix of priorities no lower than its own
      and a suffix of priorities no higher keeps a sorted table sorted. */
  lemma InsertAtKeepsPriorityOrder(ts: seq<Task>, k: nat, t: Task)
    requires k <= |ts|
    requires PrioritySorted(ts)
    requires forall j :: 0 <= j < k ==> ts[j].priority >= t.priority
    requires forall j :: k <= j < |ts| ==> ts[j].priority <= t.priority
    ensures PrioritySorted(InsertAt(ts, k, t))
  {
    var r := InsertAt(ts, k, t);
    forall a, b | 0 <= a < b < |r|
      ensures r[a].priority >= r[b].priority
    {
      var pa := if a < k then ts[a].priority else if a == k then t.priority else ts[a - 1].priority;
      var pb := if b < k then ts[b].priority else if b == k then t.priority else ts[b - 1].priority;
      assert r[a].priority == pa && r[b].priority == pb;
      if a < k && b > k {
        assert ts[a].priority >= ts[b - 1].priority;
      }
    }
  }

  /** Inserting at the computed index keeps the table in priority order, and
      the result is the old table plus the new task. */
  lemma InsertKeepsPriorityOrder(ts: seq<Task>, t: Task)
    requires PrioritySorted(ts)
    ensures PrioritySorted(InsertAt(ts, InsertionIndex(ts, t.priority), t))
    ensures multiset(InsertAt(ts, InsertionIndex(ts, t.priority), t)) == multiset(ts) + multiset{t}
  {
    var k := InsertionIndex(ts, t.priority);
    // every slot from k on holds a priority no higher than the new one
    forall j | k <= j < |ts|
      ensures ts[j].priority <= t.priority
    {
      if j > k { assert ts[k].priority >= ts[j].priority; }
    }
    InsertAtKeepsPriorityOrder(ts, k, t);
    assert ts == ts[..k] + ts[k..];
  }

  // ---------------------------------------------------------------------------
  // The tie-break the source's comment describes, and why the code misses it
  // ---------------------------------------------------------------------------

  /** `x` may precede `y` under the intended key: priority descending, then
      period ascending among equal priorities. */
  predicate KeyBefore(x: Task, y: Task)
  {
    x.priority > y.priority || (x.priority == y.priority && x.period <= y.period)
  }

  lemma KeyBeforeTransitive(x: Task, y: Task, z: Task)
    requires KeyBefore(x, y) && KeyBefore(y, z)
    ensures KeyBefore(x, z)
  {
  }

  predicate KeySorted(ts: seq<Task>)
  {
    forall a, b :: 0 <= a < b < |ts| ==> KeyBefore(ts[a], ts[b])
  }

  /** First slot that should come after the new task under the intended
      key: a lower priority, or the same priority with a longer period. */
  function IntendedIndex(ts: seq<Task>, p: int, period: int, i: nat): (k: nat)
    requires i <= |ts|
    ensures i <= k <= |ts|
    ensures forall j :: i <= j < k ==>
      ts[j].priority > p || (ts[j].priority == p && ts[j].period <= period)
    ensures k < |ts| ==>
      ts[k].priority < p || (ts[k].priority == p && period < ts[k].period)
    decreases |ts| - i
  {
    if i == |ts| then |ts|
    else if ts[i].priority < p || (ts[i].priority == p && period < ts[i].period) then i
    else IntendedIndex(ts, p, period, i + 1)
  }

  /** Storing a task between a prefix that may precede it and a suffix it
      may precede keeps a key-sorted table key-sorted. */
  lemma InsertAtKeepsKeyOrder(ts: seq<Task>, k: nat, t: Task)
    requires k <= |ts|
    requires KeySorted(ts)
    requires forall j :: 0 <= j < k ==> KeyBefore(ts[j], t)
    requires forall j :: k <= j < |ts| ==> KeyBefore(t, ts[j])
    ensures KeySorted(InsertAt(ts, k, t))
  {
    var r := InsertAt(ts, k, t);
    forall a, b | 0 <= a < b < |r|
      ensures KeyBefore(r[a], r[b])
    {
      var x := if a < k then ts[a] else if a == k then t else ts[a - 1];
      var y := if b < k then ts[b] else if b == k then t else ts[b - 1];
      assert r[a] == x && r[b] == y;
    }
  }

  /** The corrected search keeps the full (priority, period) order. */
  lemma IntendedInsertKeepsKeyOrder(ts: seq<Task>, t: Task)
    requires KeySorted(ts)
    ensures KeySorted(InsertAt(ts, IntendedIndex(ts, t.priority, t.period, 0), t))
  {
    var k := IntendedIndex(ts, t.priority, t.period, 0);
    forall j | k <= j < |ts|
      ensures KeyBefore(t, ts[j])
    {
      if j > k {
        assert KeyBefore(ts[k], ts[j]);
        KeyBeforeTransitive(t, ts[k], ts[j]);
      }
    }
    InsertAtKeepsKeyOrder(ts, k, t);
  }

  /** The search as written: a table holding one priority-0 task of period
      10 ticks receives a priority-0 task of period 20 ticks at index 0, in
      front of the shorter period, although the table was in key order. */
  lemma TieBreakNotHonoured()
    ensures var old0 := Task(Fn(0), 0, 10, 0, 0, 0, 0, Idle);
            var new0 := Task(Fn(1), 0, 20, 0, 0, 0, 0, Idle);
            KeySorted([old0])
            && InsertionIndex([old0], 0) == 0
            && InsertAt([old0], InsertionIndex([old0], 0), new0) == [new0, old0]
            && !KeySorted([new0, old0])
  {
    var old0 := Task(Fn(0), 0, 10, 0, 0, 0, 0, Idle);
    var new0 := Task(Fn(1), 0, 20, 0, 0, 0, 0, Idle);
    InsertionIndexUnique([old0], 0, InsertionIndex([old0], 0), 0);
    assert [old0][..0] + [new0] + [old0][0..] == [new0, old0];
    assert !KeyBefore([new0, old0][0], [new0, old0][1]);
  }
}
