/** The create calls (kernel/kernel.c): fresh control blocks, one for each argument. */
module Creation {
  import opened Types
  import opened Spec
  import opened Blocks
  import opened Startup

  ghost predicate TasksMade(u: Setup, ts: array<Task>)
    requires Accepted(u)
    reads ts
  {
    ts.Length == u.cfg.maxTasks && forall t :: 0 <= t <= |u.priorities| ==> ts[t] == NewTask(BaseOf(u, t))
  }

  ghost predicate ListsMade(u: Setup, ls: seq<Waitlist>)
    reads ls, set l | l in ls :: l.slots
  {
    && |ls| == |u.sems| + u.mutexes + 2 * |u.queues|
    && (forall l :: 0 <= l < |ls| ==> ls[l].slots.Length == u.cfg.maxTasks && ls[l].Valid() && ls[l].Contents() == [])
    && (forall l :: 0 <= l < |ls| ==> NewList(u, l) == List(ls[l].policy, ls[l].home, []))
    && (forall k, l :: 0 <= k < l < |ls| ==> ls[k] != ls[l] && ls[k].slots != ls[l].slots)
  }

  ghost predicate MutexesMade(u: Setup, ms: seq<MutexBlock>)
    reads ms
  {
    && |ms| == u.mutexes
    && (forall m :: 0 <= m < |ms| ==> ms[m].owner == NULL && !ms[m].locked && ms[m].wl == |u.sems| + m)
    && (forall k, m :: 0 <= k < m < |ms| ==> ms[k] != ms[m])
  }

  ghost predicate SemsMade(u: Setup, ss: seq<Semaphore>)
    reads ss
  {
    && |ss| == |u.sems|
    && (forall i :: 0 <= i < |ss| ==> ss[i].count == u.sems[i].count && ss[i].wl == i)
    && (forall k, i :: 0 <= k < i < |ss| ==> ss[k] != ss[i])
  }

  /** What os_queue_create makes of its arguments. */
  ghost predicate Created(x: RingQueue, y: Queue)
    reads x
  {
    && x.Valid() && x.count == 0
    && x.maxItems == y.maxItems && x.itemSize == y.itemSize && x.dropped == y.dropped
    && x.swl == y.swl && x.rwl == y.rwl
  }

  ghost predicate QueuesMade(u: Setup, qs: seq<RingQueue>)
    reads qs
  {
    && |qs| == |u.queues|
    && (forall q :: 0 <= q < |qs| ==> Created(qs[q], NewQueue(u, q)))
    && (forall k, q :: 0 <= k < q < |qs| ==> qs[k] != qs[q] && qs[k].buffer != qs[q].buffer)
  }

  /** init_idle_task and os_task_create. */
  method MakeTasks(u: Setup) returns (ts: array<Task>)
    requires Accepted(u)
    ensures TasksMade(u, ts) && fresh(ts)
  {
    ts := new Task[u.cfg.maxTasks](t requires 0 <= t => NewTask(if t <= |u.priorities| then BaseOf(u, t) else 0));
  }

  /** waitlist_init for every wait list. */
  method MakeLists(u: Setup) returns (ls: seq<Waitlist>)
    requires Accepted(u)
    ensures ListsMade(u, ls) && forall k :: 0 <= k < |ls| ==> fresh(ls[k]) && fresh(ls[k].slots)
  {
    ls := [];
    for i := 0 to |u.sems| + u.mutexes + 2 * |u.queues|
      invariant |ls| == i && forall k :: 0 <= k < |ls| ==> fresh(ls[k]) && fresh(ls[k].slots)
      invariant forall l :: 0 <= l < i ==>
        ls[l].slots.Length == u.cfg.maxTasks && ls[l].Valid() && ls[l].Contents() == []
      invariant forall l :: 0 <= l < i ==> NewList(u, l) == List(ls[l].policy, ls[l].home, [])
      invariant forall k, l :: 0 <= k < l < i ==> ls[k] != ls[l] && ls[k].slots != ls[l].slots
    {
      var x := NewList(u, i);
      var l := new Waitlist(x.policy, x.home, u.cfg.maxTasks);
      ls := ls + [l];
    }
  }

  /** os_mutex_create. */
  method MakeMutexes(u: Setup) returns (ms: seq<MutexBlock>)
    ensures MutexesMade(u, ms) && forall k :: 0 <= k < |ms| ==> fresh(ms[k])
  {
    ms := [];
    for i := 0 to u.mutexes
      invariant |ms| == i && forall k :: 0 <= k < |ms| ==> fresh(ms[k])
      invariant forall m :: 0 <= m < i ==> ms[m].owner == NULL && !ms[m].locked && ms[m].wl == |u.sems| + m
      invariant forall k, m :: 0 <= k < m < i ==> ms[k] != ms[m]
    {
      var m := new MutexBlock(|u.sems| + i);
      ms := ms + [m];
    }
  }

  /** os_sem_create. */
  method MakeSems(u: Setup) returns (ss: seq<Semaphore>)
    ensures SemsMade(u, ss) && forall k :: 0 <= k < |ss| ==> fresh(ss[k])
  {
    ss := [];
    for j := 0 to |u.sems|
      invariant |ss| == j && forall k :: 0 <= k < |ss| ==> fresh(ss[k])
      invariant forall i :: 0 <= i < j ==> ss[i].count == u.sems[i].count && ss[i].wl == i
      invariant forall k, i :: 0 <= k < i < j ==> ss[k] != ss[i]
    {
      var x := new Semaphore(j, u.sems[j].count);
      ss := ss + [x];
    }
  }

  /** os_queue_create, each over a buffer of its own. */
  method MakeQueues(u: Setup) returns (qs: seq<RingQueue>)
    requires Accepted(u)
    ensures QueuesMade(u, qs) && forall k :: 0 <= k < |qs| ==> fresh(qs[k]) && fresh(qs[k].buffer)
  {
    qs := [];
    for i := 0 to |u.queues|
      invariant |qs| == i && forall k :: 0 <= k < |qs| ==> fresh(qs[k]) && fresh(qs[k].buffer)
      invariant forall q :: 0 <= q < i ==> Created(qs[q], NewQueue(u, q))
      invariant forall k, q :: 0 <= k < q < i ==> qs[k] != qs[q] && qs[k].buffer != qs[q].buffer
    {
      var x := NewQueue(u, i);
      var size := x.maxItems * x.itemSize;
      assert 0 <= size;
      var b := new Byte[size];
      var q := new RingQueue(b, x.itemSize, x.maxItems, x.swl, x.rwl);
      qs := qs + [q];
    }
  }
}
