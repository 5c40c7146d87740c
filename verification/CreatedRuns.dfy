/** What the arguments of the create calls mean, at power-up and in every state reached later. */
module CreatedRuns {
  import opened Types
  import opened Spec
  import opened Invariants
  import opened Runs
  import opened Effects
  import opened Traces
  import opened OrderRuns
  import opened Startup
  import opened Answers

  function ReadyTask(priority: int): Task {
    Task(Ready, priority, priority, 0, NoReason, NULL, [], false)
  }

  /** The list at index `l` belongs to `home` and is served by `policy`. */
  predicate Serves(s: State, l: int, home: Home, policy: Policy) {
    0 <= l < |s.lists| && s.lists[l].home == home && s.lists[l].policy == policy
  }

  /** Priorities, capacities, item sizes and policies are those that the create calls named; the idle
      task is one step weaker than the weakest priority, and a mutex serves its waiters by priority. */
  ghost predicate Made(u: Setup, s: State) {
    && s.cfg == u.cfg && |s.tasks| == 1 + |u.priorities| && s.tasks[0].base == u.cfg.lowest + 1
    && (forall i :: 0 <= i < |u.priorities| ==> s.tasks[i + 1].base == u.priorities[i])
    && |s.sems| == |u.sems|
    && (forall i :: 0 <= i < |u.sems| ==> Serves(s, s.sems[i].wl, InSem(i), u.sems[i].policy))
    && |s.mutexes| == u.mutexes
    && (forall m :: 0 <= m < u.mutexes ==> Serves(s, s.mutexes[m].wl, InMutex(m), Priority))
    && |s.queues| == |u.queues|
    && (forall q :: 0 <= q < |u.queues| ==>
        && s.queues[q].maxItems == u.queues[q].maxItems && s.queues[q].itemSize == u.queues[q].itemSize
        && Serves(s, s.queues[q].swl, InSend(q), u.queues[q].policy)
        && Serves(s, s.queues[q].rwl, InRecv(q), u.queues[q].policy))
  }

  /** Power-up: everything as the create calls name it, all tasks ready, nothing owned, stored or
      waited for, the counter at 0 and the first dispatch due. */
  lemma BootMade(u: Setup)
    requires Accepted(u)
    ensures var s := Boot(u).k;
      && Made(u, s) && s.tick == 0 && s.current == 0 && s.pending
      && s.tasks[0] == ReadyTask(u.cfg.lowest + 1)
      && (forall i :: 0 <= i < |u.priorities| ==> s.tasks[i + 1] == ReadyTask(u.priorities[i]))
      && (forall i :: 0 <= i < |u.sems| ==> s.sems[i].count == u.sems[i].count)
      && (forall m :: 0 <= m < u.mutexes ==> s.mutexes[m].owner == NULL && !s.mutexes[m].locked)
      && (forall q :: 0 <= q < |u.queues| ==> s.queues[q].items == [] && s.queues[q].dropped == 0)
      && (forall l :: 0 <= l < |s.lists| ==> s.lists[l].waiters == [])
    ensures |Boot(u).calls| == 1 + |u.priorities| && forall t :: 0 <= t <= |u.priorities| ==> Boot(u).calls[t] == NoCall
  {
    StartShape(u);
    BootLists(u);
    hide KInv, Wf, Serves, NewList;
  }

  lemma BootLists(u: Setup)
    requires Accepted(u)
    ensures var s := Boot(u).k;
      && (forall i :: 0 <= i < |u.sems| ==> i < |s.sems| && Serves(s, s.sems[i].wl, InSem(i), u.sems[i].policy))
      && (forall m :: 0 <= m < u.mutexes ==> m < |s.mutexes| && Serves(s, s.mutexes[m].wl, InMutex(m), Priority))
      && (forall q :: 0 <= q < |u.queues| ==>
          && q < |s.queues|
          && Serves(s, s.queues[q].swl, InSend(q), u.queues[q].policy)
          && Serves(s, s.queues[q].rwl, InRecv(q), u.queues[q].policy))
      && (forall l :: 0 <= l < |s.lists| ==> s.lists[l].waiters == [])
  {
    StartShape(u);
    var s := Boot(u).k;
    hide KInv, Wf;
  }

  lemma MadeKept(u: Setup, s: State, r: State)
    requires Made(u, s) && Fixed(s, r)
    ensures Made(u, r)
  {
  }

  lemma {:induction false} RunMade(u: Setup, y: Sys, acts: seq<Action>)
    requires SysInv(y) && Run(y, acts) && Made(u, y.k)
    ensures Made(u, Exec(y, acts).k)
    decreases |acts|
  {
    hide SysInv, Legal, Act, Made, Fixed;
    if acts != [] {
      StepKeeps(y, acts[0]);
      Constants(y, acts[0]);
      MadeKept(u, y.k, Act(y, acts[0]).s);
      RunMade(u, Step(y, acts[0]), acts[1..]);
    }
  }

  /** In every reachable state priorities, capacities, item sizes and policies are the created ones. */
  lemma ReachableMade(u: Setup, z: Sys)
    requires Reachable(u, z)
    ensures SysInv(z) && Made(u, z.k)
  {
    BootHolds(u);
    BootMade(u);
    hide SysInv, Made;
    var acts :| Run(Boot(u), acts) && z == Exec(Boot(u), acts);
    RunMade(u, Boot(u), acts);
  }

  /** A queue takes as many items, and of that size, as it was created for: a send or a send from an
      interrupt finds room exactly if fewer are stored, and there are never more. */
  lemma ReachableCapacity(u: Setup, z: Sys, q: int, item: Item)
    requires Reachable(u, z) && 0 <= q < |u.queues|
    ensures SysInv(z) && |z.k.queues| == |u.queues|
    ensures var items := z.k.queues[q].items;
      && |items| <= u.queues[q].maxItems && (forall x :: x in items ==> |x| == u.queues[q].itemSize)
      && (Legal(z, IsrPut(q, item)) ==>
          && |item| == u.queues[q].itemSize
          && (Act(z, IsrPut(q, item)).ret == Returns(Ok) <==> |items| < u.queues[q].maxItems))
      && (forall n :: Legal(z, DoSend(q, item, n)) ==>
          && |item| == u.queues[q].itemSize
          && (Act(z, DoSend(q, item, n)).ret == Returns(Ok) <==> |items| < u.queues[q].maxItems))
  {
    ReachableMade(u, z);
    Stored(z, q);
    hide SysInv, KInv, Wf, Act, Legal;
    if Legal(z, IsrPut(q, item)) {
      RightSize(z, IsrPut(q, item));
      IsrPutAnswer(z, q, item);
    }
    forall n | Legal(z, DoSend(q, item, n))
      ensures |item| == u.queues[q].itemSize
      ensures Act(z, DoSend(q, item, n)).ret == Returns(Ok) <==> |z.k.queues[q].items| < u.queues[q].maxItems
    {
      RightSize(z, DoSend(q, item, n));
      SendAnswer(z, q, item, n);
    }
  }

  lemma Stored(z: Sys, q: int)
    requires SysInv(z) && 0 <= q < |z.k.queues|
    ensures var x := z.k.queues[q]; |x.items| <= x.maxItems && forall i :: i in x.items ==> |i| == x.itemSize
  {
    Ranges(z);
    hide SysInv, KInv, Wf;
  }

  lemma RightSize(z: Sys, a: Action)
    requires Legal(z, a)
    ensures a.IsrPut? ==> 0 <= a.iq < |z.k.queues| && |a.iitem| == z.k.queues[a.iq].itemSize
    ensures a.DoSend? ==> 0 <= a.dq < |z.k.queues| && |a.ditem| == z.k.queues[a.dq].itemSize
  {
  }

  /** Whom a post wakes is decided by the policy that the semaphore was created with. */
  lemma ReachablePost(u: Setup, z: Sys, i: int, w: int)
    requires Reachable(u, z) && 0 <= i < |u.sems| && SysInv(z) && Legal(z, DoPost(i))
    requires 0 <= z.k.sems[i].wl < |z.k.lists| && w in z.k.lists[z.k.sems[i].wl].waiters
    ensures 0 < w < |z.k.tasks| && 0 < Released(z, DoPost(i)) < |z.k.tasks|
    ensures var b, ws := Released(z, DoPost(i)), z.k.lists[z.k.sems[i].wl].waiters;
      && (u.sems[i].policy == Fifo ==> w == b || Ahead(ws, b, w))
      && (u.sems[i].policy == Priority ==>
          && z.k.tasks[b].eff <= z.k.tasks[w].eff
          && (z.k.tasks[b].eff == z.k.tasks[w].eff ==> w == b || Ahead(ws, b, w)))
  {
    ReachableMade(u, z);
    hide SysInv, Legal, Ahead, Released;
    ReleaseOrder(z, DoPost(i), z.k.sems[i].wl, w);
  }
}
