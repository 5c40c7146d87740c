/** What the create calls leave behind when the kernel starts, and what therefore holds of every
    state that the system can reach. */
module Startup {
  import opened Types
  import opened Inheritance
  import opened Spec
  import opened Invariants
  import opened Preserve
  import opened Runs
  import opened Effects
  import opened Traces
  import opened PriorityRuns
  import opened Preemption
  import opened TimeRuns
  import opened Wakeups
  import opened QueueRuns
  import opened SemRuns
  import opened LockRuns

  datatype SemSetup = SemSetup(count: int, policy: Policy)
  datatype QueueSetup = QueueSetup(maxItems: int, itemSize: int, policy: Policy)

  /** The arguments of the create calls made before os_kernel_start. */
  datatype Setup = Setup(cfg: Config, priorities: seq<int>, sems: seq<SemSetup>, mutexes: nat, queues: seq<QueueSetup>)

  /** The arguments that the create calls accept. */
  predicate Accepted(u: Setup) {
    && WfConfig(u.cfg)
    && |u.priorities| < u.cfg.maxTasks
    && (forall i :: 0 <= i < |u.priorities| ==> 0 <= u.priorities[i] <= u.cfg.lowest)
    && (forall i :: 0 <= i < |u.sems| ==> 0 <= u.sems[i].count <= u.cfg.maxTasks)
    && (forall q :: 0 <= q < |u.queues| ==> 1 <= u.queues[q].maxItems < U32 && 1 <= u.queues[q].itemSize < U32)
  }

  function NewTask(priority: int): Task {
    Task(Ready, priority, priority, 0, NoReason, NULL, [], false)
  }

  /** The idle task is one step weaker than the weakest user priority. */
  function BaseOf(u: Setup, t: nat): int
    requires t <= |u.priorities|
  {
    if t == 0 then u.cfg.lowest + 1 else u.priorities[t - 1]
  }

  /** Every primitive's wait lists, empty. */
  function NewList(u: Setup, l: nat): List
    requires l < |u.sems| + u.mutexes + 2 * |u.queues|
  {
    var ns, nm := |u.sems|, u.mutexes;
    if l < ns then List(u.sems[l].policy, InSem(l), [])
    else if l < ns + nm then List(Priority, InMutex(l - ns), [])
    else
      var q := (l - ns - nm) / 2;
      List(u.queues[q].policy, if (l - ns - nm) % 2 == 0 then InSend(q) else InRecv(q), [])
  }

  function NewQueue(u: Setup, q: nat): Queue
    requires q < |u.queues|
  {
    var l := |u.sems| + u.mutexes + 2 * q;
    Queue(u.queues[q].maxItems, u.queues[q].itemSize, [], 0, l, l + 1)
  }

  /** The state in which os_kernel_start runs the scheduler for the first time. */
  function Start(u: Setup): (s: State)
    ensures |s.tasks| == 1 + |u.priorities| && forall t :: 0 <= t < |s.tasks| ==> s.tasks[t] == NewTask(BaseOf(u, t))
  {
    State(
      u.cfg,
      seq(1 + |u.priorities|, t requires 0 <= t <= |u.priorities| => NewTask(BaseOf(u, t))),
      seq(u.mutexes, m => Mutex(NULL, false, |u.sems| + m)),
      seq(|u.sems|, i requires 0 <= i < |u.sems| => Sem(u.sems[i].count, i)),
      seq(|u.queues|, q requires 0 <= q < |u.queues| => NewQueue(u, q)),
      seq(|u.sems| + u.mutexes + 2 * |u.queues|,
          l requires 0 <= l < |u.sems| + u.mutexes + 2 * |u.queues| => NewList(u, l)),
      0, 0, true)
  }

  function Boot(u: Setup): Sys {
    Sys(Start(u), seq(1 + |u.priorities|, t => NoCall))
  }

  lemma StartWf(u: Setup)
    requires Accepted(u)
    ensures Wf(Start(u)) && Wiring(Start(u))
  {
    var s := Start(u);
    forall q | 0 <= q < |s.queues|
      ensures WfQueue(s, s.queues[q])
      ensures s.lists[s.queues[q].swl].home == InSend(q) && s.lists[s.queues[q].rwl].home == InRecv(q)
    {
    }
  }

  lemma StartGraph(u: Setup, t: int)
    requires Accepted(u) && Wf(Start(u)) && 0 <= t <= |u.priorities|
    ensures GraphOf(Start(u)).next[t] == NULL && GraphOf(Start(u)).waiters[t] == []
    ensures Effs(Start(u))[t] == GraphOf(Start(u)).base[t]
  {
    assert Start(u).tasks[t].owned == [] && Start(u).tasks[t].reason == NoReason;
  }

  lemma StartInv(u: Setup)
    requires Accepted(u)
    ensures SysInv(Boot(u))
  {
    StartWf(u);
    var s := Start(u);
    forall t | 0 <= t < |s.tasks|
      ensures AgreeTask(s, t) && OwnTask(s, t) && CallOk(Boot(u), t) && GraphOf(s).next[t] == NULL
    {
      StartGraph(u, t);
    }
    forall l | 0 <= l < |s.lists|
      ensures AgreeList(s, l)
    {
      assert s.lists[l].waiters == [];
    }
    forall m | 0 <= m < |s.mutexes|
      ensures OwnMutex(s, m)
    {
      assert s.mutexes[m] == Mutex(NULL, false, |u.sems| + m);
      assert s.lists[|u.sems| + m] == List(Priority, InMutex(m), []);
    }
  }

  /** The initial tables, entry by entry. */
  lemma StartShape(u: Setup)
    requires Accepted(u)
    ensures var s := Start(u);
      && Wf(s) && KInv(s) && s.cfg == u.cfg && s.tick == 0 && s.current == 0 && s.pending
      && |s.tasks| == 1 + |u.priorities| && |s.mutexes| == u.mutexes && |s.sems| == |u.sems| && |s.queues| == |u.queues|
      && |s.lists| == |u.sems| + u.mutexes + 2 * |u.queues|
      && (forall t :: 0 <= t < |s.tasks| ==> s.tasks[t] == NewTask(BaseOf(u, t)))
      && (forall m :: 0 <= m < |s.mutexes| ==> s.mutexes[m] == Mutex(NULL, false, |u.sems| + m))
      && (forall i :: 0 <= i < |s.sems| ==> s.sems[i] == Sem(u.sems[i].count, i))
      && (forall l :: 0 <= l < |s.lists| ==> s.lists[l] == NewList(u, l))
      && (forall q :: 0 <= q < |s.queues| ==> s.queues[q] == NewQueue(u, q))
  {
    StartInv(u);
    Ranges(Boot(u));
  }

  /** Where every run starts. */
  lemma BootHolds(u: Setup)
    requires Accepted(u)
    ensures SysInv(Boot(u)) && AcyclicState(Boot(u).k) && AllInherit(Boot(u).k) && TopOrPending(Boot(u).k)
    ensures forall q :: 0 <= q < |u.queues| ==> Boot(u).k.queues[q].items == [] && NoLostWakeup(Boot(u), q)
    ensures forall i :: 0 <= i < |u.sems| ==>
      Boot(u).k.sems[i].wl == i && CountOrWaiters(Boot(u).k, i) && Units(Boot(u), i) == u.sems[i].count
  {
    StartInv(u);
    StartInherits(u);
    hide AcyclicState, AllInherit;
    assert forall i :: 0 <= i < |u.sems| ==> WokenSet(Boot(u), InSem(i)) == {};
  }

  /** Nobody waits and everybody runs at its base priority. */
  lemma StartInherits(u: Setup)
    requires Accepted(u) && KInv(Start(u))
    ensures AcyclicState(Start(u)) && AllInherit(Start(u))
  {
    var s := Start(u);
    StartWf(u);
    InheritAttained(s);
    hide KInv, Wf, Accepted;
    forall t | 0 <= t < |s.tasks|
      ensures GraphOf(s).next[t] == NULL && Attained(GraphOf(s), Effs(s), t)
    {
      StartGraph(u, t);
      assert Iter(GraphOf(s).next, t, 0) == t;
    }
    forall t, k: nat | 0 <= t < |s.tasks| && k >= 1
      ensures Iter(GraphOf(s).next, t, k) != t
    {
      PastEnd(GraphOf(s).next, t, k);
    }
  }

  /** `z` can be reached from power-up with the create calls of `u`. */
  ghost predicate Reachable(u: Setup, z: Sys) {
    Accepted(u) && (StartInv(u); exists acts :: Run(Boot(u), acts) && z == Exec(Boot(u), acts))
  }

  lemma ReachableBoot(u: Setup)
    requires Accepted(u)
    ensures Reachable(u, Boot(u)) && SysInv(Boot(u))
  {
    StartInv(u);
    assert Run(Boot(u), []) && Exec(Boot(u), []) == Boot(u);
  }

  lemma ReachableStep(u: Setup, y: Sys, a: Action)
    requires Reachable(u, y) && SysInv(y) && Legal(y, a)
    ensures Reachable(u, Step(y, a)) && SysInv(Step(y, a))
  {
    StartInv(u);
    hide SysInv, Legal, Step, Run, Exec, Boot, Accepted;
    var acts :| Run(Boot(u), acts) && y == Exec(Boot(u), acts);
    RunSnoc(Boot(u), acts, a);
    StepKeeps(y, a);
    assert Run(Boot(u), acts + [a]);
  }

  /** Safety of every reachable state: wait lists and task records agree, ownership is consistent,
      no owner is weaker than a waiter, no queue wake-up is lost, and nobody waits for a semaphore
      that has a positive count. */
  lemma ReachableSafe(u: Setup, z: Sys)
    requires Reachable(u, z)
    ensures SysInv(z) && |z.k.tasks| == 1 + |u.priorities|
    ensures |z.k.queues| == |u.queues| && forall q :: 0 <= q < |u.queues| ==> NoLostWakeup(z, q)
    ensures |z.k.sems| == |u.sems|
    ensures forall i :: 0 <= i < |u.sems| ==> 0 <= z.k.sems[i].wl < |z.k.lists| && CountOrWaiters(z.k, i)
  {
    BootHolds(u);
    var acts :| Run(Boot(u), acts) && z == Exec(Boot(u), acts);
    RunSizes(Boot(u), acts);
    forall q | 0 <= q < |u.queues|
      ensures NoLostWakeup(z, q)
    {
      RunNoLostWakeup(Boot(u), acts, q);
    }
    forall i | 0 <= i < |u.sems|
      ensures 0 <= z.k.sems[i].wl < |z.k.lists| && CountOrWaiters(z.k, i)
    {
      RunCountOrWaiters(Boot(u), acts, i);
    }
  }

  /** In every reachable state a lock call that has blocked returns OS_OK exactly if its caller owns
      the mutex then, and no task woken by a handoff is robbed of its mutex before it runs. */
  lemma ReachableLocks(u: Setup, z: Sys)
    requires Reachable(u, z)
    ensures SysInv(z) && Granted(z)
    ensures forall m :: Legal(z, Resume) && z.calls[z.k.current] == WaitMutex(m) ==>
      var r := Act(z, Resume);
      && 0 <= m < |r.s.mutexes|
      && r.ret == Returns(if r.s.mutexes[m].owner == z.k.current then Ok else Unavailable)
  {
    BootHolds(u);
    hide SysInv, KInv, Wf, Legal, Act;
    var acts :| Run(Boot(u), acts) && z == Exec(Boot(u), acts);
    assert Granted(Boot(u));
    RunGranted(Boot(u), acts);
    forall m | Legal(z, Resume) && z.calls[z.k.current] == WaitMutex(m)
      ensures var r := Act(z, Resume);
        && 0 <= m < |r.s.mutexes|
        && r.ret == Returns(if r.s.mutexes[m].owner == z.k.current then Ok else Unavailable)
    {
      ResumeOwns(z, m);
    }
  }

  /** Never under-boosted: in every reachable state, after timeouts and inside deadlock cycles too,
      the owner of a mutex is at least as strong as every task that waits for it, directly or
      through a chain of owners, and no weaker than its own base priority. */
  lemma ReachableBoosted(u: Setup, z: Sys, w: int, k: nat)
    requires Reachable(u, z) && 0 <= w < |z.k.tasks|
    ensures Wf(z.k)
    ensures var o := Iter(GraphOf(z.k).next, w, k);
      o != NULL ==> z.k.tasks[o].eff <= z.k.tasks[w].eff && z.k.tasks[o].eff <= z.k.tasks[o].base
  {
    ReachableSafe(u, z);
    Ranges(z);
    ChainBoosted(z.k, w, k);
    hide *;
  }

  lemma ChainBoosted(s: State, w: int, k: nat)
    requires KInv(s) && 0 <= w < |s.tasks|
    ensures var o := Iter(GraphOf(s).next, w, k);
      o != NULL ==> s.tasks[o].eff <= s.tasks[w].eff && s.tasks[o].eff <= s.tasks[o].base
  {
    if Iter(GraphOf(s).next, w, k) != NULL {
      ChainBound(GraphOf(s), Effs(s), w, k);
    }
  }

  lemma {:induction false} RunSizes(y: Sys, acts: seq<Action>)
    requires SysInv(y) && Run(y, acts)
    ensures var z := Exec(y, acts);
      |z.k.tasks| == |y.k.tasks| && |z.k.queues| == |y.k.queues| && |z.k.sems| == |y.k.sems|
    decreases |acts|
  {
    hide SysInv, KInv, Wf, Step;
    if acts != [] {
      StepKeeps(y, acts[0]);
      StepSizes(y, acts[0]);
      RunSizes(Step(y, acts[0]), acts[1..]);
    }
  }

  lemma StepSizes(y: Sys, a: Action)
    requires SysInv(y) && Legal(y, a)
    ensures var z := Step(y, a);
      |z.k.tasks| == |y.k.tasks| && |z.k.queues| == |y.k.queues| && |z.k.sems| == |y.k.sems|
  {
    Ranges(y);
    StepCall(y, a, y.k.current);
    QueuesKept(y, a);
  }

  /** A queue from power-up on: everything sent is what was received followed by what is stored. */
  lemma BootFifo(u: Setup, acts: seq<Action>, q: int)
    requires Accepted(u) && SysInv(Boot(u)) && Run(Boot(u), acts) && 0 <= q < |u.queues|
    ensures |Exec(Boot(u), acts).k.queues| == |u.queues|
    ensures Sent(Boot(u), acts, q) == Received(Boot(u), acts, q) + Exec(Boot(u), acts).k.queues[q].items
  {
    BootHolds(u);
    RunFifo(Boot(u), acts, q);
  }

  /** A semaphore from power-up on: its initial count and all posts are its count, the grants that
      woken waiters have not taken up yet, all grants, and 256 for every post that wrapped. */
  lemma BootConserves(u: Setup, acts: seq<Action>, i: int)
    requires Accepted(u) && SysInv(Boot(u)) && Run(Boot(u), acts) && 0 <= i < |u.sems|
    ensures |Exec(Boot(u), acts).k.sems| == |u.sems|
    ensures var z := Exec(Boot(u), acts);
      u.sems[i].count + Count(Boot(u), acts, Posts(i)) ==
        z.k.sems[i].count + |WokenSet(z, InSem(i))|
          + Count(Boot(u), acts, Grants(i)) + 256 * Count(Boot(u), acts, Wraps(i))
  {
    BootHolds(u);
    RunConserves(Boot(u), acts, i);
  }

  /** Priority inheritance and preemption from power-up on, in runs without timed-out lock calls. */
  lemma BootInheritance(u: Setup, acts: seq<Action>)
    requires Accepted(u) && SysInv(Boot(u)) && Run(Boot(u), acts) && Always(Boot(u), acts, NoMutexTimeout)
    ensures AllInherit(Exec(Boot(u), acts).k) && AllExact(Exec(Boot(u), acts).k)
    ensures TopThroughout(Boot(u), acts)
  {
    BootHolds(u);
    RunInheritance(Boot(u), acts);
    InheritExact(Boot(u).k);
    RunStaysExact(Boot(u), acts);
    RunPreempts(Boot(u), acts);
  }

  /** Preemption from power-up on, in all runs: the exact condition. */
  lemma BootPreempts(u: Setup, acts: seq<Action>)
    requires Accepted(u) && SysInv(Boot(u)) && Run(Boot(u), acts)
    ensures TopThroughout(Boot(u), acts) <==> Always(Boot(u), acts, StaysTop)
  {
    BootHolds(u);
    RunTop(Boot(u), acts);
  }
}
