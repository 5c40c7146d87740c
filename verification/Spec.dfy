/** The kernel's atomic regions as functions on states (kernel/kernel.c).

    Every region between port_enter_critical and port_exit_critical is one function. A call
    that blocks is cut where waitlist_block_current gives up the processor. */
module Spec {
  import opened Types
  import opened Inheritance

  // ---------------------------------------------------------------- pointers in range

  predicate WfTask(s: State, x: Task) {
    && (x.blockedOn == NULL || 0 <= x.blockedOn < |s.lists|)
    && (x.reason == OnMutex ==> x.blockedOn != NULL && s.lists[x.blockedOn].home.InMutex?)
    && (forall m :: m in x.owned ==> 0 <= m < |s.mutexes|)
  }

  predicate WfList(s: State, l: List) {
    && (forall w :: w in l.waiters ==> 0 <= w < |s.tasks|)
    && (l.home.InMutex? ==> 0 <= l.home.mutex < |s.mutexes|)
  }

  predicate WfMutex(s: State, m: Mutex) {
    && (m.owner == NULL || 0 <= m.owner < |s.tasks|)
    && 0 <= m.wl < |s.lists|
  }

  predicate WfQueue(s: State, q: Queue) {
    && 0 <= q.swl < |s.lists| && 0 <= q.rwl < |s.lists| && q.swl != q.rwl
    && 1 <= q.maxItems < U32 && 1 <= q.itemSize < U32
    && |q.items| <= q.maxItems
    && (forall x :: x in q.items ==> |x| == q.itemSize)
  }

  predicate WfConfig(c: Config) {
    1 <= c.maxTasks <= 255 && 0 <= c.lowest <= 254 && 1 <= c.maxOwned <= 255
  }

  /** Every pointer and index of the state lies in its table. */
  predicate Wf(s: State) {
    && WfConfig(s.cfg)
    && 1 <= |s.tasks| <= s.cfg.maxTasks
    && 0 <= s.current < |s.tasks|
    && 0 <= s.tick < U32
    && (forall t :: 0 <= t < |s.tasks| ==> WfTask(s, s.tasks[t]))
    && (forall l :: 0 <= l < |s.lists| ==> WfList(s, s.lists[l]))
    && (forall m :: 0 <= m < |s.mutexes| ==> WfMutex(s, s.mutexes[m]))
    && (forall i :: 0 <= i < |s.sems| ==> 0 <= s.sems[i].wl < |s.lists| && 0 <= s.sems[i].count < 256)
    && (forall q :: 0 <= q < |s.queues| ==> WfQueue(s, s.queues[q]))
  }

  // ---------------------------------------------------------------- priorities

  function Effs(s: State): (e: seq<int>)
    ensures |e| == |s.tasks| && forall t :: 0 <= t < |e| ==> e[t] == s.tasks[t].eff
  {
    seq(|s.tasks|, t requires 0 <= t < |s.tasks| => s.tasks[t].eff)
  }

  function SetEffs(s: State, e: seq<int>): (r: State)
    requires |e| == |s.tasks|
    ensures r == s.(tasks := r.tasks) && |r.tasks| == |s.tasks|
    ensures forall t :: 0 <= t < |e| ==> r.tasks[t] == s.tasks[t].(eff := e[t])
  {
    s.(tasks := seq(|e|, t requires 0 <= t < |e| => s.tasks[t].(eff := e[t])))
  }

  /** The owner of the mutex that `t` is blocked on (cast_waitlist_to_mutex applied to its wait
      list), NULL unless it is blocked on a mutex. */
  function Next(s: State, t: int): (o: int)
    requires Wf(s) && 0 <= t < |s.tasks|
    ensures o == NULL || 0 <= o < |s.tasks|
  {
    var x := s.tasks[t];
    if x.reason == OnMutex then
      assert WfTask(s, x) && WfList(s, s.lists[x.blockedOn]);
      assert WfMutex(s, s.mutexes[s.lists[x.blockedOn].home.mutex]);
      s.mutexes[s.lists[x.blockedOn].home.mutex].owner
    else NULL
  }

  /** All waiters on the mutexes in `ms`, in list order. */
  function WaitersOn(s: State, ms: seq<int>): (r: seq<int>)
    requires Wf(s) && forall m :: m in ms ==> 0 <= m < |s.mutexes|
    ensures forall w :: w in r ==> 0 <= w < |s.tasks|
  {
    if ms == [] then []
    else
      var k := |ms| - 1;
      assert ms[k] in ms;
      assert forall m :: m in ms[..k] ==> m in ms;
      assert WfMutex(s, s.mutexes[ms[k]]) && WfList(s, s.lists[s.mutexes[ms[k]].wl]);
      WaitersOn(s, ms[..k]) + s.lists[s.mutexes[ms[k]].wl].waiters
  }

  lemma {:induction false} WaitersOnMembers(s: State, ms: seq<int>, w: int)
    requires Wf(s) && forall m :: m in ms ==> 0 <= m < |s.mutexes|
    ensures w in WaitersOn(s, ms) <==> exists m :: m in ms && w in s.lists[s.mutexes[m].wl].waiters
  {
    if ms != [] {
      var k := |ms| - 1;
      assert ms[k] in ms;
      assert forall m :: m in ms <==> m in ms[..k] || m == ms[k];
      WaitersOnMembers(s, ms[..k], w);
    }
  }

  /** The tasks waiting on mutexes that `t` owns. */
  function Dependants(s: State, t: int): (r: seq<int>)
    requires Wf(s) && 0 <= t < |s.tasks|
    ensures forall w :: w in r ==> 0 <= w < |s.tasks|
  {
    assert WfTask(s, s.tasks[t]);
    WaitersOn(s, s.tasks[t].owned)
  }

  function GraphOf(s: State): (g: Graph)
    requires Wf(s)
    ensures |g.next| == |g.base| == |g.waiters| == |s.tasks|
    ensures forall t :: 0 <= t < |s.tasks| ==> g.next[t] == Next(s, t)
    ensures forall t :: 0 <= t < |s.tasks| ==> g.base[t] == s.tasks[t].base
    ensures forall t :: 0 <= t < |s.tasks| ==> g.waiters[t] == Dependants(s, t)
    ensures WfGraph(g)
  {
    var n := |s.tasks|;
    Graph(
      seq(n, t requires 0 <= t < n => Next(s, t)),
      seq(n, t requires 0 <= t < n => s.tasks[t].base),
      seq(n, t requires 0 <= t < n => Dependants(s, t)))
  }

  /** mutex_donate_priority on behalf of the current task. */
  function DonatePriority(s: State, o: int): (r: State)
    requires Wf(s) && (o == NULL || 0 <= o < |s.tasks|)
    ensures Wf(r) && |r.tasks| == |s.tasks|
  {
    var r := SetEffs(s, Donate(GraphOf(s).next, Effs(s), o, s.tasks[s.current].eff, s.cfg.maxTasks));
    WfSetEffs(s, r);
    r
  }

  /** mutex_recompute_owner_priority. */
  function RecomputePriority(s: State, o: int): (r: State)
    requires Wf(s) && (o == NULL || 0 <= o < |s.tasks|)
    ensures Wf(r) && |r.tasks| == |s.tasks|
  {
    var r := SetEffs(s, Recompute(GraphOf(s), Effs(s), o, s.cfg.maxTasks));
    WfSetEffs(s, r);
    r
  }

  lemma WfSetEffs(s: State, r: State)
    requires Wf(s) && r == s.(tasks := r.tasks) && |r.tasks| == |s.tasks|
    requires forall t :: 0 <= t < |s.tasks| ==> r.tasks[t] == s.tasks[t].(eff := r.tasks[t].eff)
    ensures Wf(r)
  {
    WfStep(s, r);
  }

  /** Tables keep their sizes and wiring while entries change: enough for Wf. */
  lemma WfStep(s: State, r: State)
    requires Wf(s) && r.cfg == s.cfg && 0 <= r.current < |s.tasks| && 0 <= r.tick < U32
    requires |r.tasks| == |s.tasks| && |r.lists| == |s.lists| && |r.mutexes| == |s.mutexes|
    requires forall t :: 0 <= t < |r.tasks| ==> WfTask(s, r.tasks[t])
    requires forall l :: 0 <= l < |r.lists| ==> r.lists[l].home == s.lists[l].home && WfList(s, r.lists[l])
    requires forall m :: 0 <= m < |r.mutexes| ==> WfMutex(s, r.mutexes[m])
    requires forall i :: 0 <= i < |r.sems| ==> 0 <= r.sems[i].wl < |s.lists| && 0 <= r.sems[i].count < 256
    requires forall q :: 0 <= q < |r.queues| ==> WfQueue(s, r.queues[q])
    ensures Wf(r)
  {
    forall t | 0 <= t < |r.tasks|
      ensures WfTask(r, r.tasks[t])
    {
      assert WfTask(s, r.tasks[t]);
    }
    forall l | 0 <= l < |r.lists|
      ensures WfList(r, r.lists[l])
    {
      assert WfList(s, r.lists[l]);
    }
    forall m | 0 <= m < |r.mutexes|
      ensures WfMutex(r, r.mutexes[m])
    {
      assert WfMutex(s, r.mutexes[m]);
    }
    forall q | 0 <= q < |r.queues|
      ensures WfQueue(r, r.queues[q])
    {
      assert WfQueue(s, r.queues[q]);
    }
  }

  // ---------------------------------------------------------------- wait lists

  datatype Ret = Returns(err: Err) | Gives(item: Item) | Blocks
  datatype Outcome = Outcome(s: State, ret: Ret)

  /** waitlist_block_current, up to the point where the processor is given up. */
  function BlockOn(s: State, w: int, timeout: int): (r: Outcome)
    requires Wf(s) && 0 <= w < |s.lists| && 0 <= timeout < U32
    ensures Wf(r.s)
  {
    var l := s.lists[w];
    if |l.waiters| >= s.cfg.maxTasks then Outcome(s, Returns(WaitlistFull))
    else
      var x := s.tasks[s.current].(state := Blocked, reason := ReasonOf(l.home), blockedOn := w,
                                   wakeup := DeadlineOf(s.tick, timeout));
      var r := s.(tasks := s.tasks[s.current := x],
                  lists := s.lists[w := l.(waiters := l.waiters + [s.current])],
                  pending := true);
      assert WfTask(s, s.tasks[s.current]) && WfTask(s, x) && WfList(s, l);
      WfStep(s, r);
      Outcome(r, Blocks)
  }

  /** Index of the first task of strongest priority below `bound` among the first `k` waiters. */
  function Best(e: seq<int>, ws: seq<int>, bound: int, k: nat): (i: int)
    requires k <= |ws| && forall j :: 0 <= j < |ws| ==> 0 <= ws[j] < |e|
    ensures i == NULL || 0 <= i < k
    ensures i == NULL ==> forall j :: 0 <= j < k ==> e[ws[j]] >= bound
    ensures i != NULL ==> e[ws[i]] < bound
    ensures i != NULL ==> forall j :: 0 <= j < k ==> e[ws[i]] <= e[ws[j]]
    ensures i != NULL ==> forall j :: 0 <= j < i ==> e[ws[i]] < e[ws[j]]
  {
    if k == 0 then NULL
    else
      var b := Best(e, ws, bound, k - 1);
      if e[ws[k - 1]] < (if b == NULL then bound else e[ws[b]]) then k - 1 else b
  }

  /** The entry that waitlist_unblock selects; NULL if the C code would select none. */
  function Pick(s: State, w: int): (i: int)
    requires Wf(s) && 0 <= w < |s.lists|
    ensures i == NULL || 0 <= i < |s.lists[w].waiters|
  {
    var l := s.lists[w];
    assert WfList(s, l);
    assert forall j :: 0 <= j < |l.waiters| ==> l.waiters[j] in l.waiters;
    if l.waiters == [] then NULL
    else if l.policy == Fifo then 0
    else Best(Effs(s), l.waiters, s.cfg.lowest + 1, |l.waiters|)
  }

  /** The list is empty or the scan of waitlist_unblock finds an entry. */
  predicate Pickable(s: State, w: int)
    requires Wf(s) && 0 <= w < |s.lists|
  {
    s.lists[w].waiters == [] || Pick(s, w) != NULL
  }

  /** The task that a release of list `w` wakes, NULL if nobody waits. */
  function Chosen(s: State, w: int): (t: int)
    requires Wf(s) && 0 <= w < |s.lists|
    ensures Pick(s, w) == NULL ==> t == NULL
    ensures Pick(s, w) != NULL ==> 0 <= t < |s.tasks| && t in s.lists[w].waiters
  {
    assert WfList(s, s.lists[w]);
    if Pick(s, w) == NULL then NULL
    else
      assert s.lists[w].waiters[Pick(s, w)] in s.lists[w].waiters;
      s.lists[w].waiters[Pick(s, w)]
  }

  function Woken(x: Task, timeout: bool): Task {
    x.(state := Ready, reason := NoReason, blockedOn := NULL, wakeup := 0, timeout := timeout)
  }

  /** waitlist_unblock. */
  function Unblock(s: State, w: int): (r: State)
    requires Wf(s) && 0 <= w < |s.lists| && Pickable(s, w)
    ensures Wf(r) && |r.tasks| == |s.tasks| && |r.lists| == |s.lists|
  {
    if s.lists[w].waiters == [] then s
    else
      var i := Pick(s, w);
      var t := Chosen(s, w);
      var l := s.lists[w];
      var r := s.(tasks := s.tasks[t := Woken(s.tasks[t], false)],
                  lists := s.lists[w := l.(waiters := RemoveAt(l.waiters, i))]);
      assert WfTask(s, s.tasks[t]) && WfList(s, l);
      WfStep(s, r);
      r
  }

  /** waitlist_unblock followed by port_yield if somebody was woken. */
  function Release(s: State, w: int): (r: State)
    requires Wf(s) && 0 <= w < |s.lists| && Pickable(s, w)
    ensures Wf(r)
  {
    if s.lists[w].waiters == [] then s
    else
      var r := Unblock(s, w).(pending := true);
      WfStep(Unblock(s, w), r);
      r
  }

  // ---------------------------------------------------------------- ticks

  predicate Due(s: State, t: int)
    requires 0 <= t < |s.tasks|
  {
    var x := s.tasks[t];
    x.state == Blocked && x.wakeup != 0 && Elapsed(s.tick, x.wakeup)
  }

  /** The body of the loop of unblock_tasks for one task. */
  function WakeIfDue(s: State, t: int): (r: State)
    requires Wf(s) && 0 <= t < |s.tasks|
    ensures Wf(r) && |r.tasks| == |s.tasks| && |r.lists| == |s.lists| && r.tick == s.tick
  {
    if !Due(s, t) then s
    else
      var x := s.tasks[t];
      assert WfTask(s, x);
      if x.blockedOn == NULL then
        var r := s.(tasks := s.tasks[t := Woken(x, false)]);
        WfStep(s, r);
        r
      else
        var l := s.lists[x.blockedOn];
        var i := IndexOf(l.waiters, t);
        assert WfList(s, l);
        if i < |l.waiters| then
          var r := s.(tasks := s.tasks[t := Woken(x, true)],
                      lists := s.lists[x.blockedOn := l.(waiters := RemoveAt(l.waiters, i))]);
          WfStep(s, r);
          r
        else
          var r := s.(tasks := s.tasks[t := Woken(x, true).(blockedOn := x.blockedOn)]);
          WfStep(s, r);
          r
  }

  /** unblock_tasks over the tasks below `k`, the idle task excepted. */
  function WakeBelow(s: State, k: nat): (r: State)
    requires Wf(s) && k <= |s.tasks|
    ensures Wf(r) && |r.tasks| == |s.tasks| && |r.lists| == |s.lists| && r.tick == s.tick
  {
    if k <= 1 then s else WakeIfDue(WakeBelow(s, k - 1), k - 1)
  }

  function Advance(s: State): (r: State)
    requires Wf(s)
    ensures Wf(r)
  {
    var r := s.(tick := (s.tick + 1) % U32);
    WfStep(s, r);
    r
  }

  /** os_tick. */
  function Tick(s: State): (r: State)
    requires Wf(s)
    ensures Wf(r)
  {
    var r1 := WakeBelow(Advance(s), |s.tasks|);
    var r := r1.(pending := true);
    WfStep(r1, r);
    r
  }

  // ---------------------------------------------------------------- scheduling

  /** One scan loop of os_schedule_next_task: from `i` up to `end`, starting from the best
      candidate so far and its priority. */
  function Scan(ts: seq<Task>, i: int, end: int, best: int, pick: int): (r: (int, int))
    requires 0 <= i && end <= |ts|
    decreases end - i
  {
    if i >= end then (best, pick)
    else if ts[i].state == Ready && ts[i].eff < best then Scan(ts, i + 1, end, ts[i].eff, i)
    else Scan(ts, i + 1, end, best, pick)
  }

  /** The task that the two scan loops select, 0 (idle) if they find none. */
  function NextTask(ts: seq<Task>, current: int, lowest: int): int
    requires 0 <= current < |ts|
  {
    var (b, p) := Scan(ts, current + 1, |ts|, lowest + 1, 0);
    Scan(ts, 1, current + 1, b, p).1
  }

  function Preempted(s: State): (ts: seq<Task>)
    requires 0 <= s.current < |s.tasks|
    ensures |ts| == |s.tasks|
  {
    if s.tasks[s.current].state == Running then s.tasks[s.current := s.tasks[s.current].(state := Ready)]
    else s.tasks
  }

  lemma ScanRange(ts: seq<Task>, i: int, end: int, best: int, pick: int)
    requires 0 <= i && end <= |ts| && 0 <= pick < |ts|
    ensures 0 <= Scan(ts, i, end, best, pick).1 < |ts|
    decreases end - i
  {
  }

  /** os_schedule_next_task, run by the pended switch. */
  function Dispatch(s: State): (r: State)
    requires Wf(s)
    ensures Wf(r)
  {
    var ts := Preempted(s);
    assert WfTask(s, s.tasks[s.current]);
    if |ts| <= 1 then
      var r := s.(tasks := ts, pending := false);
      WfStep(s, r);
      r
    else
      ScanRange(ts, s.current + 1, |ts|, s.cfg.lowest + 1, 0);
      var (b, p) := Scan(ts, s.current + 1, |ts|, s.cfg.lowest + 1, 0);
      ScanRange(ts, 1, s.current + 1, b, p);
      var c := NextTask(ts, s.current, s.cfg.lowest);
      var r := s.(tasks := ts[c := ts[c].(state := Running)], current := c, pending := false);
      assert WfTask(s, s.tasks[c]);
      WfStep(s, r);
      r
  }

  /** os_task_delay. */
  function Delay(s: State, ticks: int): (r: State)
    requires Wf(s) && 0 <= ticks < U32
    ensures Wf(r)
  {
    if s.current == 0 then s
    else
      var x := s.tasks[s.current].(wakeup := DeadlineOf(s.tick, ticks), reason := OnDelay, state := Blocked);
      var r := s.(tasks := s.tasks[s.current := x], pending := true);
      assert WfTask(s, s.tasks[s.current]);
      WfStep(s, r);
      r
  }

  // ---------------------------------------------------------------- semaphores

  /** What a resumed semaphore or mutex wait returns. */
  function Verdict(s: State): Err
    requires 0 <= s.current < |s.tasks|
  {
    if s.tasks[s.current].timeout then Unavailable else Ok
  }

  /** os_sem_wait, up to its return or its block. */
  function SemWait(s: State, i: int, timeout: int): (r: Outcome)
    requires Wf(s) && 0 <= i < |s.sems| && 0 <= timeout < U32
    ensures Wf(r.s)
  {
    var x := s.sems[i];
    if x.count > 0 then
      var r := s.(sems := s.sems[i := x.(count := x.count - 1)]);
      WfStep(s, r);
      Outcome(r, Returns(Ok))
    else if timeout == 0 then Outcome(s, Returns(Unavailable))
    else BlockOn(s, x.wl, timeout)
  }

  /** os_sem_post; the count is a uint8_t. */
  function SemPost(s: State, i: int): (r: State)
    requires Wf(s) && 0 <= i < |s.sems| && Pickable(s, s.sems[i].wl)
    ensures Wf(r)
  {
    var x := s.sems[i];
    if s.lists[x.wl].waiters != [] then Release(s, x.wl)
    else
      var r := s.(sems := s.sems[i := x.(count := (x.count + 1) % 256)]);
      WfStep(s, r);
      r
  }

  // ---------------------------------------------------------------- mutexes

  /** os_mutex_lock, up to its return or its block. */
  function MutexLock(s: State, m: int, timeout: int): (r: Outcome)
    requires Wf(s) && 0 <= m < |s.mutexes| && 0 <= timeout < U32
    ensures Wf(r.s)
  {
    var x := s.mutexes[m];
    assert WfMutex(s, x);
    if !x.locked then
      var r := TakeMutex(s, m);
      Outcome(r, Returns(Ok))
    else if x.owner == s.current then Outcome(s, Returns(RecursiveLock))
    else if timeout == 0 then Outcome(s, Returns(Unavailable))
    else
      var o := BlockOn(DonatePriority(s, x.owner), x.wl, timeout);
      if o.ret == Blocks then o else Outcome(RecomputePriority(o.s, x.owner), o.ret)
  }

  function TakeMutex(s: State, m: int): (r: State)
    requires Wf(s) && 0 <= m < |s.mutexes|
    ensures Wf(r)
  {
    var c := s.tasks[s.current];
    var r := s.(tasks := s.tasks[s.current := c.(owned := c.owned + [m])],
                mutexes := s.mutexes[m := s.mutexes[m].(owner := s.current, locked := true)]);
    assert WfTask(s, c) && WfMutex(s, s.mutexes[m]);
    WfStep(s, r);
    r
  }

  /** os_mutex_lock after the blocked caller is dispatched again. */
  function MutexResume(s: State, m: int): (r: Outcome)
    requires Wf(s) && 0 <= m < |s.mutexes|
    ensures Wf(r.s)
  {
    assert WfMutex(s, s.mutexes[m]);
    Outcome(RecomputePriority(s, s.mutexes[m].owner), Returns(Verdict(s)))
  }

  /** Removal from an owned-mutex array by moving the last entry into the gap. */
  function SwapRemove(ms: seq<int>, m: int): (r: seq<int>)
    ensures forall x :: x in r ==> x in ms
  {
    var i := IndexOf(ms, m);
    if i == |ms| then ms
    else
      assert ms[|ms| - 1] in ms;
      ms[i := ms[|ms| - 1]][..|ms| - 1]
  }

  function Disown(s: State, m: int): (r: State)
    requires Wf(s)
    ensures Wf(r)
  {
    var c := s.tasks[s.current];
    var r := s.(tasks := s.tasks[s.current := c.(owned := SwapRemove(c.owned, m))]);
    assert WfTask(s, c);
    WfStep(s, r);
    r
  }

  /** The release branch of os_mutex_unlock when nobody waits. */
  function Vacate(s: State, m: int): (r: State)
    requires Wf(s) && 0 <= m < |s.mutexes|
    ensures Wf(r)
  {
    var r := s.(mutexes := s.mutexes[m := s.mutexes[m].(owner := NULL, locked := false)]);
    assert WfMutex(s, s.mutexes[m]);
    WfStep(s, r);
    r
  }

  /** The transfer of `m` to task `b`. */
  function Transfer(s: State, m: int, b: int): (r: State)
    requires Wf(s) && 0 <= m < |s.mutexes| && 0 <= b < |s.tasks|
    ensures Wf(r)
  {
    var x := s.tasks[b];
    var r := s.(tasks := s.tasks[b := x.(owned := x.owned + [m])],
                mutexes := s.mutexes[m := s.mutexes[m].(owner := b)],
                pending := true);
    assert WfTask(s, x) && WfMutex(s, s.mutexes[m]);
    WfStep(s, r);
    r
  }

  /** os_mutex_unlock. */
  function MutexUnlock(s: State, m: int): (r: Outcome)
    requires Wf(s) && 0 <= m < |s.mutexes| && Pickable(Disown(s, m), s.mutexes[m].wl)
    ensures Wf(r.s)
  {
    var x := s.mutexes[m];
    assert WfMutex(s, x);
    if x.owner != s.current then Outcome(s, Returns(NotOwner))
    else
      var s1 := Disown(s, m);
      if s1.lists[x.wl].waiters == [] then Outcome(Vacate(s1, m), Returns(Ok))
      else
        var b := Chosen(s1, x.wl);
        var s2 := RecomputePriority(Unblock(s1, x.wl), x.owner);
        Outcome(RecomputePriority(Transfer(s2, m, b), b), Returns(Ok))
  }

  // ---------------------------------------------------------------- queues

  /** The timeout with which a queue call blocks again. */
  function Remaining(s: State, deadline: int): int {
    if deadline == 0 then WAIT_FOREVER else (deadline - s.tick) % U32
  }

  /** A full or empty queue: give up or block on list `w`. */
  function QueueStall(s: State, w: int, timeout: int, deadline: int): (r: Outcome)
    requires Wf(s) && 0 <= w < |s.lists| && 0 <= timeout < U32 && 0 <= deadline < U32
    ensures Wf(r.s)
  {
    if timeout == 0 || (deadline != 0 && Elapsed(s.tick, deadline)) then Outcome(s, Returns(Unavailable))
    else BlockOn(s, w, Remaining(s, deadline))
  }

  function PutItem(s: State, q: int, item: Item): (r: State)
    requires Wf(s) && 0 <= q < |s.queues| && |s.queues[q].items| < s.queues[q].maxItems
    requires |item| == s.queues[q].itemSize
    ensures Wf(r)
  {
    var x := s.queues[q];
    var r := s.(queues := s.queues[q := x.(items := x.items + [item])]);
    assert WfQueue(s, x);
    WfStep(s, r);
    r
  }

  function TakeItem(s: State, q: int): (r: State)
    requires Wf(s) && 0 <= q < |s.queues| && s.queues[q].items != []
    ensures Wf(r)
  {
    var x := s.queues[q];
    var r := s.(queues := s.queues[q := x.(items := x.items[1..])]);
    assert WfQueue(s, x);
    WfStep(s, r);
    r
  }

  /** One pass of os_queue_send_from_task from its recheck to its return or block. */
  function QueueSend(s: State, q: int, item: Item, timeout: int, deadline: int): (r: Outcome)
    requires Wf(s) && 0 <= q < |s.queues| && |item| == s.queues[q].itemSize
    requires 0 <= timeout < U32 && 0 <= deadline < U32 && Pickable(s, s.queues[q].rwl)
    ensures Wf(r.s)
  {
    var x := s.queues[q];
    assert WfQueue(s, x);
    if |x.items| >= x.maxItems then QueueStall(s, x.swl, timeout, deadline)
    else
      PickFrame(s, PutItem(s, q, item), x.rwl);
      Outcome(Release(PutItem(s, q, item), x.rwl), Returns(Ok))
  }

  /** One pass of os_queue_recv_from_task from its recheck to its return or block. */
  function QueueRecv(s: State, q: int, timeout: int, deadline: int): (r: Outcome)
    requires Wf(s) && 0 <= q < |s.queues|
    requires 0 <= timeout < U32 && 0 <= deadline < U32 && Pickable(s, s.queues[q].swl)
    ensures Wf(r.s)
  {
    var x := s.queues[q];
    assert WfQueue(s, x);
    if x.items == [] then QueueStall(s, x.rwl, timeout, deadline)
    else
      PickFrame(s, TakeItem(s, q), x.swl);
      Outcome(Release(TakeItem(s, q), x.swl), Gives(x.items[0]))
  }

  lemma PickFrame(s: State, r: State, w: int)
    requires Wf(s) && Wf(r) && r.tasks == s.tasks && r.lists == s.lists && r.cfg == s.cfg && 0 <= w < |s.lists|
    ensures Pick(r, w) == Pick(s, w)
  {
    assert Effs(r) == Effs(s);
  }

  /** os_queue_send_from_isr: never blocks, counts what it drops. */
  function IsrSend(s: State, q: int, item: Item): (r: Outcome)
    requires Wf(s) && 0 <= q < |s.queues| && |item| == s.queues[q].itemSize
    requires Pickable(s, s.queues[q].rwl)
    ensures Wf(r.s)
  {
    var o := QueueSend(s, q, item, 0, s.tick);
    if o.ret == Returns(Unavailable) then
      var x := o.s.queues[q];
      var r := o.s.(queues := o.s.queues[q := x.(dropped := (x.dropped + 1) % U32)]);
      assert WfQueue(o.s, x);
      WfStep(o.s, r);
      Outcome(r, o.ret)
    else o
  }

  /** os_queue_recv_from_isr. */
  function IsrRecv(s: State, q: int): (r: Outcome)
    requires Wf(s) && 0 <= q < |s.queues| && Pickable(s, s.queues[q].swl)
    ensures Wf(r.s)
  {
    QueueRecv(s, q, 0, s.tick)
  }
}
