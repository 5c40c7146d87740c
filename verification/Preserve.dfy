/** Each atomic region keeps the kernel invariant. */
module Preserve {
  import opened Types
  import opened Inheritance
  import opened Spec
  import opened Invariants

  /** The current task may make a blocking call: it is running and is not the idle task. */
  predicate MayBlock(s: State)
    requires Wf(s)
  {
    s.current != 0 && s.tasks[s.current].state == Running
  }

  // ---------------------------------------------------------------- priorities

  lemma RecomputeKeeps(s: State, o: int)
    requires KInv(s) && (o == NULL || 0 <= o < |s.tasks|)
    ensures KInv(RecomputePriority(s, o))
    ensures OnlyEffs(s, RecomputePriority(s, o))
    ensures forall t :: 0 <= t < |s.tasks| ==> s.tasks[t].eff <= RecomputePriority(s, o).tasks[t].eff
  {
    var r := RecomputePriority(s, o);
    GraphConsistent(s);
    RecomputeCovers(GraphOf(s), Effs(s), o, s.cfg.maxTasks);
    EffsFrame(s, r);
    assert Effs(r) == Recompute(GraphOf(s), Effs(s), o, s.cfg.maxTasks);
  }

  lemma DonateShape(s: State, o: int)
    requires Agree(s) && Own(s) && Prio(s) && 0 <= o < |s.tasks|
    ensures var r := DonatePriority(s, o);
      && Agree(r) && Own(r) && OnlyEffs(s, r) && GraphOf(r) == GraphOf(s)
      && Effs(r) == Donate(GraphOf(s).next, Effs(s), o, s.tasks[s.current].eff, s.cfg.maxTasks)
  {
    EffsFrame(s, DonatePriority(s, o));
    assert Effs(DonatePriority(s, o)) == Donate(GraphOf(s).next, Effs(s), o, s.tasks[s.current].eff, s.cfg.maxTasks);
  }

  // ---------------------------------------------------------------- blocking

  /** A lock call that gets the mutex, at once or after a wait, finds a free place in its caller's
      array of owned mutexes. A call that is refused needs none. */
  predicate HasRoom(s: State, m: int, timeout: int)
    requires Wf(s) && 0 <= m < |s.mutexes|
  {
    || (s.mutexes[m].locked && (s.mutexes[m].owner == s.current || timeout == 0))
    || |s.tasks[s.current].owned| < s.cfg.maxOwned
  }

  /** A block on list `l` is allowed: if `l` belongs to a mutex, somebody else owns it and the
      caller has room for one more owned mutex. */
  predicate BlockAllowed(s: State, l: int)
    requires Wf(s) && 0 <= l < |s.lists|
  {
    && MayBlock(s)
    && (s.lists[l].home.InMutex? ==>
        && WfList(s, s.lists[l])
        && s.mutexes[s.lists[l].home.mutex].owner != NULL
        && s.mutexes[s.lists[l].home.mutex].owner != s.current
        && |s.tasks[s.current].owned| < s.cfg.maxOwned)
  }

  lemma BlockAgree(s: State, l: int, timeout: int)
    requires Agree(s) && 0 <= l < |s.lists| && 0 <= timeout < U32 && MayBlock(s)
    ensures BlockOn(s, l, timeout).ret == Blocks && Agree(BlockOn(s, l, timeout).s)
  {
    ListHasRoom(s, l);
    var r := BlockOn(s, l, timeout).s;
    assert AgreeTask(s, s.current);
    assert AgreeList(s, l);
    assert s.current !in s.lists[l].waiters;
    forall t | 0 <= t < |r.tasks|
      ensures AgreeTask(r, t)
    {
      assert AgreeTask(s, t) && WfTask(r, r.tasks[t]);
    }
    forall k | 0 <= k < |r.lists|
      ensures AgreeList(r, k)
    {
      assert AgreeList(s, k) && WfList(r, r.lists[k]);
    }
  }

  lemma BlockOwn(s: State, l: int, timeout: int)
    requires Agree(s) && Own(s) && 0 <= l < |s.lists| && 0 <= timeout < U32 && BlockAllowed(s, l)
    ensures Own(BlockOn(s, l, timeout).s)
  {
    ListHasRoom(s, l);
    var r := BlockOn(s, l, timeout).s;
    assert AgreeTask(s, s.current) && WfList(s, s.lists[l]);
    forall t | 0 <= t < |r.tasks|
      ensures OwnTask(r, t)
    {
      assert OwnTask(s, t) && WfTask(r, r.tasks[t]);
    }
    forall m | 0 <= m < |r.mutexes|
      ensures OwnMutex(r, m)
    {
      assert OwnMutex(s, m) && WfMutex(r, r.mutexes[m]);
    }
    WiringFrame(s, r);
  }

  lemma BlockGraph(s: State, l: int, timeout: int)
    requires Agree(s) && Own(s) && 0 <= l < |s.lists| && 0 <= timeout < U32 && MayBlock(s)
    ensures Effs(BlockOn(s, l, timeout).s) == Effs(s) && GraphOf(BlockOn(s, l, timeout).s).base == GraphOf(s).base
    ensures s.lists[l].home.InMutex? ==> WfList(s, s.lists[l])
    ensures s.lists[l].home.InMutex? ==>
      GraphOf(BlockOn(s, l, timeout).s).next == GraphOf(s).next[s.current := s.mutexes[s.lists[l].home.mutex].owner]
    ensures !s.lists[l].home.InMutex? ==> GraphOf(BlockOn(s, l, timeout).s).next == GraphOf(s).next
  {
    ListHasRoom(s, l);
    var r := BlockOn(s, l, timeout).s;
    assert AgreeTask(s, s.current) && WfList(s, s.lists[l]);
    forall t | 0 <= t < |r.tasks| && t != s.current
      ensures Next(r, t) == Next(s, t)
    {
      assert AgreeTask(s, t);
    }
    assert Effs(r) == Effs(s);
    assert GraphOf(r).base == GraphOf(s).base;
  }

  /** Lists keep their homes and primitives their lists. */
  lemma WiringFrame(s: State, r: State)
    requires Wf(s) && Wiring(s) && Wf(r) && |r.lists| == |s.lists|
    requires |r.mutexes| == |s.mutexes| && |r.sems| == |s.sems| && |r.queues| == |s.queues|
    requires forall l :: 0 <= l < |s.lists| ==> r.lists[l].home == s.lists[l].home
    requires forall m :: 0 <= m < |s.mutexes| ==> r.mutexes[m].wl == s.mutexes[m].wl
    requires forall i :: 0 <= i < |s.sems| ==> r.sems[i].wl == s.sems[i].wl
    requires forall q :: 0 <= q < |s.queues| ==>
      r.queues[q].swl == s.queues[q].swl && r.queues[q].rwl == s.queues[q].rwl
    ensures Wiring(r)
  {
    assert forall l :: 0 <= l < |r.lists| ==> WfList(s, s.lists[l]) && WfList(r, r.lists[l]);
    assert forall q :: 0 <= q < |r.queues| ==> WfQueue(s, s.queues[q]) && WfQueue(r, r.queues[q]);
  }

  lemma BlockKeeps(s: State, l: int, timeout: int)
    requires KInv(s) && 0 <= l < |s.lists| && 0 <= timeout < U32 && BlockAllowed(s, l) && !s.lists[l].home.InMutex?
    ensures BlockOn(s, l, timeout).ret == Blocks && KInv(BlockOn(s, l, timeout).s)
  {
    BlockAgree(s, l, timeout);
    BlockOwn(s, l, timeout);
    BlockGraph(s, l, timeout);
  }

  /** The blocking branch of os_mutex_lock. */
  lemma LockBlockKeeps(s: State, m: int, timeout: int)
    requires KInv(s) && 0 <= m < |s.mutexes| && 0 < timeout < U32
    requires WfMutex(s, s.mutexes[m]) && BlockAllowed(s, s.mutexes[m].wl) && s.mutexes[m].locked
    ensures MutexLock(s, m, timeout).ret == Blocks && KInv(MutexLock(s, m, timeout).s)
    ensures var r := MutexLock(s, m, timeout).s; var o := s.mutexes[m].owner;
      && GraphOf(r).next == GraphOf(s).next[s.current := o] && GraphOf(r).base == GraphOf(s).base
      && Effs(r) == Donate(GraphOf(s).next, Effs(s), o, Effs(s)[s.current], s.cfg.maxTasks)
      && r == BlockOn(DonatePriority(s, o), s.mutexes[m].wl, timeout).s
  {
    assert OwnMutex(s, m);
    var o := s.mutexes[m].owner;
    var l := s.mutexes[m].wl;
    var d := DonatePriority(s, o);
    DonateShape(s, o);
    assert AgreeTask(s, s.current) && Next(s, s.current) == NULL;
    BlockAgree(d, l, timeout);
    BlockOwn(d, l, timeout);
    BlockGraph(d, l, timeout);
    var r := BlockOn(d, l, timeout).s;
    DonateCovers(GraphOf(s).next, Effs(s), s.current, o, s.cfg.maxTasks);
    forall t | 0 <= t < |s.tasks|
      ensures r.tasks[t].eff <= s.tasks[t].eff && (t == 0 ==> r.tasks[t].eff == s.tasks[t].eff)
    {
      DonatedPrio(s, o, t);
    }
  }

  /** Donation weakens nobody and never reaches the idle task, which owns no mutex. */
  lemma DonatedPrio(s: State, o: int, t: int)
    requires KInv(s) && 0 < o < |s.tasks| && 0 <= t < |s.tasks|
    ensures var e := Donate(GraphOf(s).next, Effs(s), o, Effs(s)[s.current], s.cfg.maxTasks)[t];
      e <= s.tasks[t].eff && (t == 0 ==> e == s.tasks[t].eff)
  {
    DonateReaches(GraphOf(s).next, Effs(s), o, Effs(s)[s.current], s.cfg.maxTasks, t);
    if t == 0 && Reach(GraphOf(s).next, o, 0) {
      var w := ReachPred(GraphOf(s).next, o, 0);
      EdgeOf(s, w);
    }
  }

  // ---------------------------------------------------------------- releasing

  lemma UnblockAgree(s: State, l: int)
    requires Agree(s) && 0 <= l < |s.lists| && Pickable(s, l) && s.lists[l].waiters != []
    ensures Agree(Unblock(s, l))
    ensures var b := Chosen(s, l);
      && 0 < b < |s.tasks| && s.tasks[b].state == Blocked && s.tasks[b].blockedOn == l && b != 0
      && s.tasks[b].reason == ReasonOf(s.lists[l].home)
      && (forall t :: t in Unblock(s, l).lists[l].waiters <==> t in s.lists[l].waiters && t != b)
  {
    var r := Unblock(s, l);
    var b := Chosen(s, l);
    assert AgreeList(s, l) && AgreeTask(s, b);
    RemoveAtMembers(s.lists[l].waiters, Pick(s, l));
    forall t | 0 <= t < |r.tasks|
      ensures AgreeTask(r, t)
    {
      assert AgreeTask(s, t) && WfTask(r, r.tasks[t]);
    }
    forall k | 0 <= k < |r.lists|
      ensures AgreeList(r, k)
    {
      assert AgreeList(s, k) && WfList(r, r.lists[k]);
    }
  }

  /** `r` is `s` with task `b` taken off list `l` and made ready. */
  ghost predicate Freed(s: State, r: State, b: int, l: int) {
    && Wf(s) && Wf(r) && 0 <= b < |s.tasks| && 0 <= l < |s.lists|
    && r.cfg == s.cfg && r.mutexes == s.mutexes && r.sems == s.sems && r.queues == s.queues && r.current == s.current
    && |r.tasks| == |s.tasks| && |r.lists| == |s.lists|
    && (forall t :: 0 <= t < |s.tasks| && t != b ==> r.tasks[t] == s.tasks[t])
    && r.tasks[b] == Woken(s.tasks[b], r.tasks[b].timeout)
    && (forall k :: 0 <= k < |s.lists| && k != l ==> r.lists[k] == s.lists[k])
    && r.lists[l].home == s.lists[l].home && r.lists[l].policy == s.lists[l].policy
    && (forall t :: t in r.lists[l].waiters ==> t in s.lists[l].waiters)
  }

  lemma FreedOwn(s: State, r: State, b: int, l: int)
    requires Agree(s) && Own(s) && Freed(s, r, b, l) && s.tasks[b].state == Blocked
    ensures Own(r)
    ensures GraphOf(r).next == GraphOf(s).next[b := NULL] && GraphOf(r).base == GraphOf(s).base
    ensures Effs(r) == Effs(s)
  {
    forall t | 0 <= t < |r.tasks|
      ensures OwnTask(r, t)
    {
      assert OwnTask(s, t) && WfTask(r, r.tasks[t]);
    }
    forall m | 0 <= m < |r.mutexes|
      ensures OwnMutex(r, m)
    {
      assert OwnMutex(s, m) && WfMutex(r, r.mutexes[m]);
      EmptyStays(s.lists[r.mutexes[m].wl].waiters, r.lists[r.mutexes[m].wl].waiters);
    }
    WiringFrame(s, r);
    forall t | 0 <= t < |r.tasks| && t != b
      ensures Next(r, t) == Next(s, t)
    {
      assert AgreeTask(s, t);
    }
    assert GraphOf(r).base == GraphOf(s).base;
    assert GraphOf(r).next == GraphOf(s).next[b := NULL];
    assert Effs(r) == Effs(s);
  }

  lemma EmptyStays(a: seq<int>, b: seq<int>)
    requires forall t :: t in b ==> t in a
    ensures a == [] ==> b == []
  {
    if |b| > 0 {
      var x := b[0];
      assert x in b && x in a;
    }
  }

  lemma FreedKeeps(s: State, r: State, b: int, l: int)
    requires KInv(s) && Agree(r) && Freed(s, r, b, l) && s.tasks[b].state == Blocked
    ensures KInv(r)
  {
    FreedOwn(s, r, b, l);
  }

  lemma ReleaseKeeps(s: State, l: int)
    requires KInv(s) && 0 <= l < |s.lists|
    ensures Pickable(s, l) && KInv(Release(s, l))
  {
    AlwaysPickable(s, l);
    if s.lists[l].waiters != [] {
      UnblockAgree(s, l);
      FreedKeeps(s, Unblock(s, l), Chosen(s, l), l);
      CoreFrame(Unblock(s, l), Release(s, l));
    }
  }

  // ---------------------------------------------------------------- ticks

  lemma WakeShape(s: State, t: int)
    requires Agree(s) && 0 < t < |s.tasks| && Due(s, t)
    ensures Agree(WakeIfDue(s, t))
    ensures s.tasks[t].blockedOn != NULL ==> Freed(s, WakeIfDue(s, t), t, s.tasks[t].blockedOn)
    ensures WakeIfDue(s, t).tasks == s.tasks[t := Woken(s.tasks[t], s.tasks[t].blockedOn != NULL)]
  {
    var r := WakeIfDue(s, t);
    assert AgreeTask(s, t);
    var l := s.tasks[t].blockedOn;
    if l != NULL {
      assert AgreeList(s, l);
      RemoveAtMembers(s.lists[l].waiters, IndexOf(s.lists[l].waiters, t));
    }
    forall u | 0 <= u < |r.tasks|
      ensures AgreeTask(r, u)
    {
      assert AgreeTask(s, u) && WfTask(r, r.tasks[u]);
    }
    forall k | 0 <= k < |r.lists|
      ensures AgreeList(r, k)
    {
      assert AgreeList(s, k) && WfList(r, r.lists[k]);
    }
  }

  /** Only the run state of one task, never waiting for a mutex, changes. */
  lemma StateFrame(s: State, r: State, t: int)
    requires Own(s) && Prio(s) && NotUnderBoosted(s) && Wf(r) && 0 <= t < |s.tasks|
    requires r == s.(tasks := r.tasks, current := r.current, pending := r.pending) && |r.tasks| == |s.tasks|
    requires forall u :: 0 <= u < |s.tasks| && u != t ==> r.tasks[u] == s.tasks[u]
    requires var x := s.tasks[t]; r.tasks[t] == x.(state := r.tasks[t].state, reason := r.tasks[t].reason,
                                                   wakeup := r.tasks[t].wakeup, timeout := r.tasks[t].timeout)
    requires s.tasks[t].reason != OnMutex && r.tasks[t].reason != OnMutex
    ensures Own(r) && Prio(r) && NotUnderBoosted(r)
    ensures GraphOf(r).next == GraphOf(s).next && GraphOf(r).base == GraphOf(s).base && Effs(r) == Effs(s)
  {
    forall u | 0 <= u < |r.tasks|
      ensures OwnTask(r, u) && Next(r, u) == Next(s, u)
    {
      assert OwnTask(s, u);
    }
    forall m | 0 <= m < |r.mutexes|
      ensures OwnMutex(r, m)
    {
      assert OwnMutex(s, m);
    }
    assert forall k :: 0 <= k < |r.lists| ==> WfList(r, r.lists[k]);
    assert forall q :: 0 <= q < |r.queues| ==> WfQueue(r, r.queues[q]);
    assert GraphOf(r).next == GraphOf(s).next && GraphOf(r).base == GraphOf(s).base && Effs(r) == Effs(s);
  }

  lemma WakeKeeps(s: State, t: int)
    requires KInv(s) && 0 < t < |s.tasks|
    ensures KInv(WakeIfDue(s, t))
  {
    if Due(s, t) {
      WakeShape(s, t);
      assert AgreeTask(s, t);
      if s.tasks[t].blockedOn != NULL {
        FreedKeeps(s, WakeIfDue(s, t), t, s.tasks[t].blockedOn);
      } else {
        StateFrame(s, WakeIfDue(s, t), t);
      }
    }
  }

  lemma {:induction false} WakeBelowKeeps(s: State, k: nat)
    requires KInv(s) && k <= |s.tasks|
    ensures KInv(WakeBelow(s, k))
  {
    if k > 1 {
      WakeBelowKeeps(s, k - 1);
      WakeKeeps(WakeBelow(s, k - 1), k - 1);
    }
  }

  lemma TickKeeps(s: State)
    requires KInv(s)
    ensures KInv(Tick(s))
  {
    CoreFrame(s, Advance(s));
    WakeBelowKeeps(Advance(s), |s.tasks|);
    CoreFrame(WakeBelow(Advance(s), |s.tasks|), Tick(s));
  }

  // ---------------------------------------------------------------- scheduling

  lemma ScanReady(ts: seq<Task>, i: int, end: int, best: int, pick: int)
    requires 0 <= i && end <= |ts|
    ensures var r := Scan(ts, i, end, best, pick);
      r == (best, pick) || (i <= r.1 < end && ts[r.1].state == Ready && r.0 == ts[r.1].eff < best)
    decreases end - i
  {
  }

  /** The state after the running task is put back to ready, before the scan. */
  function Preempt(s: State): (r: State)
    requires Wf(s)
    ensures Wf(r)
  {
    var r := s.(tasks := Preempted(s));
    assert WfTask(s, s.tasks[s.current]);
    WfStep(s, r);
    r
  }

  lemma PreemptKeeps(s: State)
    requires KInv(s)
    ensures KInv(Preempt(s)) && forall t :: 0 <= t < |s.tasks| ==> Preempt(s).tasks[t].state != Running
    ensures GraphOf(Preempt(s)).next == GraphOf(s).next && GraphOf(Preempt(s)).base == GraphOf(s).base
    ensures Effs(Preempt(s)) == Effs(s)
  {
    var r := Preempt(s);
    assert AgreeTask(s, s.current);
    if s.tasks[s.current].state == Running {
      StateFrame(s, r, s.current);
    } else {
      assert r == s;
    }
    forall t | 0 <= t < |r.tasks|
      ensures AgreeTask(r, t) && r.tasks[t].state != Running
    {
      assert AgreeTask(s, t);
    }
    SameLists(s, r);
  }

  lemma SameLists(s: State, r: State)
    requires Agree(s) && Wf(r) && r.lists == s.lists && |r.tasks| == |s.tasks| && |r.mutexes| == |s.mutexes|
    requires forall t :: 0 <= t < |s.tasks| ==> r.tasks[t].blockedOn == s.tasks[t].blockedOn
    ensures forall k :: 0 <= k < |r.lists| ==> AgreeList(r, k)
  {
    forall k | 0 <= k < |r.lists|
      ensures AgreeList(r, k)
    {
      assert AgreeList(s, k) && WfList(r, r.lists[k]);
    }
  }

  lemma DispatchKeeps(s: State)
    requires KInv(s)
    ensures KInv(Dispatch(s))
    ensures GraphOf(Dispatch(s)).next == GraphOf(s).next && GraphOf(Dispatch(s)).base == GraphOf(s).base
    ensures Effs(Dispatch(s)) == Effs(s)
  {
    var p := Preempt(s);
    var r := Dispatch(s);
    PreemptKeeps(s);
    if |s.tasks| <= 1 {
      CoreFrame(p, r);
      assert GraphOf(r).next == GraphOf(p).next && GraphOf(r).base == GraphOf(p).base && Effs(r) == Effs(p);
    } else {
      DispatchPick(s);
      SelectKeeps(p, r);
    }
  }

  lemma SelectKeeps(p: State, r: State)
    requires KInv(p) && Wf(r) && |r.tasks| == |p.tasks| && p.tasks[r.current].state == Ready
    requires forall t :: 0 <= t < |p.tasks| ==> p.tasks[t].state != Running
    requires r == p.(tasks := p.tasks[r.current := p.tasks[r.current].(state := Running)],
                     current := r.current, pending := false)
    ensures KInv(r)
    ensures GraphOf(r).next == GraphOf(p).next && GraphOf(r).base == GraphOf(p).base && Effs(r) == Effs(p)
  {
    assert AgreeTask(p, r.current);
    StateFrame(p, r, r.current);
    forall t | 0 <= t < |r.tasks|
      ensures AgreeTask(r, t)
    {
      assert AgreeTask(p, t) && WfTask(r, r.tasks[t]);
    }
    SameLists(p, r);
  }

  /** The selected task is ready, or it is the idle task. */
  lemma DispatchPick(s: State)
    requires Wf(s)
    ensures var ts := Preempted(s); var c := NextTask(ts, s.current, s.cfg.lowest);
      0 <= c < |ts| && (c == 0 || ts[c].state == Ready)
  {
    var ts := Preempted(s);
    var (b, p) := Scan(ts, s.current + 1, |ts|, s.cfg.lowest + 1, 0);
    ScanReady(ts, s.current + 1, |ts|, s.cfg.lowest + 1, 0);
    ScanReady(ts, 1, s.current + 1, b, p);
  }

  lemma DelayKeeps(s: State, ticks: int)
    requires KInv(s) && 0 <= ticks < U32 && (s.current != 0 ==> s.tasks[s.current].state == Running)
    ensures KInv(Delay(s, ticks))
  {
    if s.current != 0 {
      var r := Delay(s, ticks);
      assert AgreeTask(s, s.current);
      StateFrame(s, r, s.current);
      forall t | 0 <= t < |r.tasks|
        ensures AgreeTask(r, t)
      {
        assert AgreeTask(s, t);
      }
      SameLists(s, r);
    }
  }

  // ---------------------------------------------------------------- semaphores and queues

  lemma SemWaitKeeps(s: State, i: int, timeout: int)
    requires KInv(s) && 0 <= i < |s.sems| && 0 <= timeout < U32 && MayBlock(s)
    ensures KInv(SemWait(s, i, timeout).s)
    ensures SemWait(s, i, timeout).ret != Returns(WaitlistFull)
  {
    if s.sems[i].count > 0 {
      CoreFrame(s, SemWait(s, i, timeout).s);
    } else if timeout != 0 {
      BlockKeeps(s, s.sems[i].wl, timeout);
    }
  }

  lemma SemPostKeeps(s: State, i: int)
    requires KInv(s) && 0 <= i < |s.sems|
    ensures Pickable(s, s.sems[i].wl) && KInv(SemPost(s, i))
  {
    AlwaysPickable(s, s.sems[i].wl);
    if s.lists[s.sems[i].wl].waiters != [] {
      ReleaseKeeps(s, s.sems[i].wl);
    } else {
      CoreFrame(s, SemPost(s, i));
    }
  }

  lemma StallKeeps(s: State, l: int, timeout: int, deadline: int)
    requires KInv(s) && 0 <= l < |s.lists| && 0 <= timeout < U32 && 0 <= deadline < U32
    requires timeout == 0 || (MayBlock(s) && !s.lists[l].home.InMutex?)
    ensures KInv(QueueStall(s, l, timeout, deadline).s)
    ensures QueueStall(s, l, timeout, deadline).ret != Returns(WaitlistFull)
  {
    if !(timeout == 0 || (deadline != 0 && Elapsed(s.tick, deadline))) {
      BlockKeeps(s, l, Remaining(s, deadline));
    }
  }

  lemma QueueSendKeeps(s: State, q: int, item: Item, timeout: int, deadline: int)
    requires KInv(s) && 0 <= q < |s.queues| && |item| == s.queues[q].itemSize
    requires 0 <= timeout < U32 && 0 <= deadline < U32 && (timeout == 0 || MayBlock(s))
    ensures Pickable(s, s.queues[q].rwl) && KInv(QueueSend(s, q, item, timeout, deadline).s)
    ensures QueueSend(s, q, item, timeout, deadline).ret != Returns(WaitlistFull)
  {
    var x := s.queues[q];
    assert WfQueue(s, x);
    AlwaysPickable(s, x.rwl);
    if |x.items| >= x.maxItems {
      StallKeeps(s, x.swl, timeout, deadline);
    } else {
      CoreFrame(s, PutItem(s, q, item));
      ReleaseKeeps(PutItem(s, q, item), x.rwl);
    }
  }

  lemma QueueRecvKeeps(s: State, q: int, timeout: int, deadline: int)
    requires KInv(s) && 0 <= q < |s.queues|
    requires 0 <= timeout < U32 && 0 <= deadline < U32 && (timeout == 0 || MayBlock(s))
    ensures Pickable(s, s.queues[q].swl) && KInv(QueueRecv(s, q, timeout, deadline).s)
    ensures QueueRecv(s, q, timeout, deadline).ret != Returns(WaitlistFull)
  {
    var x := s.queues[q];
    assert WfQueue(s, x);
    AlwaysPickable(s, x.swl);
    if x.items == [] {
      StallKeeps(s, x.rwl, timeout, deadline);
    } else {
      CoreFrame(s, TakeItem(s, q));
      ReleaseKeeps(TakeItem(s, q), x.swl);
    }
  }

  lemma IsrSendKeeps(s: State, q: int, item: Item)
    requires KInv(s) && 0 <= q < |s.queues| && |item| == s.queues[q].itemSize
    ensures Pickable(s, s.queues[q].rwl) && KInv(IsrSend(s, q, item).s)
  {
    QueueSendKeeps(s, q, item, 0, s.tick);
    CoreFrame(QueueSend(s, q, item, 0, s.tick).s, IsrSend(s, q, item).s);
  }

  // ---------------------------------------------------------------- mutexes

  lemma TakeKeeps(s: State, m: int)
    requires KInv(s) && 0 <= m < |s.mutexes| && !s.mutexes[m].locked && MayBlock(s)
    requires |s.tasks[s.current].owned| < s.cfg.maxOwned
    ensures KInv(TakeMutex(s, m))
    ensures GraphOf(TakeMutex(s, m)).next == GraphOf(s).next && GraphOf(TakeMutex(s, m)).base == GraphOf(s).base
    ensures Effs(TakeMutex(s, m)) == Effs(s)
  {
    TakeAgree(s, m);
    TakeOwn(s, m);
    var r := TakeMutex(s, m);
    forall t | 0 <= t < |r.tasks|
      ensures Next(r, t) == Next(s, t)
    {
      assert OwnMutex(s, m);
      EdgeOf(s, t);
    }
    assert GraphOf(r).next == GraphOf(s).next && GraphOf(r).base == GraphOf(s).base;
    assert Effs(r) == Effs(s);
  }

  lemma TakeAgree(s: State, m: int)
    requires Agree(s) && 0 <= m < |s.mutexes|
    ensures Agree(TakeMutex(s, m))
  {
    var r := TakeMutex(s, m);
    forall t | 0 <= t < |r.tasks|
      ensures AgreeTask(r, t)
    {
      assert AgreeTask(s, t) && WfTask(r, r.tasks[t]);
    }
    SameLists(s, r);
  }

  lemma TakeOwn(s: State, m: int)
    requires Agree(s) && Own(s) && 0 <= m < |s.mutexes| && !s.mutexes[m].locked && MayBlock(s)
    requires |s.tasks[s.current].owned| < s.cfg.maxOwned
    ensures Own(TakeMutex(s, m))
  {
    var r := TakeMutex(s, m);
    assert OwnMutex(s, m) && AgreeTask(s, s.current);
    forall t | 0 <= t < |r.tasks|
      ensures OwnTask(r, t)
    {
      assert OwnTask(s, t) && WfTask(r, r.tasks[t]);
    }
    forall k | 0 <= k < |r.mutexes|
      ensures OwnMutex(r, k)
    {
      assert OwnMutex(s, k) && WfMutex(r, r.mutexes[k]);
    }
    WiringFrame(s, r);
  }

  lemma SwapRemoveMembers(ms: seq<int>, m: int)
    requires NoDup(ms) && m in ms
    ensures NoDup(SwapRemove(ms, m)) && |SwapRemove(ms, m)| == |ms| - 1
    ensures forall x :: x in SwapRemove(ms, m) <==> x in ms && x != m
  {
    var i := IndexOf(ms, m);
    var r := SwapRemove(ms, m);
    var k :| 0 <= k < |ms| && ms[k] == m;
    assert i < |ms|;
    forall x | x in ms && x != m
      ensures x in r
    {
      var j :| 0 <= j < |ms| && ms[j] == x;
      assert r[if j == |ms| - 1 then i else j] == x;
    }
  }

  /** Giving up a mutex that nobody waits for. */
  lemma VacateKeeps(s: State, m: int)
    requires KInv(s) && 0 <= m < |s.mutexes| && s.mutexes[m].owner == s.current && MayBlock(s)
    requires WfMutex(s, s.mutexes[m]) && s.lists[s.mutexes[m].wl].waiters == []
    ensures var r := Vacate(Disown(s, m), m);
      KInv(r) && GraphOf(r).next == GraphOf(s).next && GraphOf(r).base == GraphOf(s).base && Effs(r) == Effs(s)
  {
    var r := Vacate(Disown(s, m), m);
    assert OwnMutex(s, m);
    assert OwnTask(s, s.current);
    SwapRemoveMembers(s.tasks[s.current].owned, m);
    VacateAgreeOwn(s, r, m);
    forall t | 0 <= t < |r.tasks|
      ensures Next(r, t) == Next(s, t)
    {
      EdgeOf(s, t);
    }
    assert GraphOf(r).next == GraphOf(s).next && GraphOf(r).base == GraphOf(s).base;
    assert Effs(r) == Effs(s);
  }

  lemma VacateAgreeOwn(s: State, r: State, m: int)
    requires Agree(s) && Own(s) && 0 <= m < |s.mutexes| && s.mutexes[m].owner == s.current
    requires WfMutex(s, s.mutexes[m]) && s.lists[s.mutexes[m].wl].waiters == []
    requires Wf(r)
    requires r == s.(tasks := r.tasks, mutexes := s.mutexes[m := s.mutexes[m].(owner := NULL, locked := false)])
    requires |r.tasks| == |s.tasks|
    requires r.tasks == s.tasks[s.current := s.tasks[s.current].(owned := r.tasks[s.current].owned)]
    requires NoDup(r.tasks[s.current].owned) && |r.tasks[s.current].owned| < |s.tasks[s.current].owned|
    requires forall k :: k in r.tasks[s.current].owned <==> k in s.tasks[s.current].owned && k != m
    ensures Agree(r) && Own(r)
  {
    assert OwnMutex(s, m);
    forall t | 0 <= t < |r.tasks|
      ensures AgreeTask(r, t) && OwnTask(r, t)
    {
      assert AgreeTask(s, t) && OwnTask(s, t) && WfTask(r, r.tasks[t]);
    }
    forall k | 0 <= k < |r.mutexes|
      ensures OwnMutex(r, k)
    {
      assert OwnMutex(s, k) && WfMutex(r, r.mutexes[k]);
    }
    SameLists(s, r);
    WiringFrame(s, r);
  }
}
