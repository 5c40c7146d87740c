/** Priority inheritance and mutual exclusion over whole runs. */
module PriorityRuns {
  import opened Types
  import opened Inheritance
  import opened Spec
  import opened Invariants
  import opened Preserve
  import opened Handoff
  import opened Runs
  import opened Effects
  import opened Traces

  /** The effective priority of `t` is the one its base and its current waiters call for. */
  ghost predicate ExactAt(s: State, t: int)
    requires Wf(s) && 0 <= t < |s.tasks|
  {
    Exact(GraphOf(s), Effs(s), t)
  }

  ghost predicate AcyclicState(s: State) {
    Wf(s) && Acyclic(GraphOf(s).next)
  }

  /** The wait-for graph and all priorities are the same. */
  ghost predicate SameGraph(s: State, r: State) {
    && Wf(s) && Wf(r) && |r.tasks| == |s.tasks|
    && GraphOf(r).next == GraphOf(s).next && GraphOf(r).base == GraphOf(s).base && Effs(r) == Effs(s)
  }

  /** The equation of a task depends only on its base, its waiters and their priorities. */
  lemma SameLocal(g: Graph, g': Graph, e: seq<int>, e': seq<int>, t: int)
    requires Consistent(g) && Consistent(g') && |e| == |e'| == |g.next| == |g'.next| && InRange(t, |e|)
    requires g'.base[t] == g.base[t]
    requires forall w :: 0 <= w < |e| ==> (g'.next[w] == t <==> g.next[w] == t)
    requires forall w :: 0 <= w < |e| && g.next[w] == t ==> e'[w] == e[w]
    ensures Local(g', e', t) == Local(g, e, t)
  {
    var p := Local(g, e, t);
    if p != g.base[t] {
      var w :| w in g.waiters[t] && p == e[w];
      assert g.next[w] == t && g'.next[w] == t;
    }
    assert forall w :: 0 <= w < |e| && g.next[w] == t ==> w in g.waiters[t];
    LocalIs(g', e', t, p);
  }

  lemma SameGraphExact(s: State, r: State, t: int)
    requires KInv(s) && KInv(r) && SameGraph(s, r) && 0 <= t < |s.tasks|
    ensures ExactAt(r, t) <==> ExactAt(s, t)
  {
    GraphConsistent(s);
    GraphConsistent(r);
    SameLocal(GraphOf(s), GraphOf(r), Effs(s), Effs(r), t);
  }

  // ---------------------------------------------------------------- actions that leave the graph alone

  lemma CoreGraph(s: State, r: State)
    requires Wf(s) && Wf(r) && r.tasks == s.tasks && r.lists == s.lists && r.mutexes == s.mutexes
    ensures SameGraph(s, r)
  {
    assert forall t :: 0 <= t < |s.tasks| ==> Next(r, t) == Next(s, t);
    assert Effs(r) == Effs(s);
  }

  lemma ReleaseGraph(s: State, l: int)
    requires KInv(s) && 0 <= l < |s.lists| && !s.lists[l].home.InMutex? && Pickable(s, l)
    ensures SameGraph(s, Release(s, l))
  {
    if s.lists[l].waiters != [] {
      var b := Chosen(s, l);
      UnblockAgree(s, l);
      FreedOwn(s, Unblock(s, l), b, l);
      assert AgreeTask(s, b) && Next(s, b) == NULL;
      CoreGraph(Unblock(s, l), Release(s, l));
      assert GraphOf(s).next[b := NULL] == GraphOf(s).next;
    }
  }

  lemma SendGraph(s: State, q: int, item: Item, timeout: int, deadline: int)
    requires KInv(s) && 0 <= q < |s.queues| && |item| == s.queues[q].itemSize && Pickable(s, s.queues[q].rwl)
    requires Word(timeout) && Word(deadline) && (timeout == 0 || MayBlock(s))
    ensures SameGraph(s, QueueSend(s, q, item, timeout, deadline).s)
  {
    var x := s.queues[q];
    assert WfQueue(s, x);
    if |x.items| < x.maxItems {
      var p := PutItem(s, q, item);
      CoreFrame(s, p);
      CoreGraph(s, p);
      PickFrame(s, p, x.rwl);
      ReleaseGraph(p, x.rwl);
    } else {
      StallGraph(s, x.swl, timeout, deadline);
    }
  }

  lemma RecvGraph(s: State, q: int, timeout: int, deadline: int)
    requires KInv(s) && 0 <= q < |s.queues| && Pickable(s, s.queues[q].swl)
    requires Word(timeout) && Word(deadline) && (timeout == 0 || MayBlock(s))
    ensures SameGraph(s, QueueRecv(s, q, timeout, deadline).s)
  {
    var x := s.queues[q];
    assert WfQueue(s, x);
    if x.items != [] {
      var p := TakeItem(s, q);
      CoreFrame(s, p);
      CoreGraph(s, p);
      PickFrame(s, p, x.swl);
      ReleaseGraph(p, x.swl);
    } else {
      StallGraph(s, x.rwl, timeout, deadline);
    }
  }

  lemma StallGraph(s: State, l: int, timeout: int, deadline: int)
    requires KInv(s) && 0 <= l < |s.lists| && !s.lists[l].home.InMutex?
    requires Word(timeout) && Word(deadline) && (timeout == 0 || MayBlock(s))
    ensures SameGraph(s, QueueStall(s, l, timeout, deadline).s)
  {
    if !(timeout == 0 || (deadline != 0 && Elapsed(s.tick, deadline))) {
      BlockGraph(s, l, Remaining(s, deadline));
    }
  }

  lemma WaitGraph(s: State, i: int, timeout: int)
    requires KInv(s) && 0 <= i < |s.sems| && Word(timeout) && MayBlock(s)
    ensures SameGraph(s, SemWait(s, i, timeout).s)
  {
    if s.sems[i].count > 0 {
      CoreGraph(s, SemWait(s, i, timeout).s);
    } else if timeout != 0 {
      BlockGraph(s, s.sems[i].wl, timeout);
    }
  }

  lemma PostGraph(s: State, i: int)
    requires KInv(s) && 0 <= i < |s.sems| && Pickable(s, s.sems[i].wl)
    ensures SameGraph(s, SemPost(s, i))
  {
    if s.lists[s.sems[i].wl].waiters != [] {
      ReleaseGraph(s, s.sems[i].wl);
    } else {
      CoreGraph(s, SemPost(s, i));
    }
  }

  lemma DelayGraph(s: State, ticks: int)
    requires KInv(s) && Word(ticks) && MayBlock(s)
    ensures SameGraph(s, Delay(s, ticks))
  {
    assert AgreeTask(s, s.current);
    StateFrame(s, Delay(s, ticks), s.current);
  }

  /** The action recomputes or donates priorities, or changes who waits for whom. */
  ghost predicate Rewires(y: Sys, a: Action)
    requires SysInv(y) && Legal(y, a)
  {
    || a.TickIrq?
    || (a.DoLock? && Act(y, a).ret == Blocks)
    || (a.DoUnlock? && HandsOff(y.k, a.umutex))
    || (a.Resume? && y.calls[y.k.current].WaitMutex?)
  }

  lemma QuietGraph(y: Sys, a: Action)
    requires SysInv(y) && Legal(y, a) && !Rewires(y, a)
    ensures SameGraph(y.k, Act(y, a).s)
  {
    if a.Switch? {
      DispatchKeeps(y.k);
    } else if a.IsrPut? || a.IsrGet? {
      QuietIsr(y, a);
    } else if a.DoLock? || a.DoUnlock? {
      QuietMutex(y, a);
    } else if a.Resume? {
      QuietResume(y);
    } else {
      QuietCall(y, a);
    }
  }

  lemma QuietIsr(y: Sys, a: Action)
    requires SysInv(y) && Legal(y, a) && (a.IsrPut? || a.IsrGet?)
    ensures SameGraph(y.k, Act(y, a).s)
  {
    hide SysInv, KInv, Wf;
    Ranges(y);
    if a.IsrPut? {
      QueueSendKeeps(y.k, a.iq, a.iitem, 0, y.k.tick);
      SendGraph(y.k, a.iq, a.iitem, 0, y.k.tick);
      CoreGraph(QueueSend(y.k, a.iq, a.iitem, 0, y.k.tick).s, IsrSend(y.k, a.iq, a.iitem).s);
    } else {
      QueueRecvKeeps(y.k, a.gq, 0, y.k.tick);
      RecvGraph(y.k, a.gq, 0, y.k.tick);
    }
  }

  lemma QuietCall(y: Sys, a: Action)
    requires SysInv(y) && Legal(y, a) && (a.DoDelay? || a.DoWait? || a.DoPost? || a.DoSend? || a.DoRecv?)
    ensures SameGraph(y.k, Act(y, a).s)
  {
    hide SysInv, KInv, Wf;
    Ranges(y);
    if a.DoDelay? {
      DelayGraph(y.k, a.ticks);
    } else if a.DoWait? {
      WaitGraph(y.k, a.wsem, a.wtimeout);
    } else if a.DoPost? {
      SemPostKeeps(y.k, a.psem);
      PostGraph(y.k, a.psem);
    } else if a.DoSend? {
      var d := DeadlineOf(y.k.tick, a.dtimeout);
      QueueSendKeeps(y.k, a.dq, a.ditem, a.dtimeout, d);
      SendGraph(y.k, a.dq, a.ditem, a.dtimeout, d);
    } else {
      var d := DeadlineOf(y.k.tick, a.vtimeout);
      QueueRecvKeeps(y.k, a.vq, a.vtimeout, d);
      RecvGraph(y.k, a.vq, a.vtimeout, d);
    }
  }

  lemma QuietMutex(y: Sys, a: Action)
    requires SysInv(y) && Legal(y, a) && (a.DoLock? || a.DoUnlock?) && !Rewires(y, a)
    ensures SameGraph(y.k, Act(y, a).s)
  {
    var k := y.k;
    if a.DoLock? {
      assert OwnMutex(k, a.lmutex);
      LockEffect(k, a.lmutex, a.ltimeout);
      if !k.mutexes[a.lmutex].locked {
        TakeKeeps(k, a.lmutex);
      }
    } else {
      UnlockReady(k, a.umutex);
      if k.mutexes[a.umutex].owner == k.current {
        VacateKeeps(k, a.umutex);
      }
    }
  }

  lemma QuietResume(y: Sys)
    requires SysInv(y) && Legal(y, Resume) && !y.calls[y.k.current].WaitMutex?
    ensures SameGraph(y.k, Continue(y).s)
  {
    hide SysInv, KInv, Wf;
    Ranges(y);
    var c := y.calls[y.k.current];
    if c.Sending? && !y.k.tasks[y.k.current].timeout {
      QueueSendKeeps(y.k, c.sq, c.item, c.stimeout, c.sdeadline);
      SendGraph(y.k, c.sq, c.item, c.stimeout, c.sdeadline);
    } else if c.Receiving? && !y.k.tasks[y.k.current].timeout {
      QueueRecvKeeps(y.k, c.rq, c.rtimeout, c.rdeadline);
      RecvGraph(y.k, c.rq, c.rtimeout, c.rdeadline);
    }
  }

  // ---------------------------------------------------------------- staleness

  lemma LockGraph(y: Sys, m: int, n: int)
    requires SysInv(y) && Legal(y, DoLock(m, n)) && MutexLock(y.k, m, n).ret == Blocks
    ensures var r := MutexLock(y.k, m, n).s; var o := y.k.mutexes[m].owner; var c := y.k.current;
      && KInv(r) && |r.tasks| == |y.k.tasks| && 0 < o < |y.k.tasks| && o != c && GraphOf(y.k).next[c] == NULL
      && GraphOf(r).next == GraphOf(y.k).next[c := o] && GraphOf(r).base == GraphOf(y.k).base
      && Effs(r) == Donate(GraphOf(y.k).next, Effs(y.k), o, Effs(y.k)[c], y.k.cfg.maxTasks)
  {
    var k := y.k;
    assert OwnMutex(k, m) && AgreeTask(k, k.current);
    LockEffect(k, m, n);
    assert WfList(k, k.lists[k.mutexes[m].wl]);
    LockBlockKeeps(k, m, n);
  }

  /** Somebody stands behind the priority of `t`: its own base or a task waiting for it. */
  ghost predicate JustifiedAt(s: State, t: int)
    requires Wf(s) && 0 <= t < |s.tasks|
  {
    || s.tasks[t].eff == s.tasks[t].base
    || exists w :: 0 <= w < |s.tasks| && Next(s, w) == t && s.tasks[w].eff == s.tasks[t].eff
  }

  lemma ExactJustified(s: State, t: int)
    requires KInv(s) && 0 <= t < |s.tasks|
    ensures ExactAt(s, t) <==> JustifiedAt(s, t)
  {
    GraphConsistent(s);
    var g, e := GraphOf(s), Effs(s);
    ExactIffJustified(g, e, t);
    hide KInv, Wf, Exact;
    if w :| 0 <= w < |e| && g.next[w] == t && e[w] == e[t] {
      assert Next(s, w) == t;
    }
    if w :| 0 <= w < |s.tasks| && Next(s, w) == t && s.tasks[w].eff == s.tasks[t].eff {
      assert g.next[w] == t;
    }
  }

  /** A blocking lock call makes exact those tasks that its donation reaches and that are not
      stronger than the caller, and makes nobody stale. */
  lemma LockExactIff(y: Sys, m: int, n: int, t: int)
    requires SysInv(y) && Legal(y, DoLock(m, n)) && MutexLock(y.k, m, n).ret == Blocks && 0 <= t < |y.k.tasks|
    ensures |MutexLock(y.k, m, n).s.tasks| == |y.k.tasks| && WfMutex(y.k, y.k.mutexes[m])
    ensures ExactAt(MutexLock(y.k, m, n).s, t) <==>
      || ExactAt(y.k, t)
      || (Reach(GraphOf(y.k).next, y.k.mutexes[m].owner, t) && y.k.tasks[y.k.current].eff <= y.k.tasks[t].eff)
  {
    LockGraph(y, m, n);
    var r := MutexLock(y.k, m, n).s;
    GraphConsistent(y.k);
    GraphConsistent(r);
    NeverWeaker(y.k, t);
    hide SysInv, KInv, Wf, MutexLock;
    DonateExactIff(GraphOf(y.k), GraphOf(r), Effs(y.k), y.k.current, y.k.mutexes[m].owner, y.k.cfg.maxTasks, t);
  }

  lemma NeverWeaker(s: State, t: int)
    requires KInv(s) && 0 <= t < |s.tasks|
    ensures Covered(GraphOf(s).next, Effs(s)) && s.tasks[t].eff <= s.tasks[t].base
  {
  }

  /** A handoff touches only the equations of the two parties, and makes both hold. */
  lemma UnlockExact(s: State, m: int, t: int)
    requires HandsOff(s, m) && 0 <= t < |s.tasks|
    ensures Pickable(Disown(s, m), s.mutexes[m].wl) && |MutexUnlock(s, m).s.tasks| == |s.tasks|
    ensures var r := MutexUnlock(s, m).s; var b := Chosen(s, s.mutexes[m].wl);
      ExactAt(r, t) <==> t == s.current || t == b || ExactAt(s, t)
  {
    hide Wf, Agree, Own, Prio, NotUnderBoosted, MutexUnlock, Chosen, Pickable;
    HandoffExact(s, m);
    var r := MutexUnlock(s, m).s;
    var b := Chosen(s, s.mutexes[m].wl);
    if t != s.current && t != b {
      GraphConsistent(s);
      forall w | 0 <= w < |s.tasks|
        ensures GraphOf(r).next[w] == t <==> GraphOf(s).next[w] == t
        ensures GraphOf(s).next[w] == t ==> Effs(r)[w] == Effs(s)[w]
      {
        HandedNext(s, r, m, b, w);
      }
      SameLocal(GraphOf(s), GraphOf(r), Effs(s), Effs(r), t);
    }
  }

  lemma AllBoosted(s: State)
    requires KInv(s)
    ensures Boosted(GraphOf(s), Effs(s))
  {
  }

  /** After a recomputation exactly those tasks satisfy their equation that did before or that lie
      on the chain of owners from its argument, cycles included; every other priority stays. */
  lemma RecomputeExact(s: State, o: int, t: int)
    requires KInv(s) && 0 <= o < |s.tasks| && 0 <= t < |s.tasks|
    ensures ExactAt(RecomputePriority(s, o), t) <==> ExactAt(s, t) || Reach(GraphOf(s).next, o, t)
    ensures !Reach(GraphOf(s).next, o, t) ==> RecomputePriority(s, o).tasks[t] == s.tasks[t]
  {
    var r := RecomputePriority(s, o);
    EndsOrLoops(GraphOf(s).next, o, s.cfg.maxTasks);
    AllBoosted(s);
    GraphConsistent(s);
    RecomputeClears(GraphOf(s), Effs(s), o, s.cfg.maxTasks, t);
    RecomputeKeeps(s, o);
    GraphEffs(s, r);
    assert Effs(r) == Recompute(GraphOf(s), Effs(s), o, s.cfg.maxTasks);
  }

  /** The owner that a resumed lock call recomputes: whoever owns the mutex by then. */
  ghost function OwnerAtResume(y: Sys): (o: int)
    requires SysInv(y) && Legal(y, Resume) && y.calls[y.k.current].WaitMutex?
    ensures o == NULL || 0 <= o < |y.k.tasks|
  {
    assert CallOk(y, y.k.current);
    assert WfMutex(y.k, y.k.mutexes[y.calls[y.k.current].mutex]);
    y.k.mutexes[y.calls[y.k.current].mutex].owner
  }

  lemma ResumeRecomputes(y: Sys)
    requires SysInv(y) && Legal(y, Resume) && y.calls[y.k.current].WaitMutex?
    ensures Wf(y.k) && Continue(y) == Outcome(RecomputePriority(y.k, OwnerAtResume(y)), Returns(Verdict(y.k)))
    ensures KInv(RecomputePriority(y.k, OwnerAtResume(y))) && OnlyEffs(y.k, RecomputePriority(y.k, OwnerAtResume(y)))
  {
    Ranges(y);
    RecomputeKeeps(y.k, OwnerAtResume(y));
  }

  /** Which tasks satisfy their equation after a lock call has been resumed. */
  lemma ResumeExactIff(y: Sys, t: int)
    requires SysInv(y) && Legal(y, Resume) && y.calls[y.k.current].WaitMutex? && 0 <= t < |y.k.tasks|
    ensures |Continue(y).s.tasks| == |y.k.tasks|
    ensures ExactAt(Continue(y).s, t) <==>
      || ExactAt(y.k, t)
      || (OwnerAtResume(y) != NULL && Reach(GraphOf(y.k).next, OwnerAtResume(y), t))
  {
    ResumeRecomputes(y);
    Ranges(y);
    hide SysInv, KInv, Wf, Continue, RecomputePriority, OwnerAtResume;
    if OwnerAtResume(y) != NULL {
      RecomputeExact(y.k, OwnerAtResume(y), t);
    } else {
      RecomputeNull(y.k);
    }
  }

  lemma RecomputeNull(s: State)
    requires Wf(s)
    ensures RecomputePriority(s, NULL) == s
  {
    assert RecomputePriority(s, NULL).tasks == s.tasks;
    hide Wf;
  }

  /** The edges after a tick: the timed-out waiters have none. */
  lemma TickNext(s: State, w: int)
    requires KInv(s) && 0 <= w < |s.tasks|
    ensures |Tick(s).tasks| == |s.tasks|
    ensures Next(Tick(s), w) == if w != 0 && Due(Advance(s), w) then NULL else Next(s, w)
    ensures Tick(s).tasks[w].eff == s.tasks[w].eff && Tick(s).tasks[w].base == s.tasks[w].base
  {
    TickEffect(s);
  }

  /** What a tick leaves of the grounds for the priority of `t`: its base, or a waiter of the same
      priority that is not timed out. */
  ghost predicate Survives(s: State, t: int)
    requires Wf(s) && 0 <= t < |s.tasks|
  {
    || s.tasks[t].eff == s.tasks[t].base
    || exists w :: 0 <= w < |s.tasks| && Next(s, w) == t && s.tasks[w].eff == s.tasks[t].eff &&
         !(w != 0 && Due(Advance(s), w))
  }

  /** A task satisfies its equation after a tick exactly if something is left to stand behind its
      priority. */
  lemma TickExactIff(s: State, t: int)
    requires KInv(s) && 0 <= t < |s.tasks|
    ensures |Tick(s).tasks| == |s.tasks|
    ensures ExactAt(Tick(s), t) <==> Survives(s, t)
    ensures Survives(s, t) ==> ExactAt(s, t)
  {
    var r := Tick(s);
    TickKeeps(s);
    KRanges(s);
    hide KInv, Wf, Tick, ExactAt, JustifiedAt, Survives;
    TickNext(s, t);
    ExactJustified(s, t);
    ExactJustified(r, t);
    TickJustified(s, t);
  }

  lemma TickJustified(s: State, t: int)
    requires KInv(s) && 0 <= t < |s.tasks| && |Tick(s).tasks| == |s.tasks|
    ensures JustifiedAt(Tick(s), t) <==> Survives(s, t)
    ensures Survives(s, t) ==> JustifiedAt(s, t)
  {
    var r := Tick(s);
    KRanges(s);
    hide KInv, Wf, Tick;
    TickNext(s, t);
    forall w | 0 <= w < |s.tasks|
      ensures Next(r, w) == (if w != 0 && Due(Advance(s), w) then NULL else Next(s, w))
      ensures r.tasks[w].eff == s.tasks[w].eff
    {
      TickNext(s, w);
    }
    hide Next;
    if w :| 0 <= w < |r.tasks| && Next(r, w) == t && r.tasks[w].eff == r.tasks[t].eff {
      assert Next(s, w) == t && !(w != 0 && Due(Advance(s), w));
    }
    if w :| 0 <= w < |s.tasks| && Next(s, w) == t && s.tasks[w].eff == s.tasks[t].eff
            && !(w != 0 && Due(Advance(s), w)) {
      assert Next(r, w) == t;
    }
  }

  /** The action makes `t` satisfy its equation whatever it did before. */
  ghost predicate Clears(y: Sys, a: Action, t: int)
    requires SysInv(y) && Legal(y, a) && 0 <= t < |y.k.tasks|
  {
    Ranges(y);
    match a
    case DoLock(m, _) =>
      Act(y, a).ret == Blocks && Reach(GraphOf(y.k).next, y.k.mutexes[m].owner, t) &&
      y.k.tasks[y.k.current].eff <= y.k.tasks[t].eff
    case DoUnlock(m) => HandsOff(y.k, m) && (t == y.k.current || t == Chosen(y.k, y.k.mutexes[m].wl))
    case Resume =>
      y.calls[y.k.current].WaitMutex? && OwnerAtResume(y) != NULL && Reach(GraphOf(y.k).next, OwnerAtResume(y), t)
    case _ => false
  }

  /** When a task satisfies its equation after an action: after a tick, if something survives that
      stands behind its priority; after anything else, if it did before or the action clears it. */
  lemma ExactAfterIff(y: Sys, a: Action, t: int)
    requires SysInv(y) && Legal(y, a) && 0 <= t < |y.k.tasks|
    ensures |Act(y, a).s.tasks| == |y.k.tasks|
    ensures ExactAt(Act(y, a).s, t) <==> if a.TickIrq? then Survives(y.k, t) else ExactAt(y.k, t) || Clears(y, a, t)
    ensures Survives(y.k, t) ==> ExactAt(y.k, t)
  {
    Ranges(y);
    TickExactIff(y.k, t);
    hide *;
    if a.TickIrq? {
      TickExactAfter(y, t);
    } else if a.DoLock? {
      LockExactAfter(y, a, t);
    } else if a.DoUnlock? {
      UnlockExactAfter(y, a, t);
    } else if a.Resume? {
      ResumeExactAfter(y, t);
    } else {
      OtherExactAfter(y, a, t);
    }
  }

  lemma TickExactAfter(y: Sys, t: int)
    requires SysInv(y) && 0 <= t < |y.k.tasks|
    ensures Legal(y, TickIrq) && |Act(y, TickIrq).s.tasks| == |y.k.tasks|
    ensures ExactAt(Act(y, TickIrq).s, t) <==> Survives(y.k, t)
  {
    Ranges(y);
    hide SysInv, KInv, Wf, ExactAt, Tick, Survives;
    TickExactIff(y.k, t);
  }

  lemma LockExactAfter(y: Sys, a: Action, t: int)
    requires SysInv(y) && Legal(y, a) && a.DoLock? && 0 <= t < |y.k.tasks|
    ensures |Act(y, a).s.tasks| == |y.k.tasks|
    ensures ExactAt(Act(y, a).s, t) <==> ExactAt(y.k, t) || Clears(y, a, t)
  {
    hide SysInv, KInv, Wf, ExactAt;
    Ranges(y);
    if Act(y, a).ret == Blocks {
      LockExactIff(y, a.lmutex, a.ltimeout, t);
    } else {
      QuietExact(y, a, t);
    }
  }

  lemma UnlockExactAfter(y: Sys, a: Action, t: int)
    requires SysInv(y) && Legal(y, a) && a.DoUnlock? && 0 <= t < |y.k.tasks|
    ensures |Act(y, a).s.tasks| == |y.k.tasks|
    ensures ExactAt(Act(y, a).s, t) <==> ExactAt(y.k, t) || Clears(y, a, t)
  {
    hide SysInv, KInv, Wf, ExactAt, MutexUnlock, Chosen;
    Ranges(y);
    if HandsOff(y.k, a.umutex) {
      UnlockExact(y.k, a.umutex, t);
    } else {
      QuietExact(y, a, t);
    }
  }

  lemma ResumeExactAfter(y: Sys, t: int)
    requires SysInv(y) && Legal(y, Resume) && 0 <= t < |y.k.tasks|
    ensures |Act(y, Resume).s.tasks| == |y.k.tasks|
    ensures ExactAt(Act(y, Resume).s, t) <==> ExactAt(y.k, t) || Clears(y, Resume, t)
  {
    hide SysInv, KInv, Wf, ExactAt, Continue, OwnerAtResume;
    Ranges(y);
    if y.calls[y.k.current].WaitMutex? {
      ResumeExactIff(y, t);
    } else {
      QuietExact(y, Resume, t);
    }
  }

  lemma OtherExactAfter(y: Sys, a: Action, t: int)
    requires SysInv(y) && Legal(y, a) && 0 <= t < |y.k.tasks|
    requires !a.TickIrq? && !a.DoLock? && !a.DoUnlock? && !a.Resume?
    ensures |Act(y, a).s.tasks| == |y.k.tasks|
    ensures ExactAt(Act(y, a).s, t) <==> ExactAt(y.k, t) || Clears(y, a, t)
  {
    hide SysInv, KInv, Wf, ExactAt, Act;
    Ranges(y);
    QuietExact(y, a, t);
  }

  lemma QuietExact(y: Sys, a: Action, t: int)
    requires SysInv(y) && Legal(y, a) && !Rewires(y, a) && 0 <= t < |y.k.tasks|
    ensures |Act(y, a).s.tasks| == |y.k.tasks| && (ExactAt(Act(y, a).s, t) <==> ExactAt(y.k, t))
  {
    QuietGraph(y, a);
    ActKeeps(y, a);
    SameGraphExact(y.k, Act(y, a).s, t);
  }

  // ---------------------------------------------------------------- acyclicity

  /** The action is not a blocking lock call that closes a cycle of waiting tasks. */
  ghost predicate SafeLock(y: Sys, a: Action) {
    SysInv(y) && Legal(y, a) && (a.DoLock? && Act(y, a).ret == Blocks ==>
      WfMutex(y.k, y.k.mutexes[a.lmutex]) && !Reach(GraphOf(y.k).next, y.k.mutexes[a.lmutex].owner, y.k.current))
  }

  lemma LockAcyclic(y: Sys, m: int, n: int)
    requires SysInv(y) && Legal(y, DoLock(m, n)) && MutexLock(y.k, m, n).ret == Blocks && AcyclicState(y.k)
    ensures AcyclicState(MutexLock(y.k, m, n).s) <==> SafeLock(y, DoLock(m, n))
  {
    LockGraph(y, m, n);
    EdgeAcyclic(GraphOf(y.k).next, y.k.current, y.k.mutexes[m].owner);
  }

  lemma TickAcyclic(s: State)
    requires KInv(s) && AcyclicState(s)
    ensures AcyclicState(Tick(s))
  {
    TickEffect(s);
    forall t | 0 <= t < |s.tasks| && GraphOf(Tick(s)).next[t] != NULL
      ensures GraphOf(Tick(s)).next[t] == GraphOf(s).next[t]
    {
      TickNext(s, t);
    }
    ShrinkAcyclic(GraphOf(s).next, GraphOf(Tick(s)).next);
  }

  /** The wait-for graph stays acyclic exactly as long as no blocking lock call asks for a mutex
      whose owner already depends on the caller. */
  lemma AcyclicKept(y: Sys, a: Action)
    requires SysInv(y) && Legal(y, a) && AcyclicState(y.k)
    ensures AcyclicState(Act(y, a).s) <==> SafeLock(y, a)
  {
    hide *;
    if a.DoLock? {
      LockKeepsAcyclic(y, a);
    } else {
      OtherKeepsAcyclic(y, a);
      NotLockSafe(y, a);
    }
  }

  /** The wait-for graph is acyclic after every action of the run. */
  ghost predicate AcyclicThroughout(y: Sys, acts: seq<Action>)
    requires SysInv(y) && Run(y, acts)
    decreases |acts|
  {
    && AcyclicState(y.k)
    && (acts != [] ==> (StepKeeps(y, acts[0]); AcyclicThroughout(Step(y, acts[0]), acts[1..])))
  }

  /** A run stays free of deadlock exactly if none of its lock calls closes a cycle. */
  lemma {:induction false} RunAcyclicIff(y: Sys, acts: seq<Action>)
    requires SysInv(y) && Run(y, acts) && AcyclicState(y.k)
    ensures AcyclicThroughout(y, acts) <==> Always(y, acts, SafeLock)
    decreases |acts|
  {
    hide SysInv, KInv, Wf, Legal, Step, AcyclicState, SafeLock;
    if acts != [] {
      StepKeeps(y, acts[0]);
      StepAcyclic(y, acts[0]);
      if AcyclicState(Step(y, acts[0]).k) {
        RunAcyclicIff(Step(y, acts[0]), acts[1..]);
      } else {
        assert !AcyclicThroughout(Step(y, acts[0]), acts[1..]);
      }
    }
  }

  lemma StepAcyclic(y: Sys, a: Action)
    requires SysInv(y) && Legal(y, a) && AcyclicState(y.k)
    ensures AcyclicState(Step(y, a).k) <==> SafeLock(y, a)
  {
    hide SysInv, KInv, Wf, Legal, Act, AcyclicState, SafeLock;
    AcyclicKept(y, a);
  }

  lemma NotLockSafe(y: Sys, a: Action)
    requires SysInv(y) && Legal(y, a) && !a.DoLock?
    ensures SafeLock(y, a)
  {
  }

  lemma LockKeepsAcyclic(y: Sys, a: Action)
    requires SysInv(y) && Legal(y, a) && AcyclicState(y.k) && a.DoLock?
    ensures AcyclicState(Act(y, a).s) <==> SafeLock(y, a)
  {
    hide SysInv, KInv, Wf, AcyclicState, Reach;
    Ranges(y);
    if Act(y, a).ret == Blocks {
      LockAcyclic(y, a.lmutex, a.ltimeout);
    } else {
      QuietAcyclic(y, a);
    }
  }

  lemma OtherKeepsAcyclic(y: Sys, a: Action)
    requires SysInv(y) && Legal(y, a) && AcyclicState(y.k) && !a.DoLock?
    ensures AcyclicState(Act(y, a).s)
  {
    hide *;
    if a.TickIrq? {
      TickKeepsAcyclic(y);
    } else if a.DoUnlock? {
      UnlockKeepsAcyclic(y, a);
    } else if a.Resume? {
      ResumeKeepsAcyclic(y);
    } else {
      RestKeepsAcyclic(y, a);
    }
  }

  lemma TickKeepsAcyclic(y: Sys)
    requires SysInv(y) && AcyclicState(y.k)
    ensures Legal(y, TickIrq) && AcyclicState(Act(y, TickIrq).s)
  {
    TickAcyclic(y.k);
  }

  lemma UnlockKeepsAcyclic(y: Sys, a: Action)
    requires SysInv(y) && Legal(y, a) && AcyclicState(y.k) && a.DoUnlock?
    ensures AcyclicState(Act(y, a).s)
  {
    hide SysInv, KInv, Wf, AcyclicState, MutexUnlock;
    Ranges(y);
    if HandsOff(y.k, a.umutex) {
      HandoffAcyclicState(y.k, a.umutex);
    } else {
      QuietAcyclic(y, a);
    }
  }

  lemma ResumeKeepsAcyclic(y: Sys)
    requires SysInv(y) && Legal(y, Resume) && AcyclicState(y.k)
    ensures AcyclicState(Act(y, Resume).s)
  {
    hide SysInv, KInv, Wf, AcyclicState, Continue;
    Ranges(y);
    if y.calls[y.k.current].WaitMutex? {
      ResumeAcyclic(y);
    } else {
      QuietAcyclic(y, Resume);
    }
  }

  lemma RestKeepsAcyclic(y: Sys, a: Action)
    requires SysInv(y) && Legal(y, a) && AcyclicState(y.k)
    requires !a.TickIrq? && !a.DoLock? && !a.DoUnlock? && !a.Resume?
    ensures AcyclicState(Act(y, a).s)
  {
    QuietAcyclic(y, a);
  }

  lemma QuietAcyclic(y: Sys, a: Action)
    requires SysInv(y) && Legal(y, a) && !Rewires(y, a) && AcyclicState(y.k)
    ensures AcyclicState(Act(y, a).s)
  {
    QuietGraph(y, a);
  }

  lemma ResumeAcyclic(y: Sys)
    requires SysInv(y) && Legal(y, Resume) && y.calls[y.k.current].WaitMutex? && AcyclicState(y.k)
    ensures AcyclicState(Continue(y).s)
  {
    ResumeGraph(y);
  }

  lemma HandoffAcyclicState(s: State, m: int)
    requires HandsOff(s, m) && AcyclicState(s)
    ensures Pickable(Disown(s, m), s.mutexes[m].wl) && AcyclicState(MutexUnlock(s, m).s)
  {
    HandoffAcyclic(s, m);
  }

  lemma ResumeGraph(y: Sys)
    requires SysInv(y) && Legal(y, Resume) && y.calls[y.k.current].WaitMutex?
    ensures |Continue(y).s.tasks| == |y.k.tasks| && GraphOf(Continue(y).s) == GraphOf(y.k)
  {
    assert CallOk(y, y.k.current);
    var m := y.calls[y.k.current].mutex;
    assert OwnMutex(y.k, m);
    RecomputeKeeps(y.k, y.k.mutexes[m].owner);
    GraphEffs(y.k, RecomputePriority(y.k, y.k.mutexes[m].owner));
  }

  // ---------------------------------------------------------------- exactness over runs

  ghost predicate AllExact(s: State) {
    Wf(s) && forall t :: 0 <= t < |s.tasks| ==> ExactAt(s, t)
  }

  /** The action is not a tick that times out a task waiting for a mutex. */
  ghost predicate NoMutexTimeout(y: Sys, a: Action) {
    SysInv(y) && (a.TickIrq? ==>
      forall w :: 0 < w < |y.k.tasks| && Due(Advance(y.k), w) ==> y.k.tasks[w].reason != OnMutex)
  }

  /** The only way for a task to become stale: a tick times out a waiter on one of its mutexes. */
  lemma StaleOnlyByTick(y: Sys, a: Action, t: int)
    requires SysInv(y) && Legal(y, a) && 0 <= t < |y.k.tasks|
    ensures |Act(y, a).s.tasks| == |y.k.tasks|
    ensures ExactAt(y.k, t) && !ExactAt(Act(y, a).s, t) ==>
      a.TickIrq? && exists w :: 0 < w < |y.k.tasks| && Due(Advance(y.k), w) && Next(y.k, w) == t
  {
    ExactAfterIff(y, a, t);
    Ranges(y);
    if ExactAt(y.k, t) {
      ExactJustified(y.k, t);
    }
    hide SysInv, KInv, Wf, ExactAt, Act, Clears;
  }

  lemma StepExact(y: Sys, a: Action)
    requires SysInv(y) && Legal(y, a) && AllExact(y.k) && NoMutexTimeout(y, a)
    ensures AllExact(Step(y, a).k)
  {
    StepCall(y, a, y.k.current);
    forall t | 0 <= t < |y.k.tasks|
      ensures ExactAt(Act(y, a).s, t)
    {
      StaleOnlyByTick(y, a, t);
    }
  }

  /** Along every run without timed-out lock calls nobody becomes stale, deadlocked or not. */
  lemma {:induction false} RunStaysExact(y: Sys, acts: seq<Action>)
    requires SysInv(y) && Run(y, acts) && AllExact(y.k) && Always(y, acts, NoMutexTimeout)
    ensures AllExact(Exec(y, acts).k)
    decreases |acts|
  {
    hide SysInv, KInv, Wf, Legal, Step, AllExact, NoMutexTimeout;
    if acts != [] {
      StepKeeps(y, acts[0]);
      StepExact(y, acts[0]);
      RunStaysExact(Step(y, acts[0]), acts[1..]);
    }
  }

  lemma AllExactGraph(s: State)
    requires Wf(s)
    ensures AllExact(s) <==> forall t :: 0 <= t < |Effs(s)| ==> Exact(GraphOf(s), Effs(s), t)
  {
    if AllExact(s) {
      forall t | 0 <= t < |Effs(s)|
        ensures Exact(GraphOf(s), Effs(s), t)
      {
        assert ExactAt(s, t);
      }
    }
    if forall t :: 0 <= t < |Effs(s)| ==> Exact(GraphOf(s), Effs(s), t) {
      assert forall t :: 0 <= t < |s.tasks| ==> ExactAt(s, t);
    }
  }

  /** Where no task is stale the strength of every task is exactly its transitive claim, and where
      every task has exactly its transitive claim no task is stale. */
  lemma ExactIffTransitive(s: State)
    requires KInv(s) && AcyclicState(s)
    ensures AllExact(s) <==> forall t :: 0 <= t < |Effs(s)| ==> TransitiveMin(GraphOf(s), t, Effs(s)[t])
  {
    GraphConsistent(s);
    ExactIsTransitive(GraphOf(s), Effs(s));
    AllExactGraph(s);
  }

  /** Every task is exactly as strong as the strongest base priority among itself and all tasks
      transitively blocked on mutexes it owns. */
  ghost predicate AllInherit(s: State) {
    Wf(s) && forall t :: 0 <= t < |s.tasks| ==> TransitiveMin(GraphOf(s), t, Effs(s)[t])
  }

  ghost predicate AllAttained(s: State) {
    Wf(s) && forall t :: 0 <= t < |s.tasks| ==> Attained(GraphOf(s), Effs(s), t)
  }

  lemma InheritAttained(s: State)
    requires KInv(s)
    ensures AllInherit(s) <==> AllAttained(s)
  {
    AllBoosted(s);
    forall t | 0 <= t < |s.tasks|
      ensures TransitiveMin(GraphOf(s), t, Effs(s)[t]) <==> Attained(GraphOf(s), Effs(s), t)
    {
      AttainedIsMin(GraphOf(s), Effs(s), t);
    }
  }

  /** Cycles included, nobody is stale where everybody inherits. */
  lemma InheritExact(s: State)
    requires KInv(s) && AllInherit(s)
    ensures AllExact(s)
  {
    GraphConsistent(s);
    hide KInv, Wf;
    forall t | 0 <= t < |s.tasks|
      ensures ExactAt(s, t)
    {
      TransitiveExactAt(GraphOf(s), Effs(s), t);
    }
  }

  lemma SameGraphAttained(s: State, r: State)
    requires SameGraph(s, r) && AllAttained(s)
    ensures AllAttained(r)
  {
    hide Wf;
    forall t | 0 <= t < |r.tasks|
      ensures Attained(GraphOf(r), Effs(r), t)
    {
      assert Attained(GraphOf(s), Effs(s), t);
    }
  }

  lemma TickAttained(y: Sys)
    requires SysInv(y) && AllAttained(y.k) && NoMutexTimeout(y, TickIrq)
    ensures AllAttained(Tick(y.k))
  {
    var s, r := y.k, Tick(y.k);
    TickKeeps(s);
    Ranges(y);
    hide SysInv, KInv, Wf, Tick, AllAttained;
    forall w | 0 <= w < |s.tasks|
      ensures |r.tasks| == |s.tasks| && Next(r, w) == Next(s, w)
      ensures r.tasks[w].eff == s.tasks[w].eff && r.tasks[w].base == s.tasks[w].base
    {
      TickNext(s, w);
    }
    assert Effs(r) == Effs(s);
    SameGraphAttained(s, r);
  }

  lemma LockAttained(y: Sys, m: int, n: int)
    requires SysInv(y) && Legal(y, DoLock(m, n)) && MutexLock(y.k, m, n).ret == Blocks && AllAttained(y.k)
    ensures AllAttained(MutexLock(y.k, m, n).s)
  {
    LockGraph(y, m, n);
    Ranges(y);
    var r := MutexLock(y.k, m, n).s;
    var g, g', o := GraphOf(y.k), GraphOf(r), y.k.mutexes[m].owner;
    hide SysInv, KInv, MutexLock;
    forall t | 0 <= t < |r.tasks|
      ensures Attained(g', Effs(r), t)
    {
      DonateAttains(g, g', Effs(y.k), y.k.current, o, y.k.cfg.maxTasks, t);
    }
  }

  /** What a handoff leaves of the graph. */
  lemma HandedGraph(s: State, r: State, m: int, b: int)
    requires HandsOff(s, m) && Handed(s, r, m, b)
    ensures 0 < b < |s.tasks| == |r.tasks| && 0 <= s.current < |s.tasks|
    ensures GraphOf(r).base == GraphOf(s).base && GraphOf(s).next[b] == s.current && GraphOf(s).next[s.current] == NULL
    ensures forall x :: 0 <= x < |s.tasks| && x != b && GraphOf(s).next[x] != s.current ==>
      GraphOf(r).next[x] == GraphOf(s).next[x]
    ensures forall x :: 0 <= x < |s.tasks| && x != b && x != s.current ==> Effs(r)[x] == Effs(s)[x]
  {
    HandedNext(s, r, m, b, b);
    HandedBases(s, r, m, b);
    forall x | 0 <= x < |s.tasks| && x != b && GraphOf(s).next[x] != s.current
      ensures GraphOf(r).next[x] == GraphOf(s).next[x]
    {
      HandedNext(s, r, m, b, x);
    }
    hide HandsOff, Wf;
  }

  lemma HandedBases(s: State, r: State, m: int, b: int)
    requires HandsOff(s, m) && Handed(s, r, m, b)
    ensures GraphOf(r).base == GraphOf(s).base
  {
    hide KInv, Wf;
    assert forall t :: 0 <= t < |s.tasks| ==> r.tasks[t].base == s.tasks[t].base;
  }

  lemma HandoffAttained(s: State, m: int)
    requires HandsOff(s, m) && AllAttained(s)
    ensures Pickable(Disown(s, m), s.mutexes[m].wl) && AllAttained(MutexUnlock(s, m).s)
  {
    HandoffExact(s, m);
    HandoffKeeps(s, m);
    var r, b := MutexUnlock(s, m).s, Chosen(s, s.mutexes[m].wl);
    PartiesAttained(s, m, r, b);
  }

  lemma PartiesAttained(s: State, m: int, r: State, b: int)
    requires HandsOff(s, m) && AllAttained(s) && Handed(s, r, m, b) && KInv(r)
    requires Exact(GraphOf(r), Effs(r), s.current) && Exact(GraphOf(r), Effs(r), b)
    ensures AllAttained(r)
  {
    GraphConsistent(r);
    HandedNext(s, r, m, b, b);
    HandedGraph(s, r, m, b);
    hide HandsOff, Handed, KInv, Wf, Exact, Attained;
    forall t | 0 <= t < |s.tasks| && t != b && t != s.current
      ensures Attained(GraphOf(r), Effs(r), t)
    {
      StaysAttained(GraphOf(s), GraphOf(r), Effs(s), Effs(r), b, s.current, t);
    }
    LocalAttains(GraphOf(r), Effs(r), s.current);
    LocalAttains(GraphOf(r), Effs(r), b);
  }

  lemma ExactRecompute(s: State, o: int)
    requires KInv(s) && AllExact(s) && (o == NULL || 0 <= o < |s.tasks|)
    ensures RecomputePriority(s, o) == s
  {
    AllExactGraph(s);
    RecomputeNoOp(GraphOf(s), Effs(s), o, s.cfg.maxTasks);
    assert RecomputePriority(s, o).tasks == s.tasks;
  }

  lemma ResumeAttained(y: Sys)
    requires SysInv(y) && Legal(y, Resume) && y.calls[y.k.current].WaitMutex? && AllAttained(y.k)
    ensures AllAttained(Continue(y).s)
  {
    Ranges(y);
    hide SysInv, KInv, Wf, Continue, AllAttained;
    InheritAttained(y.k);
    InheritExact(y.k);
    ResumeRecomputes(y);
    ExactRecompute(y.k, OwnerAtResume(y));
  }

  lemma StepInherits(y: Sys, a: Action)
    requires SysInv(y) && Legal(y, a) && AllInherit(y.k) && NoMutexTimeout(y, a)
    ensures AllInherit(Step(y, a).k)
  {
    StepKeeps(y, a);
    Ranges(y);
    Ranges(Step(y, a));
    InheritAttained(y.k);
    InheritAttained(Step(y, a).k);
    hide SysInv, KInv, Wf, AllInherit, AllAttained, NoMutexTimeout;
    StepAttained(y, a);
  }

  lemma StepAttained(y: Sys, a: Action)
    requires SysInv(y) && Legal(y, a) && AllAttained(y.k) && NoMutexTimeout(y, a)
    ensures AllAttained(Act(y, a).s)
  {
    hide SysInv, KInv, Wf, AllAttained, NoMutexTimeout, MutexLock, MutexUnlock, Continue;
    Ranges(y);
    if !Rewires(y, a) {
      QuietGraph(y, a);
      SameGraphAttained(y.k, Act(y, a).s);
    } else if a.TickIrq? {
      TickAttained(y);
    } else if a.DoLock? {
      LockAttained(y, a.lmutex, a.ltimeout);
    } else if a.DoUnlock? {
      HandoffAttained(y.k, a.umutex);
    } else {
      ResumeAttained(y);
    }
  }

  /** Transitive inheritance: along every run without timed-out lock calls, deadlocked or not, each
      task's effective priority is the strongest base priority among itself and all tasks
      transitively blocked on mutexes it owns. */
  lemma {:induction false} RunInheritance(y: Sys, acts: seq<Action>)
    requires SysInv(y) && Run(y, acts) && AllInherit(y.k) && Always(y, acts, NoMutexTimeout)
    ensures AllInherit(Exec(y, acts).k)
    decreases |acts|
  {
    hide SysInv, KInv, Wf, Legal, Step, AllInherit, NoMutexTimeout;
    if acts != [] {
      StepKeeps(y, acts[0]);
      StepInherits(y, acts[0]);
      RunInheritance(Step(y, acts[0]), acts[1..]);
    }
  }

  /** os_mutex_unlock leaves its caller exactly as strong as it should be precisely if somebody
      waited for the mutex, or the caller runs at its base priority, or a task of its priority waits
      for another mutex that it owns. */
  lemma UnlockUndoesBoostIff(s: State, m: int)
    requires KInv(s) && MayBlock(s) && 0 <= m < |s.mutexes| && s.mutexes[m].owner == s.current
    ensures WfMutex(s, s.mutexes[m]) && Pickable(Disown(s, m), s.mutexes[m].wl)
    ensures |MutexUnlock(s, m).s.tasks| == |s.tasks|
    ensures ExactAt(MutexUnlock(s, m).s, s.current) <==>
      s.lists[s.mutexes[m].wl].waiters != [] || JustifiedAt(s, s.current)
  {
    UnlockReady(s, m);
    ExactJustified(s, s.current);
    if s.lists[s.mutexes[m].wl].waiters == [] {
      VacateKeeps(s, m);
      SameGraphExact(s, MutexUnlock(s, m).s, s.current);
    } else {
      UnlockExact(s, m, s.current);
    }
  }

  /** What a lock call that times out does for a boosted task `t`: when the call returns, `t` is
      exactly as strong as it should be precisely if it was so before, or the mutex has an owner by
      then and `t` is on the chain of owners that starts with it. */
  lemma TimeoutReleasesIff(y: Sys, t: int)
    requires SysInv(y) && Legal(y, Resume) && y.calls[y.k.current].WaitMutex? && y.k.tasks[y.k.current].timeout
    requires 0 <= t < |y.k.tasks|
    ensures Act(y, Resume).ret == Returns(Unavailable) && |Act(y, Resume).s.tasks| == |y.k.tasks|
    ensures ExactAt(Act(y, Resume).s, t) <==>
      || JustifiedAt(y.k, t)
      || (OwnerAtResume(y) != NULL && Reach(GraphOf(y.k).next, OwnerAtResume(y), t))
  {
    Ranges(y);
    ExactJustified(y.k, t);
    ResumeExactIff(y, t);
    ResumeRecomputes(y);
  }

  /** `t` is stale after every action of the run. */
  ghost predicate StaleThroughout(y: Sys, acts: seq<Action>, t: int)
    requires SysInv(y) && Run(y, acts) && 0 <= t < |y.k.tasks|
    decreases |acts|
  {
    && Wf(y.k) && !ExactAt(y.k, t)
    && (acts != [] ==> (StepKeeps(y, acts[0]); StepCall(y, acts[0], y.k.current);
                        StaleThroughout(Step(y, acts[0]), acts[1..], t)))
  }

  ghost function LeavesStale(t: int): (Sys, Action) -> bool {
    (y: Sys, a: Action) => SysInv(y) && Legal(y, a) && 0 <= t < |y.k.tasks| && !Clears(y, a, t)
  }

  /** A stale task stays stale for exactly as long as no action clears it: a tick never does. */
  lemma {:induction false} RunStaleIff(y: Sys, acts: seq<Action>, t: int)
    requires SysInv(y) && Run(y, acts) && 0 <= t < |y.k.tasks| && Wf(y.k) && !ExactAt(y.k, t)
    ensures StaleThroughout(y, acts, t) <==> Always(y, acts, LeavesStale(t))
    decreases |acts|
  {
    hide SysInv, Legal, KInv, Wf, Step, ExactAt, Clears;
    if acts != [] {
      var a := acts[0];
      StepKeeps(y, a);
      StaleStep(y, a, t);
      if ExactAt(Step(y, a).k, t) {
        assert !StaleThroughout(Step(y, a), acts[1..], t);
      } else {
        RunStaleIff(Step(y, a), acts[1..], t);
      }
    }
  }

  lemma StaleStep(y: Sys, a: Action, t: int)
    requires SysInv(y) && Legal(y, a) && 0 <= t < |y.k.tasks| && Wf(y.k) && !ExactAt(y.k, t)
    ensures |Step(y, a).k.tasks| == |y.k.tasks| && Wf(Step(y, a).k)
    ensures ExactAt(Step(y, a).k, t) <==> Clears(y, a, t)
  {
    ExactAfterIff(y, a, t);
    hide SysInv, KInv, Wf, ExactAt, Act;
  }

  // ---------------------------------------------------------------- ownership

  /** Ownership changes hands in two ways only: a free mutex is taken by the running task, and an
      owner that unlocks frees it or hands it to the waiter that waitlist_unblock selects. While
      anybody waits no third task can take it. */
  lemma OwnerChanges(y: Sys, a: Action, m: int)
    requires SysInv(y) && Legal(y, a) && 0 <= m < |y.k.mutexes|
    ensures |Act(y, a).s.mutexes| == |y.k.mutexes| && WfMutex(y.k, y.k.mutexes[m])
    ensures var o := y.k.mutexes[m].owner; var o' := Act(y, a).s.mutexes[m].owner;
      o' != o ==>
        || (a.DoLock? && a.lmutex == m && o == NULL && o' == y.k.current && y.k.lists[y.k.mutexes[m].wl].waiters == [])
        || (a.DoUnlock? && a.umutex == m && o == y.k.current && o' == Chosen(y.k, y.k.mutexes[m].wl))
    ensures a.DoUnlock? && a.umutex == m && y.k.mutexes[m].owner == y.k.current ==>
      Act(y, a).s.mutexes[m].owner == Chosen(y.k, y.k.mutexes[m].wl)
  {
    hide SysInv, KInv, Wf, MutexLock, MutexUnlock, Chosen;
    Ranges(y);
    FreeUnwaited(y.k, m);
    if a.DoLock? {
      LockOwner(y, a.lmutex, a.ltimeout);
    } else if a.DoUnlock? {
      UnlockOwner(y.k, a.umutex);
    } else {
      OwnersSame(y, a);
    }
  }

  lemma FreeUnwaited(s: State, m: int)
    requires KInv(s) && 0 <= m < |s.mutexes|
    ensures WfMutex(s, s.mutexes[m]) && (s.mutexes[m].locked <==> s.mutexes[m].owner != NULL)
    ensures !s.mutexes[m].locked ==> s.lists[s.mutexes[m].wl].waiters == []
  {
    assert OwnMutex(s, m);
  }

  lemma UnlockOwner(s: State, m: int)
    requires KInv(s) && MayBlock(s) && 0 <= m < |s.mutexes|
    ensures WfMutex(s, s.mutexes[m]) && Pickable(Disown(s, m), s.mutexes[m].wl)
    ensures OwnerMoved(s, m, MutexUnlock(s, m).s.mutexes)
  {
    UnlockReady(s, m);
    if HandsOff(s, m) {
      HandoffShape(s, m);
      HandedOwner(s, m, MutexUnlock(s, m).s);
    } else {
      VacatedOwner(s, m);
    }
  }

  /** What an unlock of `m` does to the mutexes. */
  ghost predicate OwnerMoved(s: State, m: int, r: seq<Mutex>)
    requires Wf(s) && 0 <= m < |s.mutexes| && WfMutex(s, s.mutexes[m])
  {
    && |r| == |s.mutexes| && (forall k :: 0 <= k < |r| && k != m ==> r[k] == s.mutexes[k])
    && (s.mutexes[m].owner != s.current ==> r[m] == s.mutexes[m])
    && (s.mutexes[m].owner == s.current ==> r[m].owner == Chosen(s, s.mutexes[m].wl))
  }

  lemma HandedOwner(s: State, m: int, r: State)
    requires HandsOff(s, m) && Handed(s, r, m, Chosen(s, s.mutexes[m].wl))
    ensures OwnerMoved(s, m, r.mutexes)
  {
    hide KInv, Wf, Chosen;
  }

  lemma VacatedOwner(s: State, m: int)
    requires KInv(s) && MayBlock(s) && 0 <= m < |s.mutexes| && Wf(s) && WfMutex(s, s.mutexes[m])
    requires !HandsOff(s, m) && Pickable(Disown(s, m), s.mutexes[m].wl)
    ensures OwnerMoved(s, m, MutexUnlock(s, m).s.mutexes)
  {
    hide KInv, Wf;
  }

  lemma LockOwner(y: Sys, m: int, n: int)
    requires SysInv(y) && Legal(y, DoLock(m, n))
    ensures var r := MutexLock(y.k, m, n).s.mutexes;
      || r == y.k.mutexes
      || (!y.k.mutexes[m].locked
          && r == y.k.mutexes[m := y.k.mutexes[m].(owner := y.k.current, locked := true)])
  {
    LockEffect(y.k, m, n);
    if MutexLock(y.k, m, n).ret == Blocks {
      assert OwnMutex(y.k, m) && WfList(y.k, y.k.lists[y.k.mutexes[m].wl]);
      LockBlockKeeps(y.k, m, n);
    }
  }

  lemma OwnersSame(y: Sys, a: Action)
    requires SysInv(y) && Legal(y, a) && !a.DoLock? && !a.DoUnlock?
    ensures Act(y, a).s.mutexes == y.k.mutexes
  {
    hide SysInv, KInv, Wf;
    Ranges(y);
    var k := y.k;
    if a.TickIrq? {
      TickEffect(k);
    } else if a.Switch? {
      SwitchEffect(k);
    } else if a.IsrPut? {
      IsrPutEffect(k, a.iq, a.iitem);
    } else if a.IsrGet? {
      RecvEffect(k, a.gq, 0, k.tick);
      StallEffect(k, k.queues[a.gq].rwl, 0, k.tick);
    } else if a.DoWait? {
      WaitEffect(k, a.wsem, a.wtimeout);
    } else if a.DoPost? {
      PostEffect(k, a.psem);
    } else if a.DoSend? {
      SendEffect(k, a.dq, a.ditem, a.dtimeout, DeadlineOf(k.tick, a.dtimeout));
    } else if a.DoRecv? {
      RecvEffect(k, a.vq, a.vtimeout, DeadlineOf(k.tick, a.vtimeout));
    } else if a.Resume? {
      ResumeOwners(y);
    }
  }

  lemma ResumeOwners(y: Sys)
    requires SysInv(y) && Legal(y, Resume)
    ensures Continue(y).s.mutexes == y.k.mutexes
  {
    hide SysInv, KInv, Wf;
    Ranges(y);
    var c := y.calls[y.k.current];
    if c.WaitSem? || c.WaitMutex? || y.k.tasks[y.k.current].timeout {
      ResumeEffect(y);
    } else if c.Sending? {
      SendEffect(y.k, c.sq, c.item, c.stimeout, c.sdeadline);
    } else {
      RecvEffect(y.k, c.rq, c.rtimeout, c.rdeadline);
    }
  }
}
