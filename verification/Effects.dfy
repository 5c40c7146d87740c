/** What a single action does to each task's wait fields and to each wait list. */
module Effects {
  import opened Types
  import opened Inheritance
  import opened Spec
  import opened Invariants
  import opened Preserve
  import opened Handoff
  import opened Runs

  /** Equal up to priority and owned mutexes. */
  predicate SameWait(x: Task, x': Task) {
    x' == x.(eff := x'.eff, owned := x'.owned)
  }

  /** Queues keep their lists, sizes and number; other tables keep their lengths. */
  ghost predicate SameTables(s: State, r: State) {
    && |r.queues| == |s.queues| && |r.sems| == |s.sems| && |r.mutexes| == |s.mutexes|
    && (forall q :: 0 <= q < |r.queues| ==>
        r.queues[q] == s.queues[q].(items := r.queues[q].items, dropped := r.queues[q].dropped))
  }

  function PutRelease(k: State, q: int): int
    requires 0 <= q < |k.queues|
  {
    if |k.queues[q].items| < k.queues[q].maxItems then k.queues[q].rwl else NULL
  }

  function GetRelease(k: State, q: int): int
    requires 0 <= q < |k.queues|
  {
    if k.queues[q].items != [] then k.queues[q].swl else NULL
  }

  /** The wait list that the action applies waitlist_unblock to, NULL if none. */
  ghost function ReleaseList(y: Sys, a: Action): (l: int)
    requires SysInv(y) && Legal(y, a)
    ensures l == NULL || 0 <= l < |y.k.lists|
  {
    var k := y.k;
    assert forall q :: 0 <= q < |k.queues| ==> WfQueue(k, k.queues[q]);
    assert forall m :: 0 <= m < |k.mutexes| ==> WfMutex(k, k.mutexes[m]);
    match a
    case IsrPut(q, _) => PutRelease(k, q)
    case IsrGet(q) => GetRelease(k, q)
    case DoPost(i) => k.sems[i].wl
    case DoUnlock(m) => if k.mutexes[m].owner == k.current then k.mutexes[m].wl else NULL
    case DoSend(q, _, _) => PutRelease(k, q)
    case DoRecv(q, _) => GetRelease(k, q)
    case Resume =>
      assert CallOk(y, k.current);
      if k.tasks[k.current].timeout then NULL
      else if y.calls[k.current].Sending? then PutRelease(k, y.calls[k.current].sq)
      else if y.calls[k.current].Receiving? then GetRelease(k, y.calls[k.current].rq)
      else NULL
    case _ => NULL
  }

  /** The task that the action releases from a wait list, NULL if none. */
  ghost function Released(y: Sys, a: Action): (t: int)
    requires SysInv(y) && Legal(y, a)
    ensures t == NULL || 0 <= t < |y.k.tasks|
  {
    var l := ReleaseList(y, a);
    if l == NULL then NULL else Chosen(y.k, l)
  }

  /** The wait list that the current task joins if the action blocks it in a primitive. */
  ghost function BlockList(y: Sys, a: Action): (l: int)
    requires SysInv(y) && Legal(y, a) && Act(y, a).ret == Blocks
    ensures 0 <= l < |y.k.lists|
  {
    var k := y.k;
    assert CallOk(y, k.current);
    assert forall q :: 0 <= q < |k.queues| ==> WfQueue(k, k.queues[q]);
    assert forall m :: 0 <= m < |k.mutexes| ==> WfMutex(k, k.mutexes[m]);
    NeverBlocks(y, a);
    match CallOf(y, a)
    case WaitSem(i) => k.sems[i].wl
    case WaitMutex(m) => k.mutexes[m].wl
    case Sending(q, _, _, _) => k.queues[q].swl
    case Receiving(q, _, _) => k.queues[q].rwl
  }

  lemma NeverBlocks(y: Sys, a: Action)
    requires SysInv(y) && Legal(y, a) && Act(y, a).ret == Blocks
    ensures a.DoWait? || a.DoLock? || a.DoSend? || a.DoRecv? ||
      (a.Resume? && (y.calls[y.k.current].Sending? || y.calls[y.k.current].Receiving?))
    ensures TaskRuns(y) && CallFits(y.k, CallOf(y, a)) && CallOf(y, a) != NoCall
  {
    var k := y.k;
    assert CallOk(y, k.current);
    match a
    case IsrPut(q, x) =>
    case IsrGet(q) =>
    case DoUnlock(m) => UnlockReady(k, m);
    case _ =>
  }

  /** The lists and wait fields after a release of list `l`. */
  ghost predicate AfterRelease(s: State, r: State, l: int)
    requires Wf(s) && (l == NULL || 0 <= l < |s.lists|)
  {
    && |r.tasks| == |s.tasks| && |r.lists| == |s.lists|
    && r.tick == s.tick && r.current == s.current
    && (l == NULL || Chosen(s, l) == NULL ==>
          r.lists == s.lists && forall t :: 0 <= t < |s.tasks| ==> SameWait(s.tasks[t], r.tasks[t]))
    && (l != NULL && Chosen(s, l) != NULL ==>
          && r.pending
          && r.lists == s.lists[l := s.lists[l].(waiters := RemoveAt(s.lists[l].waiters, Pick(s, l)))]
          && SameWait(Woken(s.tasks[Chosen(s, l)], false), r.tasks[Chosen(s, l)])
          && forall t :: 0 <= t < |s.tasks| && t != Chosen(s, l) ==> SameWait(s.tasks[t], r.tasks[t]))
  }

  /** The lists and wait fields after the current task blocked on list `l`. */
  ghost predicate AfterBlock(s: State, r: State, l: int)
    requires Wf(s) && 0 <= l < |s.lists|
  {
    && |r.tasks| == |s.tasks| && |r.lists| == |s.lists|
    && r.tick == s.tick && r.current == s.current && r.pending
    && r.lists == s.lists[l := s.lists[l].(waiters := s.lists[l].waiters + [s.current])]
    && SameWait(s.tasks[s.current].(state := Blocked, reason := ReasonOf(s.lists[l].home), blockedOn := l,
                                    wakeup := r.tasks[s.current].wakeup), r.tasks[s.current])
    && forall t :: 0 <= t < |s.tasks| && t != s.current ==> SameWait(s.tasks[t], r.tasks[t])
  }

  /** A release or a block seen from one list. */
  lemma ListAfter(s: State, r: State, e: int, l: int)
    requires Wf(s) && 0 <= l < |s.lists| && (e == NULL || 0 <= e < |s.lists|)
    ensures AfterRelease(s, r, e) ==>
      && |r.lists| == |s.lists|
      && (e == l && Chosen(s, l) != NULL ==>
          r.lists[l] == s.lists[l].(waiters := RemoveAt(s.lists[l].waiters, Pick(s, l))))
      && (e != l || Chosen(s, l) == NULL ==> r.lists[l] == s.lists[l])
    ensures e != NULL && AfterBlock(s, r, e) ==>
      && |r.lists| == |s.lists|
      && (e == l ==> r.lists[l] == s.lists[l].(waiters := s.lists[l].waiters + [s.current]))
      && (e != l ==> r.lists[l] == s.lists[l])
  {
  }

  lemma ReleaseEffect(s: State, l: int)
    requires KInv(s) && 0 <= l < |s.lists|
    ensures Pickable(s, l) && AfterRelease(s, Release(s, l), l)
    ensures Release(s, l).queues == s.queues && Release(s, l).sems == s.sems
    ensures Chosen(s, l) == NULL ==> Release(s, l) == s
  {
    AlwaysPickable(s, l);
  }

  lemma BlockEffect(s: State, l: int, timeout: int)
    requires KInv(s) && 0 <= l < |s.lists| && MayBlock(s) && Word(timeout)
    ensures BlockOn(s, l, timeout).ret == Blocks
    ensures var r := BlockOn(s, l, timeout).s;
      AfterBlock(s, r, l) && r.tasks[s.current].wakeup == DeadlineOf(s.tick, timeout)
      && r.queues == s.queues && r.sems == s.sems
  {
    ListHasRoom(s, l);
  }

  /** A queue call never blocks past a deadline: it blocks with exactly the deadline it was given. */
  lemma StallEffect(s: State, l: int, timeout: int, deadline: int)
    requires KInv(s) && 0 <= l < |s.lists| && (timeout == 0 || MayBlock(s)) && Word(timeout) && Word(deadline)
    ensures var r := QueueStall(s, l, timeout, deadline);
      && (r.ret == Returns(Unavailable) || r.ret == Blocks)
      && (r.ret == Returns(Unavailable) <==> timeout == 0 || (deadline != 0 && Elapsed(s.tick, deadline)))
      && (r.ret == Returns(Unavailable) ==> r.s == s) && r.s.mutexes == s.mutexes
      && (r.ret == Blocks ==> AfterBlock(s, r.s, l) && r.s.tasks[s.current].wakeup == deadline
                              && r.s.queues == s.queues && r.s.sems == s.sems)
  {
    if !(timeout == 0 || (deadline != 0 && Elapsed(s.tick, deadline))) {
      BlockEffect(s, l, Remaining(s, deadline));
    }
  }

  /** A change of queue contents does not disturb what a release does. */
  lemma ReleaseOver(s: State, p: State, l: int)
    requires KInv(s) && Wf(p) && SameCore(s, p) && p.tick == s.tick && p.current == s.current && 0 <= l < |s.lists|
    requires p.mutexes == s.mutexes && p.sems == s.sems && SameTables(s, p)
    ensures Pickable(p, l) && Pickable(s, l)
    ensures var r := Release(p, l);
      && AfterRelease(s, r, l) && r.queues == p.queues && r.sems == s.sems && r.mutexes == s.mutexes && SameTables(s, r)
  {
    CoreFrame(s, p);
    PickFrame(s, p, l);
    ReleaseEffect(s, l);
    ReleaseEffect(p, l);
    hide KInv, Wf;
  }

  lemma AnyPickable(s: State, l: int)
    requires KInv(s) && 0 <= l < |s.lists|
    ensures Pickable(s, l)
  {
    AlwaysPickable(s, l);
  }

  lemma SendEffect(s: State, q: int, item: Item, timeout: int, deadline: int)
    requires KInv(s) && 0 <= q < |s.queues| && |item| == s.queues[q].itemSize
    requires Word(timeout) && Word(deadline) && (timeout == 0 || MayBlock(s))
    ensures WfQueue(s, s.queues[q]) && Pickable(s, s.queues[q].rwl)
    ensures var x := s.queues[q]; var r := QueueSend(s, q, item, timeout, deadline);
      && r.s.sems == s.sems && r.s.mutexes == s.mutexes && SameTables(s, r.s)
      && (PutRelease(s, q) != NULL ==>
          && r.ret == Returns(Ok) && AfterRelease(s, r.s, x.rwl)
          && r.s.queues == s.queues[q := x.(items := x.items + [item])])
      && (PutRelease(s, q) == NULL ==> r.s.queues == s.queues && r == QueueStall(s, x.swl, timeout, deadline))
  {
    hide KInv, Wf, AfterRelease, AfterBlock, Release, QueueStall, Pickable, Pick;
    KRanges(s);
    var x := s.queues[q];
    AnyPickable(s, x.rwl);
    if |x.items| < x.maxItems {
      ReleaseOver(s, PutItem(s, q, item), x.rwl);
    } else {
      StallEffect(s, x.swl, timeout, deadline);
    }
  }

  lemma RecvEffect(s: State, q: int, timeout: int, deadline: int)
    requires KInv(s) && 0 <= q < |s.queues|
    requires Word(timeout) && Word(deadline) && (timeout == 0 || MayBlock(s))
    ensures WfQueue(s, s.queues[q]) && Pickable(s, s.queues[q].swl)
    ensures var x := s.queues[q]; var r := QueueRecv(s, q, timeout, deadline);
      && r.s.sems == s.sems && r.s.mutexes == s.mutexes && SameTables(s, r.s)
      && (GetRelease(s, q) != NULL ==>
          && r.ret == Gives(x.items[0]) && AfterRelease(s, r.s, x.swl)
          && r.s.queues == s.queues[q := x.(items := x.items[1..])])
      && (GetRelease(s, q) == NULL ==> r.s.queues == s.queues && r == QueueStall(s, x.rwl, timeout, deadline))
  {
    hide KInv, Wf, AfterRelease, AfterBlock, Release, QueueStall, Pickable, Pick;
    KRanges(s);
    var x := s.queues[q];
    AnyPickable(s, x.swl);
    if x.items != [] {
      ReleaseOver(s, TakeItem(s, q), x.swl);
    } else {
      StallEffect(s, x.rwl, timeout, deadline);
    }
  }

  lemma KRanges(s: State)
    requires KInv(s)
    ensures Wf(s) && Word(s.tick) && 0 <= s.current < |s.tasks|
    ensures forall q :: 0 <= q < |s.queues| ==> WfQueue(s, s.queues[q])
  {
  }

  lemma Ranges(y: Sys)
    requires SysInv(y)
    ensures KInv(y.k) && Wf(y.k) && |y.calls| == |y.k.tasks| && 0 <= y.k.current < |y.k.tasks| && Word(y.k.tick)
    ensures forall q :: 0 <= q < |y.k.queues| ==> WfQueue(y.k, y.k.queues[q])
    ensures forall m :: 0 <= m < |y.k.mutexes| ==> WfMutex(y.k, y.k.mutexes[m])
    ensures forall i :: 0 <= i < |y.k.sems| ==> 0 <= y.k.sems[i].wl < |y.k.lists|
    ensures CallOk(y, y.k.current)
    ensures y.k.pending || |y.calls| == 1 || y.k.tasks[y.k.current].state == Running
  {
  }

  lemma DropEffect(s: State, o: State, r: State, l: int)
    requires Wf(s) && (l == NULL || 0 <= l < |s.lists|) && AfterRelease(s, o, l) && r == o.(queues := r.queues)
    ensures AfterRelease(s, r, l)
  {
  }

  lemma IsrPutEffect(s: State, q: int, item: Item)
    requires KInv(s) && 0 <= q < |s.queues| && |item| == s.queues[q].itemSize
    ensures WfQueue(s, s.queues[q]) && Pickable(s, s.queues[q].rwl)
    ensures var x := s.queues[q]; var r := IsrSend(s, q, item);
      && r.s.sems == s.sems && r.ret != Blocks && SameTables(s, r.s)
      && (r.ret == Returns(Ok) <==> PutRelease(s, q) != NULL)
      && (PutRelease(s, q) != NULL ==> r.s.queues == s.queues[q := x.(items := x.items + [item])])
      && (PutRelease(s, q) == NULL ==> r.s.queues == s.queues[q := x.(dropped := (x.dropped + 1) % U32)])
      && AfterRelease(s, r.s, PutRelease(s, q)) && r.s.mutexes == s.mutexes
  {
    hide KInv, Wf;
    KRanges(s);
    SendEffect(s, q, item, 0, s.tick);
    StallEffect(s, s.queues[q].swl, 0, s.tick);
    DropEffect(s, QueueSend(s, q, item, 0, s.tick).s, IsrSend(s, q, item).s, PutRelease(s, q));
  }

  lemma WaitEffect(s: State, i: int, timeout: int)
    requires KInv(s) && MayBlock(s) && 0 <= i < |s.sems| && Word(timeout)
    ensures var x := s.sems[i]; var r := SemWait(s, i, timeout);
      && r.s.queues == s.queues && r.s.mutexes == s.mutexes
      && (r.ret == Blocks <==> x.count == 0 && timeout != 0)
      && (r.ret == Blocks ==> r.s.sems == s.sems && AfterBlock(s, r.s, x.wl)
                              && r.s.tasks[s.current].wakeup == DeadlineOf(s.tick, timeout))
      && (r.ret != Blocks ==> AfterRelease(s, r.s, NULL))
      && (x.count > 0 ==> r.ret == Returns(Ok) && r.s.sems == s.sems[i := x.(count := x.count - 1)])
      && (x.count == 0 && timeout == 0 ==> r.ret == Returns(Unavailable) && r.s == s)
  {
    if s.sems[i].count == 0 && timeout != 0 {
      BlockEffect(s, s.sems[i].wl, timeout);
    }
  }

  lemma PostEffect(s: State, i: int)
    requires KInv(s) && 0 <= i < |s.sems|
    ensures var x := s.sems[i];
      && Pickable(s, x.wl) && AfterRelease(s, SemPost(s, i), x.wl)
      && SemPost(s, i).queues == s.queues && SemPost(s, i).mutexes == s.mutexes
      && (Chosen(s, x.wl) == NULL <==> s.lists[x.wl].waiters == [])
      && SemPost(s, i).sems ==
         if Chosen(s, x.wl) == NULL then s.sems[i := x.(count := (x.count + 1) % 256)] else s.sems
  {
    AlwaysPickable(s, s.sems[i].wl);
    ReleaseEffect(s, s.sems[i].wl);
  }

  lemma HandedEffect(s: State, r: State, m: int, b: int)
    requires IsMutex(s, m) && Handed(s, r, m, b) && r.pending && r.tick == s.tick
    ensures AfterRelease(s, r, s.mutexes[m].wl)
  {
  }

  lemma UnlockEffect(s: State, m: int)
    requires KInv(s) && MayBlock(s) && 0 <= m < |s.mutexes|
    ensures WfMutex(s, s.mutexes[m]) && Pickable(Disown(s, m), s.mutexes[m].wl)
    ensures AfterRelease(s, MutexUnlock(s, m).s, if s.mutexes[m].owner == s.current then s.mutexes[m].wl else NULL)
    ensures MutexUnlock(s, m).s.queues == s.queues && MutexUnlock(s, m).s.sems == s.sems
    ensures |MutexUnlock(s, m).s.mutexes| == |s.mutexes|
    ensures MutexUnlock(s, m).ret == Returns(if s.mutexes[m].owner == s.current then Ok else NotOwner)
  {
    UnlockReady(s, m);
    if s.mutexes[m].owner == s.current && s.lists[s.mutexes[m].wl].waiters != [] {
      HandoffShape(s, m);
      HandedEffect(s, MutexUnlock(s, m).s, m, Chosen(s, s.mutexes[m].wl));
    }
  }

  lemma LockEffect(s: State, m: int, timeout: int)
    requires KInv(s) && MayBlock(s) && 0 <= m < |s.mutexes| && Word(timeout)
    requires HasRoom(s, m, timeout)
    ensures WfMutex(s, s.mutexes[m])
    ensures var r := MutexLock(s, m, timeout);
      && r.s.queues == s.queues && r.s.sems == s.sems && |r.s.mutexes| == |s.mutexes|
      && (r.ret == Blocks <==> s.mutexes[m].locked && s.mutexes[m].owner != s.current && timeout != 0)
      && (r.ret == Blocks ==>
          AfterBlock(s, r.s, s.mutexes[m].wl) && r.s.tasks[s.current].wakeup == DeadlineOf(s.tick, timeout))
      && (r.ret != Blocks ==> AfterRelease(s, r.s, NULL))
  {
    assert OwnMutex(s, m);
    if s.mutexes[m].locked && s.mutexes[m].owner != s.current && timeout != 0 {
      assert WfList(s, s.lists[s.mutexes[m].wl]);
      LockBlockKeeps(s, m, timeout);
    }
  }

  lemma ResumeEffect(y: Sys)
    requires SysInv(y) && Legal(y, Resume)
    requires y.calls[y.k.current].WaitSem? || y.calls[y.k.current].WaitMutex? || y.k.tasks[y.k.current].timeout
    ensures AfterRelease(y.k, Continue(y).s, NULL) && Continue(y).ret == Returns(Verdict(y.k))
    ensures Continue(y).s.queues == y.k.queues && Continue(y).s.sems == y.k.sems && Continue(y).s.mutexes == y.k.mutexes
  {
    var k := y.k;
    assert CallOk(y, k.current);
    if y.calls[k.current].WaitMutex? {
      assert WfMutex(k, k.mutexes[y.calls[k.current].mutex]);
    }
  }

  /** The wake-up tick with which the action blocks its caller. */
  function WakeupOf(y: Sys, a: Action): int
    requires 0 <= y.k.current < |y.calls|
  {
    match a
    case DoWait(_, n) => DeadlineOf(y.k.tick, n)
    case DoLock(_, n) => DeadlineOf(y.k.tick, n)
    case _ =>
      match CallOf(y, a)
      case Sending(_, _, _, d) => d
      case Receiving(_, _, d) => d
      case _ => 0
  }

  /** An action of a task or a device either releases one list or blocks its caller. */
  ghost predicate Effective(y: Sys, a: Action)
    requires SysInv(y) && Legal(y, a)
  {
    && SameTables(y.k, Act(y, a).s)
    && (if Act(y, a).ret == Blocks then AfterBlock(y.k, Act(y, a).s, BlockList(y, a))
        else AfterRelease(y.k, Act(y, a).s, ReleaseList(y, a)))
    && (Act(y, a).ret == Blocks ==> Act(y, a).s.tasks[y.k.current].wakeup == WakeupOf(y, a))
  }

  lemma ActEffect(y: Sys, a: Action)
    requires SysInv(y) && Legal(y, a) && !a.TickIrq? && !a.Switch? && !a.DoDelay?
    ensures Effective(y, a)
  {
    hide *;
    if a.IsrPut? || a.IsrGet? {
      IsrEffective(y, a);
    } else if a.DoWait? || a.DoPost? {
      SemEffective(y, a);
    } else if a.DoLock? || a.DoUnlock? {
      MutexEffective(y, a);
    } else if a.DoSend? || a.DoRecv? {
      QueueEffective(y, a);
    } else {
      ContinueEffect(y);
    }
  }

  lemma IsrEffective(y: Sys, a: Action)
    requires SysInv(y) && Legal(y, a) && (a.IsrPut? || a.IsrGet?)
    ensures Effective(y, a)
  {
    hide SysInv, KInv, Wf;
    Ranges(y);
    if a.IsrPut? {
      IsrPutEffect(y.k, a.iq, a.iitem);
    } else {
      RecvEffect(y.k, a.gq, 0, y.k.tick);
      StallEffect(y.k, y.k.queues[a.gq].rwl, 0, y.k.tick);
    }
  }

  lemma SemEffective(y: Sys, a: Action)
    requires SysInv(y) && Legal(y, a) && (a.DoWait? || a.DoPost?)
    ensures Effective(y, a)
  {
    hide SysInv, KInv, Wf;
    Ranges(y);
    if a.DoWait? {
      WaitEffect(y.k, a.wsem, a.wtimeout);
    } else {
      PostEffect(y.k, a.psem);
    }
  }

  lemma MutexEffective(y: Sys, a: Action)
    requires SysInv(y) && Legal(y, a) && (a.DoLock? || a.DoUnlock?)
    ensures Effective(y, a)
  {
    hide SysInv, KInv, Wf;
    Ranges(y);
    if a.DoLock? {
      LockEffect(y.k, a.lmutex, a.ltimeout);
    } else {
      UnlockEffect(y.k, a.umutex);
    }
  }

  lemma QueueEffective(y: Sys, a: Action)
    requires SysInv(y) && Legal(y, a) && (a.DoSend? || a.DoRecv?)
    ensures Effective(y, a)
  {
    hide SysInv, KInv, Wf;
    Ranges(y);
    if a.DoSend? {
      var d := DeadlineOf(y.k.tick, a.dtimeout);
      SendEffect(y.k, a.dq, a.ditem, a.dtimeout, d);
      StallCase(y.k, a.dq, a.dtimeout, d);
    } else {
      var d := DeadlineOf(y.k.tick, a.vtimeout);
      RecvEffect(y.k, a.vq, a.vtimeout, d);
      StallCase(y.k, a.vq, a.vtimeout, d);
    }
  }

  lemma StallCase(s: State, q: int, n: int, d: int)
    requires KInv(s) && 0 <= q < |s.queues| && (n == 0 || MayBlock(s)) && Word(n) && Word(d)
    ensures WfQueue(s, s.queues[q])
    ensures forall l :: l == s.queues[q].swl || l == s.queues[q].rwl ==>
      var r := QueueStall(s, l, n, d);
      && SameTables(s, r.s)
      && (r.ret == Blocks ==> AfterBlock(s, r.s, l) && r.s.tasks[s.current].wakeup == d)
      && (r.ret != Blocks ==> AfterRelease(s, r.s, NULL))
  {
    assert WfQueue(s, s.queues[q]);
    StallEffect(s, s.queues[q].swl, n, d);
    StallEffect(s, s.queues[q].rwl, n, d);
  }

  lemma ContinueEffect(y: Sys)
    requires SysInv(y) && Legal(y, Resume)
    ensures Effective(y, Resume)
  {
    var k := y.k;
    var c := y.calls[k.current];
    Ranges(y);
    if c.WaitSem? || c.WaitMutex? || k.tasks[k.current].timeout {
      ResumeEffect(y);
    } else if c.Sending? {
      ContinueSend(y);
    } else {
      ContinueRecv(y);
    }
  }

  lemma ContinueSend(y: Sys)
    requires SysInv(y) && Legal(y, Resume) && y.calls[y.k.current].Sending? && !y.k.tasks[y.k.current].timeout
    ensures Effective(y, Resume)
  {
    hide SysInv, KInv, Wf;
    Ranges(y);
    var c := y.calls[y.k.current];
    SendEffect(y.k, c.sq, c.item, c.stimeout, c.sdeadline);
    StallCase(y.k, c.sq, c.stimeout, c.sdeadline);
  }

  lemma ContinueRecv(y: Sys)
    requires SysInv(y) && Legal(y, Resume) && y.calls[y.k.current].Receiving? && !y.k.tasks[y.k.current].timeout
    ensures Effective(y, Resume)
  {
    hide SysInv, KInv, Wf;
    Ranges(y);
    var c := y.calls[y.k.current];
    RecvEffect(y.k, c.rq, c.rtimeout, c.rdeadline);
    StallCase(y.k, c.rq, c.rtimeout, c.rdeadline);
  }

  // ---------------------------------------------------------------- ticks and switches

  /** `r` is `s` after the loop of unblock_tasks has passed the tasks below `n`: the due ones have
      been made ready and taken off their lists. */
  ghost predicate Swept(s: State, r: State, n: nat)
    requires n <= |s.tasks|
  {
    && r == s.(tasks := r.tasks, lists := r.lists) && |r.tasks| == |s.tasks| && |r.lists| == |s.lists|
    && (forall t :: 0 <= t < |s.tasks| ==>
        r.tasks[t] == if 0 < t < n && Due(s, t) then Woken(s.tasks[t], s.tasks[t].blockedOn != NULL) else s.tasks[t])
    && (forall l :: 0 <= l < |s.lists| ==>
        r.lists[l] == s.lists[l].(waiters := r.lists[l].waiters) && Thinned(s.lists[l].waiters, r.lists[l].waiters))
  }

  lemma {:induction false} WakeBelowEffect(s: State, n: nat)
    requires KInv(s) && n <= |s.tasks|
    ensures Swept(s, WakeBelow(s, n), n)
    decreases n
  {
    if n > 1 {
      WakeBelowEffect(s, n - 1);
      WakeBelowKeeps(s, n - 1);
      SweepOne(s, WakeBelow(s, n - 1), n - 1);
    } else {
      forall l | 0 <= l < |s.lists|
        ensures Thinned(s.lists[l].waiters, s.lists[l].waiters)
      {
        ThinnedSame(s.lists[l].waiters);
      }
    }
  }

  lemma SweepOne(s: State, p: State, t: int)
    requires KInv(p) && 0 < t < |s.tasks| && Swept(s, p, t)
    ensures Swept(s, WakeIfDue(p, t), t + 1)
  {
    if Due(p, t) {
      WakeShape(p, t);
      var l := p.tasks[t].blockedOn;
      assert AgreeTask(p, t);
      if l != NULL {
        ThinnedRemove(s.lists[l].waiters, p.lists[l].waiters, IndexOf(p.lists[l].waiters, t));
      }
    }
    hide KInv, Wf;
  }

  /** `b` is `a` with some entries removed and the order of the others kept. */
  ghost predicate Thinned(a: seq<int>, b: seq<int>)
    decreases |a|
  {
    if a == [] then b == []
    else Thinned(a[1..], b) || (b != [] && b[0] == a[0] && Thinned(a[1..], b[1..]))
  }

  lemma {:induction false} ThinnedSame(a: seq<int>)
    ensures Thinned(a, a)
  {
    if a != [] {
      ThinnedSame(a[1..]);
    }
  }

  lemma {:induction false} ThinnedRemove(a: seq<int>, b: seq<int>, i: int)
    requires Thinned(a, b)
    ensures 0 <= i < |b| ==> Thinned(a, RemoveAt(b, i))
    decreases |a|
  {
    if 0 <= i < |b| {
      if Thinned(a[1..], b) {
        ThinnedRemove(a[1..], b, i);
      } else if i == 0 {
        assert RemoveAt(b, 0) == b[1..];
      } else {
        ThinnedRemove(a[1..], b[1..], i - 1);
        assert RemoveAt(b, i)[1..] == RemoveAt(b[1..], i - 1);
      }
    }
  }

  lemma TickEffect(s: State)
    requires KInv(s)
    ensures var r := Tick(s); var s1 := Advance(s);
      && r == s.(tick := (s.tick + 1) % U32, tasks := r.tasks, lists := r.lists, pending := true)
      && |r.tasks| == |s.tasks| && |r.lists| == |s.lists|
      && (forall t :: 0 <= t < |s.tasks| ==>
          r.tasks[t] == if t != 0 && Due(s1, t) then Woken(s.tasks[t], s.tasks[t].blockedOn != NULL) else s.tasks[t])
      && (forall l :: 0 <= l < |s.lists| ==>
          r.lists[l] == s.lists[l].(waiters := r.lists[l].waiters) && Thinned(s.lists[l].waiters, r.lists[l].waiters))
  {
    CoreFrame(s, Advance(s));
    WakeBelowEffect(Advance(s), |s.tasks|);
  }

  lemma SwitchEffect(s: State)
    requires KInv(s)
    ensures var r := Dispatch(s);
      && r == s.(tasks := r.tasks, current := r.current, pending := false) && |r.tasks| == |s.tasks|
      && 0 <= r.current < |s.tasks|
      && (forall t :: 0 <= t < |s.tasks| ==> r.tasks[t] == s.tasks[t].(state := r.tasks[t].state))
      && (forall t :: 0 <= t < |s.tasks| ==> (r.tasks[t].state == Blocked <==> s.tasks[t].state == Blocked))
      && (|s.tasks| > 1 ==> r.tasks[r.current].state == Running)
  {
    DispatchPick(s);
    assert AgreeTask(s, 0);
  }

  // ---------------------------------------------------------------- the run invariant is kept

  /** A call still fits: queues keep their item sizes and tables their lengths. */
  lemma FitsKept(s: State, r: State, c: Call)
    requires SameTables(s, r) && CallFits(s, c)
    ensures CallFits(r, c)
  {
  }

  lemma CallKept(y: Sys, a: Action, t: int)
    requires SysInv(y) && Legal(y, a) && 0 <= t < |y.calls| && !a.TickIrq? && !a.Switch? && !a.DoDelay?
    ensures |Step(y, a).calls| == |Step(y, a).k.tasks| == |y.k.tasks| && CallOk(Step(y, a), t)
  {
    var r := Act(y, a);
    assert CallOk(y, t);
    ActEffect(y, a);
    assert WfTask(r.s, r.s.tasks[t]);
    FitsKept(y.k, r.s, y.calls[t]);
    if r.ret == Blocks {
      CallBlocked(y, a, t);
    } else {
      CallReleased(y, a, t);
    }
  }

  lemma CallBlocked(y: Sys, a: Action, t: int)
    requires SysInv(y) && Legal(y, a) && 0 <= t < |y.calls| && Effective(y, a) && Act(y, a).ret == Blocks
    requires CallFits(Act(y, a).s, y.calls[t]) && WfTask(Act(y, a).s, Act(y, a).s.tasks[t])
    ensures CallOk(Step(y, a), t)
  {
    hide SysInv, KInv, Wf, Act, Legal, BlockList;
    Ranges(y);
    CallHolds(y, t);
    NeverBlocks(y, a);
    FitsKept(y.k, Act(y, a).s, CallOf(y, a));
    BlockHome(y, a);
    assert t != y.k.current ==> SameWait(y.k.tasks[t], Act(y, a).s.tasks[t]);
  }

  lemma CallHolds(y: Sys, t: int)
    requires SysInv(y) && 0 <= t < |y.calls|
    ensures |y.calls| == |y.k.tasks| && Wf(y.k) && CallOk(y, t)
  {
  }

  lemma RunnerFree(y: Sys)
    requires SysInv(y) && Wf(y.k) && TaskRuns(y)
    ensures y.k.tasks[y.k.current].blockedOn == NULL
  {
    assert AgreeTask(y.k, y.k.current);
  }

  lemma CallReleased(y: Sys, a: Action, t: int)
    requires SysInv(y) && Legal(y, a) && 0 <= t < |y.calls| && Effective(y, a) && Act(y, a).ret != Blocks
    requires CallFits(Act(y, a).s, y.calls[t]) && WfTask(Act(y, a).s, Act(y, a).s.tasks[t])
    ensures CallOk(Step(y, a), t)
  {
    hide SysInv, KInv, Wf, Act, ReleaseList;
    var r := Act(y, a);
    Ranges(y);
    CallHolds(y, t);
    if a.Resume? {
      RunnerFree(y);
    }
    if t == Released(y, a) {
      assert r.s.tasks[t].blockedOn == NULL && r.s.tasks[t].state == Ready;
    } else {
      assert SameWait(y.k.tasks[t], r.s.tasks[t]);
    }
  }

  lemma QueuesKept(y: Sys, a: Action)
    requires SysInv(y) && Legal(y, a)
    ensures SameTables(y.k, Act(y, a).s)
  {
    if a.TickIrq? {
      TickEffect(y.k);
    } else if a.Switch? {
      SwitchEffect(y.k);
    } else if !a.DoDelay? {
      ActEffect(y, a);
    }
  }

  lemma BlockHome(y: Sys, a: Action)
    requires SysInv(y) && Legal(y, a) && Act(y, a).ret == Blocks
    ensures CallAt(CallOf(y, a), y.k.lists[BlockList(y, a)].home)
  {
    NeverBlocks(y, a);
    Ranges(y);
    var c := CallOf(y, a);
    if c.WaitMutex? {
      assert OwnMutex(y.k, c.mutex);
    } else if c.Sending? {
      assert WfQueue(y.k, y.k.queues[c.sq]);
    } else if c.Receiving? {
      assert WfQueue(y.k, y.k.queues[c.rq]);
    }
  }

  /** Every action keeps the run invariant. */
  lemma StepKeeps(y: Sys, a: Action)
    requires SysInv(y) && Legal(y, a)
    ensures SysInv(Step(y, a))
  {
    ActKeeps(y, a);
    var z := Step(y, a);
    Ranges(y);
    StepCall(y, a, y.k.current);
    hide KInv;
    hide Wf;
    forall t | 0 <= t < |z.calls|
      ensures CallOk(z, t)
    {
      StepCall(y, a, t);
    }
    if !(z.k.pending || |z.calls| == 1) {
      StepRunning(y, a);
    }
  }

  lemma StepCall(y: Sys, a: Action, t: int)
    requires SysInv(y) && Legal(y, a) && 0 <= t < |y.calls|
    ensures |Step(y, a).calls| == |Step(y, a).k.tasks| == |y.k.tasks| && CallOk(Step(y, a), t)
  {
    if a.TickIrq? {
      TickCall(y, t);
    } else if a.Switch? {
      SwitchCall(y, t);
    } else if a.DoDelay? {
      DelayCall(y, a, t);
    } else {
      CallKept(y, a, t);
    }
  }

  lemma TickCall(y: Sys, t: int)
    requires SysInv(y) && 0 <= t < |y.calls|
    ensures |Step(y, TickIrq).calls| == |Step(y, TickIrq).k.tasks| == |y.k.tasks| && CallOk(Step(y, TickIrq), t)
  {
    TickEffect(y.k);
    assert CallOk(y, t);
    FitsKept(y.k, Tick(y.k), y.calls[t]);
    assert WfTask(Tick(y.k), Tick(y.k).tasks[t]);
  }

  lemma SwitchCall(y: Sys, t: int)
    requires SysInv(y) && 0 <= t < |y.calls| && y.k.pending
    ensures |Step(y, Switch).calls| == |Step(y, Switch).k.tasks| == |y.k.tasks| && CallOk(Step(y, Switch), t)
  {
    SwitchEffect(y.k);
    assert CallOk(y, t);
    FitsKept(y.k, Dispatch(y.k), y.calls[t]);
    assert WfTask(Dispatch(y.k), Dispatch(y.k).tasks[t]);
  }

  lemma DelayCall(y: Sys, a: Action, t: int)
    requires SysInv(y) && 0 <= t < |y.calls| && a.DoDelay? && Legal(y, a)
    ensures |Step(y, a).calls| == |Step(y, a).k.tasks| == |y.k.tasks| && CallOk(Step(y, a), t)
  {
    assert CallOk(y, t);
    FitsKept(y.k, Act(y, a).s, y.calls[t]);
    assert WfTask(Act(y, a).s, Act(y, a).s.tasks[t]) && AgreeTask(y.k, y.k.current);
  }

  lemma StepRunning(y: Sys, a: Action)
    requires SysInv(y) && Legal(y, a) && !Step(y, a).k.pending && |y.k.tasks| > 1
    ensures |Step(y, a).k.tasks| == |y.k.tasks| && Step(y, a).k.tasks[Step(y, a).k.current].state == Running
  {
    hide SysInv, KInv, Wf;
    Ranges(y);
    if a.Switch? {
      SwitchEffect(y.k);
    } else if !a.TickIrq? && !a.DoDelay? {
      ActEffect(y, a);
    }
  }
}
