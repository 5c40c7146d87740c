/** What every call answers and what it leaves behind, in terms of the fields before the call. */
module Answers {
  import opened Types
  import opened Inheritance
  import opened Spec
  import opened Invariants
  import opened Preserve
  import opened Handoff
  import opened Runs
  import opened Effects
  import opened PriorityRuns
  import opened TimeRuns

  // ---------------------------------------------------------------- the pended switch

  /** Apart from the tick and the switch itself an action asks for a switch exactly if it puts its
      caller to sleep or wakes somebody: a call that succeeds or fails at once lets its caller go on. */
  lemma PendsIff(y: Sys, a: Action)
    requires SysInv(y) && Legal(y, a) && !a.TickIrq? && !a.Switch?
    ensures Act(y, a).s.pending <==> y.k.pending || a.DoDelay? || Act(y, a).ret == Blocks || Released(y, a) != NULL
  {
    hide *;
    if a.DoSend? || a.DoRecv? || a.IsrPut? || a.IsrGet? {
      QueuePends(y, a);
    } else if a.Resume? {
      ResumePends(y);
    } else if a.DoUnlock? {
      UnlockPends(y, a);
    } else {
      CallPends(y, a);
    }
  }

  lemma ReleasePends(s: State, p: State, l: int)
    requires KInv(s) && Wf(p) && SameCore(s, p) && p.pending == s.pending && 0 <= l < |s.lists|
    ensures Pickable(p, l)
    ensures Release(p, l).pending <==> s.pending || Chosen(s, l) != NULL
  {
    CoreFrame(s, p);
    PickFrame(s, p, l);
    AlwaysPickable(s, l);
  }

  lemma CallPends(y: Sys, a: Action)
    requires SysInv(y) && Legal(y, a) && (a.DoDelay? || a.DoWait? || a.DoPost? || a.DoLock?)
    ensures Act(y, a).s.pending <==> y.k.pending || a.DoDelay? || Act(y, a).ret == Blocks || Released(y, a) != NULL
  {
    hide SysInv, KInv, Wf;
    Ranges(y);
    if a.DoPost? {
      ReleasePends(y.k, y.k, y.k.sems[a.psem].wl);
      PostEffect(y.k, a.psem);
    } else if a.DoWait? {
      WaitEffect(y.k, a.wsem, a.wtimeout);
    } else if a.DoLock? {
      LockEffect(y.k, a.lmutex, a.ltimeout);
    }
  }

  lemma UnlockPends(y: Sys, a: Action)
    requires SysInv(y) && Legal(y, a) && a.DoUnlock?
    ensures Act(y, a).s.pending <==> y.k.pending || Act(y, a).ret == Blocks || Released(y, a) != NULL
  {
    hide SysInv, KInv, Wf;
    Ranges(y);
    UnlockEffect(y.k, a.umutex);
    if HandsOff(y.k, a.umutex) {
      HandoffShape(y.k, a.umutex);
    }
  }

  lemma SendPends(s: State, q: int, item: Item, n: int, d: int)
    requires KInv(s) && 0 <= q < |s.queues| && |item| == s.queues[q].itemSize && WfQueue(s, s.queues[q])
    requires Word(n) && Word(d) && (n == 0 || MayBlock(s)) && Pickable(s, s.queues[q].rwl)
    ensures var r := QueueSend(s, q, item, n, d);
      r.s.pending <==> s.pending || r.ret == Blocks || (PutRelease(s, q) != NULL && Chosen(s, PutRelease(s, q)) != NULL)
  {
    hide KInv, Wf, Release;
    KRanges(s);
    if |s.queues[q].items| < s.queues[q].maxItems {
      ReleasePends(s, PutItem(s, q, item), s.queues[q].rwl);
    } else {
      StallEffect(s, s.queues[q].swl, n, d);
    }
  }

  lemma RecvPends(s: State, q: int, n: int, d: int)
    requires KInv(s) && 0 <= q < |s.queues| && WfQueue(s, s.queues[q])
    requires Word(n) && Word(d) && (n == 0 || MayBlock(s)) && Pickable(s, s.queues[q].swl)
    ensures var r := QueueRecv(s, q, n, d);
      r.s.pending <==> s.pending || r.ret == Blocks || (GetRelease(s, q) != NULL && Chosen(s, GetRelease(s, q)) != NULL)
  {
    hide KInv, Wf, Release;
    KRanges(s);
    if s.queues[q].items != [] {
      ReleasePends(s, TakeItem(s, q), s.queues[q].swl);
    } else {
      StallEffect(s, s.queues[q].rwl, n, d);
    }
  }

  lemma QueuePends(y: Sys, a: Action)
    requires SysInv(y) && Legal(y, a) && (a.DoSend? || a.DoRecv? || a.IsrPut? || a.IsrGet?)
    ensures Act(y, a).s.pending <==> y.k.pending || Act(y, a).ret == Blocks || Released(y, a) != NULL
  {
    hide SysInv, KInv, Wf, QueueSend, QueueRecv;
    Ranges(y);
    match a
    case DoSend(q, x, n) =>
      SendEffect(y.k, q, x, n, DeadlineOf(y.k.tick, n));
      SendPends(y.k, q, x, n, DeadlineOf(y.k.tick, n));
    case DoRecv(q, n) =>
      RecvEffect(y.k, q, n, DeadlineOf(y.k.tick, n));
      RecvPends(y.k, q, n, DeadlineOf(y.k.tick, n));
    case IsrPut(q, x) =>
      IsrPutEffect(y.k, q, x);
      SendEffect(y.k, q, x, 0, y.k.tick);
      SendPends(y.k, q, x, 0, y.k.tick);
    case IsrGet(q) =>
      RecvEffect(y.k, q, 0, y.k.tick);
      RecvPends(y.k, q, 0, y.k.tick);
    case _ =>
  }

  lemma ResumePends(y: Sys)
    requires SysInv(y) && Legal(y, Resume)
    ensures Act(y, Resume).s.pending <==> y.k.pending || Act(y, Resume).ret == Blocks || Released(y, Resume) != NULL
  {
    hide SysInv, KInv, Wf, QueueSend, QueueRecv, RecomputePriority;
    Ranges(y);
    var k, c := y.k, y.calls[y.k.current];
    if c.WaitMutex? {
      ResumeRecomputes(y);
    } else if c.Sending? && !k.tasks[k.current].timeout {
      SendEffect(k, c.sq, c.item, c.stimeout, c.sdeadline);
      SendPends(k, c.sq, c.item, c.stimeout, c.sdeadline);
    } else if c.Receiving? && !k.tasks[k.current].timeout {
      RecvEffect(k, c.rq, c.rtimeout, c.rdeadline);
      RecvPends(k, c.rq, c.rtimeout, c.rdeadline);
    }
  }

  // ---------------------------------------------------------------- delays, semaphores, mutexes

  /** A delay puts its caller, and nobody else, to sleep until the tick that it names, or for good. */
  lemma DelayAnswer(y: Sys, n: int)
    requires SysInv(y) && Legal(y, DoDelay(n))
    ensures var s, c, r := y.k, y.k.current, Act(y, DoDelay(n)).s;
      && r == s.(tasks := r.tasks, pending := true) && |r.tasks| == |s.tasks| && s.tasks[c].blockedOn == NULL
      && r.tasks[c] == s.tasks[c].(state := Blocked, reason := OnDelay, wakeup := r.tasks[c].wakeup)
      && r.tasks[c].wakeup == (if n == WAIT_FOREVER then 0 else (s.tick + n) % U32)
      && forall t :: 0 <= t < |s.tasks| && t != c ==> r.tasks[t] == s.tasks[t]
    ensures Step(y, DoDelay(n)).calls == y.calls
  {
    Ranges(y);
    assert AgreeTask(y.k, y.k.current);
    hide SysInv, KInv, Wf;
  }

  /** A semaphore wait takes a unit and nothing else if there is one; without one it is refused, and
      leaves no trace, exactly if it may not wait. */
  lemma WaitAnswer(y: Sys, i: int, n: int)
    requires SysInv(y) && Legal(y, DoWait(i, n))
    ensures var s, x, r := y.k, y.k.sems[i], Act(y, DoWait(i, n));
      && r.ret == (if x.count > 0 then Returns(Ok) else if n == 0 then Returns(Unavailable) else Blocks)
      && (r.ret == Returns(Ok) ==> r.s == s.(sems := s.sems[i := Sem(x.count - 1, x.wl)]))
      && (r.ret == Returns(Unavailable) ==> r.s == s)
  {
    hide SysInv, KInv, Wf;
    Ranges(y);
    WaitEffect(y.k, i, n);
  }

  /** A post always succeeds: it wakes a waiter and leaves the count alone, or counts up by one on
      eight bits and touches nothing else. */
  lemma PostAnswer(y: Sys, i: int)
    requires SysInv(y) && Legal(y, DoPost(i))
    ensures var s, x, r := y.k, y.k.sems[i], Act(y, DoPost(i));
      && 0 <= x.wl < |s.lists| && r.ret == Returns(Ok)
      && (s.lists[x.wl].waiters != [] ==> Released(y, DoPost(i)) in s.lists[x.wl].waiters && r.s.sems == s.sems)
      && (s.lists[x.wl].waiters == [] ==>
          Released(y, DoPost(i)) == NULL && r.s == s.(sems := s.sems[i := Sem((x.count + 1) % 256, x.wl)]))
  {
    hide SysInv, KInv, Wf;
    Ranges(y);
    PostEffect(y.k, i);
  }

  /** What a lock call answers. Only a free mutex is taken; the two refusals leave no trace. */
  lemma LockAnswer(y: Sys, m: int, n: int)
    requires SysInv(y) && Legal(y, DoLock(m, n))
    ensures var s, c, x, r := y.k, y.k.current, y.k.mutexes[m], Act(y, DoLock(m, n));
      && r.ret == (if x.owner == NULL then Returns(Ok) else if x.owner == c then Returns(RecursiveLock)
                   else if n == 0 then Returns(Unavailable) else Blocks)
      && (x.locked <==> x.owner != NULL)
      && (r.ret == Returns(Ok) ==>
          r.s == s.(tasks := s.tasks[c := s.tasks[c].(owned := s.tasks[c].owned + [m])],
                    mutexes := s.mutexes[m := Mutex(c, true, x.wl)]))
      && (r.ret == Returns(RecursiveLock) || r.ret == Returns(Unavailable) ==> r.s == s)
  {
    Ranges(y);
    assert OwnMutex(y.k, m);
    LockEffect(y.k, m, n);
    hide SysInv, KInv, Wf;
  }

  /** What an unlock answers. A caller that is not the owner leaves no trace; an owner gives the mutex
      up, to nobody if nobody waits, and then touches nothing else. */
  lemma UnlockAnswer(y: Sys, m: int)
    requires SysInv(y) && Legal(y, DoUnlock(m))
    ensures var s, c, x, r := y.k, y.k.current, y.k.mutexes[m], Act(y, DoUnlock(m));
      && 0 <= x.wl < |s.lists| && |r.s.tasks| == |s.tasks|
      && r.ret == Returns(if x.owner == c then Ok else NotOwner)
      && (x.owner != c ==> r.s == s)
      && (x.owner == c && s.lists[x.wl].waiters == [] ==>
          r.s == s.(tasks := s.tasks[c := s.tasks[c].(owned := r.s.tasks[c].owned)],
                    mutexes := s.mutexes[m := Mutex(NULL, false, x.wl)]))
      && (x.owner == c && s.lists[x.wl].waiters != [] ==>
          var b := Released(y, DoUnlock(m));
          && b in s.lists[x.wl].waiters && 0 <= b < |s.tasks|
          && r.s.mutexes == s.mutexes[m := Mutex(b, true, x.wl)] && r.s.tasks[b].owned == s.tasks[b].owned + [m]
          && forall t :: 0 <= t < |s.tasks| && t != b && t != c ==> r.s.tasks[t] == s.tasks[t])
      && (x.owner == c ==> LastFills(s.tasks[c].owned, r.s.tasks[c].owned, m))
  {
    hide SysInv, KInv, Wf, MutexUnlock;
    Ranges(y);
    UnlockEffect(y.k, m);
    OwnedOnce(y.k, m);
    if HandsOff(y.k, m) {
      HandoffShape(y.k, m);
    } else {
      PlainUnlock(y.k, m);
    }
  }

  /** `b` is `a` without its entry `m`, whose place the last entry has taken. */
  predicate LastFills(a: seq<int>, b: seq<int>, m: int) {
    && |b| == |a| - 1
    && forall j :: 0 <= j < |b| ==> b[j] == if a[j] == m then a[|a| - 1] else a[j]
  }

  lemma OwnedOnce(s: State, m: int)
    requires KInv(s) && 0 <= m < |s.mutexes|
    ensures WfMutex(s, s.mutexes[m])
    ensures s.mutexes[m].owner != NULL ==> s.mutexes[m].locked && 0 <= s.mutexes[m].owner < |s.tasks|
    ensures s.mutexes[m].owner != NULL ==>
      var a := s.tasks[s.mutexes[m].owner].owned; LastFills(a, SwapRemove(a, m), m)
  {
    assert OwnMutex(s, m);
    if s.mutexes[m].owner != NULL {
      assert OwnTask(s, s.mutexes[m].owner);
    }
  }

  lemma PlainUnlock(s: State, m: int)
    requires KInv(s) && Wf(s) && MayBlock(s) && 0 <= m < |s.mutexes| && WfMutex(s, s.mutexes[m])
    requires !HandsOff(s, m) && Pickable(Disown(s, m), s.mutexes[m].wl)
    ensures var c, x, r := s.current, s.mutexes[m], MutexUnlock(s, m);
      && (x.owner != c ==> r == Outcome(s, Returns(NotOwner)))
      && (x.owner == c ==>
          && s.lists[x.wl].waiters == []
          && r == Outcome(s.(tasks := s.tasks[c := s.tasks[c].(owned := SwapRemove(s.tasks[c].owned, m))],
                             mutexes := s.mutexes[m := Mutex(NULL, false, x.wl)]), Returns(Ok)))
  {
    hide KInv, Wf;
  }

  // ---------------------------------------------------------------- queues

  /** One pass of a send: an item goes into a queue that has room and is refused by a full one,
      without a trace, if the caller may not wait or its deadline `d` lies at most 2^31 ticks back. */
  lemma SendPass(s: State, q: int, item: Item, n: int, d: int)
    requires KInv(s) && 0 <= q < |s.queues| && |item| == s.queues[q].itemSize && WfQueue(s, s.queues[q])
    requires Word(n) && Word(d) && (n == 0 || MayBlock(s)) && Pickable(s, s.queues[q].rwl)
    ensures var x, r := s.queues[q], QueueSend(s, q, item, n, d);
      && r.ret == (if |x.items| < x.maxItems then Returns(Ok)
                   else if n == 0 || (d != 0 && (s.tick - d) % U32 < HALF) then Returns(Unavailable) else Blocks)
      && (r.ret == Returns(Unavailable) ==> r.s == s)
      && (r.ret == Returns(Ok) ==> r.s.queues == s.queues[q := x.(items := x.items + [item])])
      && (r.ret == Returns(Ok) && s.lists[x.rwl].waiters == [] ==> r.s == s.(queues := r.s.queues))
  {
    hide KInv, Wf, Release;
    KRanges(s);
    SendEffect(s, q, item, n, d);
    StallEffect(s, s.queues[q].swl, n, d);
    if |s.queues[q].items| < s.queues[q].maxItems {
      ReleaseNobody(PutItem(s, q, item), s.queues[q].rwl);
    }
  }

  lemma ReleaseNobody(p: State, l: int)
    requires Wf(p) && 0 <= l < |p.lists| && Pickable(p, l)
    ensures p.lists[l].waiters == [] ==> Release(p, l) == p
  {
  }

  lemma RecvPass(s: State, q: int, n: int, d: int)
    requires KInv(s) && 0 <= q < |s.queues| && WfQueue(s, s.queues[q])
    requires Word(n) && Word(d) && (n == 0 || MayBlock(s)) && Pickable(s, s.queues[q].swl)
    ensures var x, r := s.queues[q], QueueRecv(s, q, n, d);
      && r.ret == (if x.items != [] then Gives(x.items[0])
                   else if n == 0 || (d != 0 && (s.tick - d) % U32 < HALF) then Returns(Unavailable) else Blocks)
      && (r.ret == Returns(Unavailable) ==> r.s == s)
      && (r.ret.Gives? ==> r.s.queues == s.queues[q := x.(items := x.items[1..])])
      && (r.ret.Gives? && s.lists[x.swl].waiters == [] ==> r.s == s.(queues := r.s.queues))
  {
    hide KInv, Wf, Release;
    KRanges(s);
    RecvEffect(s, q, n, d);
    StallEffect(s, s.queues[q].rwl, n, d);
    if s.queues[q].items != [] {
      ReleaseNobody(TakeItem(s, q), s.queues[q].swl);
    }
  }

  /** A full or empty queue refuses a new call at once if its timeout is 0, or finite and beyond
      2^31 with a deadline other than tick 0. */
  predicate Refused(tick: int, n: int) {
    n == 0 || (HALF < n < WAIT_FOREVER && tick + n != U32)
  }

  lemma RefusedIff(tick: int, n: int)
    requires 0 <= tick < U32 && 0 <= n < U32
    ensures var d := DeadlineOf(tick, n); Refused(tick, n) <==> n == 0 || (d != 0 && (tick - d) % U32 < HALF)
  {
    ElapsedAtOnce(tick, n);
  }

  lemma SendAnswer(y: Sys, q: int, item: Item, n: int)
    requires SysInv(y) && Legal(y, DoSend(q, item, n))
    ensures var s, x, r := y.k, y.k.queues[q], Act(y, DoSend(q, item, n));
      && 0 <= x.rwl < |s.lists|
      && r.ret == (if |x.items| < x.maxItems then Returns(Ok)
                   else if Refused(s.tick, n) then Returns(Unavailable) else Blocks)
      && (r.ret == Returns(Unavailable) ==> r.s == s)
      && (r.ret == Returns(Ok) ==> r.s.queues == s.queues[q := x.(items := x.items + [item])])
      && (r.ret == Returns(Ok) && s.lists[x.rwl].waiters == [] ==> r.s == s.(queues := r.s.queues))
  {
    hide SysInv, KInv, Wf, QueueSend;
    Ranges(y);
    AnyPickable(y.k, y.k.queues[q].rwl);
    RefusedIff(y.k.tick, n);
    SendPass(y.k, q, item, n, DeadlineOf(y.k.tick, n));
    hide Refused, DeadlineOf;
  }

  lemma RecvAnswer(y: Sys, q: int, n: int)
    requires SysInv(y) && Legal(y, DoRecv(q, n))
    ensures var s, x, r := y.k, y.k.queues[q], Act(y, DoRecv(q, n));
      && 0 <= x.swl < |s.lists|
      && r.ret == (if x.items != [] then Gives(x.items[0])
                   else if Refused(s.tick, n) then Returns(Unavailable) else Blocks)
      && (r.ret == Returns(Unavailable) ==> r.s == s)
      && (r.ret.Gives? ==> r.s.queues == s.queues[q := x.(items := x.items[1..])])
      && (r.ret.Gives? && s.lists[x.swl].waiters == [] ==> r.s == s.(queues := r.s.queues))
  {
    hide SysInv, KInv, Wf, QueueRecv;
    Ranges(y);
    AnyPickable(y.k, y.k.queues[q].swl);
    RefusedIff(y.k.tick, n);
    RecvPass(y.k, q, n, DeadlineOf(y.k.tick, n));
    hide Refused, DeadlineOf;
  }

  /** A send from an interrupt never waits: a full queue drops the item, says so, and counts it. */
  lemma IsrPutAnswer(y: Sys, q: int, item: Item)
    requires SysInv(y) && Legal(y, IsrPut(q, item))
    ensures var s, x, r := y.k, y.k.queues[q], Act(y, IsrPut(q, item));
      && 0 <= x.rwl < |s.lists|
      && r.ret == Returns(if |x.items| < x.maxItems then Ok else Unavailable)
      && (r.ret == Returns(Unavailable) ==> r.s == s.(queues := s.queues[q := x.(dropped := (x.dropped + 1) % U32)]))
      && (r.ret == Returns(Ok) ==> r.s.queues == s.queues[q := x.(items := x.items + [item])])
      && (r.ret == Returns(Ok) && s.lists[x.rwl].waiters == [] ==> r.s == s.(queues := r.s.queues))
  {
    hide SysInv, KInv, Wf, QueueSend;
    Ranges(y);
    AnyPickable(y.k, y.k.queues[q].rwl);
    SendPass(y.k, q, item, 0, y.k.tick);
  }

  /** A receive from an interrupt never waits: it hands out the oldest item, or says that there is
      none and leaves no trace. */
  lemma IsrGetAnswer(y: Sys, q: int)
    requires SysInv(y) && Legal(y, IsrGet(q))
    ensures var s, x, r := y.k, y.k.queues[q], Act(y, IsrGet(q));
      && 0 <= x.swl < |s.lists|
      && r.ret == (if x.items == [] then Returns(Unavailable) else Gives(x.items[0]))
      && (x.items == [] ==> r.s == s)
      && (x.items != [] ==> r.s.queues == s.queues[q := x.(items := x.items[1..])])
      && (x.items != [] && s.lists[x.swl].waiters == [] ==> r.s == s.(queues := r.s.queues))
  {
    hide SysInv, KInv, Wf, QueueRecv;
    Ranges(y);
    AnyPickable(y.k, y.k.queues[q].swl);
    RecvPass(y.k, q, 0, y.k.tick);
  }

  // ---------------------------------------------------------------- calls that have blocked

  /** A resumed wait answers by its timeout flag; that of a mutex changes nothing but priorities. */
  lemma ResumedWait(y: Sys)
    requires SysInv(y) && Legal(y, Resume) && (y.calls[y.k.current].WaitSem? || y.calls[y.k.current].WaitMutex?)
    ensures var s, r := y.k, Act(y, Resume);
      && r.ret == Returns(if s.tasks[s.current].timeout then Unavailable else Ok)
      && (y.calls[s.current].WaitSem? ==> r.s == s)
      && r.s == s.(tasks := r.s.tasks) && |r.s.tasks| == |s.tasks|
      && forall t :: 0 <= t < |s.tasks| ==> r.s.tasks[t] == s.tasks[t].(eff := r.s.tasks[t].eff)
  {
    hide SysInv, KInv, Wf, RecomputePriority;
    Ranges(y);
    if y.calls[y.k.current].WaitMutex? {
      ResumeRecomputes(y);
    }
  }

  /** A resumed send that was timed out is refused without a trace; any other tries again. */
  lemma ResumedSend(y: Sys)
    requires SysInv(y) && Legal(y, Resume) && y.calls[y.k.current].Sending?
    ensures var s, c, r := y.k, y.calls[y.k.current], Act(y, Resume);
      && 0 <= c.sq < |s.queues| && 0 <= s.queues[c.sq].rwl < |s.lists|
      && var x := s.queues[c.sq];
      && r.ret == (if s.tasks[s.current].timeout then Returns(Unavailable)
                   else if |x.items| < x.maxItems then Returns(Ok)
                   else if c.sdeadline != 0 && (s.tick - c.sdeadline) % U32 < HALF then Returns(Unavailable)
                   else Blocks)
      && (r.ret == Returns(Unavailable) ==> r.s == s)
      && (r.ret == Returns(Ok) ==> r.s.queues == s.queues[c.sq := x.(items := x.items + [c.item])])
      && (r.ret == Returns(Ok) && s.lists[x.rwl].waiters == [] ==> r.s == s.(queues := r.s.queues))
  {
    hide SysInv, KInv, Wf, QueueSend;
    Ranges(y);
    var c := y.calls[y.k.current];
    AnyPickable(y.k, y.k.queues[c.sq].rwl);
    SendPass(y.k, c.sq, c.item, c.stimeout, c.sdeadline);
  }

  lemma ResumedRecv(y: Sys)
    requires SysInv(y) && Legal(y, Resume) && y.calls[y.k.current].Receiving?
    ensures var s, c, r := y.k, y.calls[y.k.current], Act(y, Resume);
      && 0 <= c.rq < |s.queues| && 0 <= s.queues[c.rq].swl < |s.lists|
      && var x := s.queues[c.rq];
      && r.ret == (if s.tasks[s.current].timeout then Returns(Unavailable)
                   else if x.items != [] then Gives(x.items[0])
                   else if c.rdeadline != 0 && (s.tick - c.rdeadline) % U32 < HALF then Returns(Unavailable)
                   else Blocks)
      && (r.ret == Returns(Unavailable) ==> r.s == s)
      && (r.ret.Gives? ==> r.s.queues == s.queues[c.rq := x.(items := x.items[1..])])
      && (r.ret.Gives? && s.lists[x.swl].waiters == [] ==> r.s == s.(queues := r.s.queues))
  {
    hide SysInv, KInv, Wf, QueueRecv;
    Ranges(y);
    var c := y.calls[y.k.current];
    AnyPickable(y.k, y.k.queues[c.rq].swl);
    RecvPass(y.k, c.rq, c.rtimeout, c.rdeadline);
  }

  // ---------------------------------------------------------------- task records

  /** The record of a task that a call has put to sleep: the list at whose end it stands, and the
      tick at which it gives up, counted from the moment the call was made. */
  lemma BlockedRecord(y: Sys, a: Action)
    requires SysInv(y) && Legal(y, a) && Act(y, a).ret == Blocks
    ensures var s, c, l, r := y.k, y.k.current, BlockList(y, a), Act(y, a).s;
      && |r.tasks| == |s.tasks| && |r.lists| == |s.lists| && TaskRuns(y)
      && r.tasks[c].state == Blocked && r.tasks[c].blockedOn == l && r.tasks[c].reason == ReasonOf(s.lists[l].home)
      && r.tasks[c].timeout == s.tasks[c].timeout && r.tasks[c].wakeup == WakeTick(y, a)
      && r.lists == s.lists[l := s.lists[l].(waiters := s.lists[l].waiters + [c])]
      && (forall t :: 0 <= t < |s.tasks| && t != c ==>
          r.tasks[t] == s.tasks[t].(eff := r.tasks[t].eff, owned := r.tasks[t].owned))
  {
    hide SysInv, KInv, Wf, Act;
    Ranges(y);
    NeverBlocks(y, a);
    ActEffect(y, a);
  }

  /** The primitives and everybody's owned mutexes are the same. */
  ghost predicate SameHoldings(s: State, r: State) {
    && r.sems == s.sems && r.mutexes == s.mutexes && r.queues == s.queues && |r.tasks| == |s.tasks|
    && forall t :: 0 <= t < |s.tasks| ==> r.tasks[t].owned == s.tasks[t].owned
  }

  /** A call that blocks takes and gives nothing. */
  lemma BlockedTables(y: Sys, a: Action)
    requires SysInv(y) && Legal(y, a) && Act(y, a).ret == Blocks
    ensures SameHoldings(y.k, Act(y, a).s)
  {
    NeverBlocks(y, a);
    hide *;
    if a.DoWait? {
      WaitTables(y, a);
    } else if a.DoLock? {
      LockTables(y, a);
    } else {
      QueueTables(y, a);
    }
  }

  lemma BlockTables(s: State, l: int, n: int)
    requires Wf(s) && 0 <= l < |s.lists| && Word(n) && 0 <= s.current < |s.tasks|
    ensures SameHoldings(s, BlockOn(s, l, n).s)
  {
    hide Wf;
  }

  lemma WaitTables(y: Sys, a: Action)
    requires SysInv(y) && Legal(y, a) && a.DoWait? && Act(y, a).ret == Blocks
    ensures SameHoldings(y.k, Act(y, a).s)
  {
    hide SysInv, KInv, Wf, BlockOn, SameHoldings;
    Ranges(y);
    BlockTables(y.k, y.k.sems[a.wsem].wl, a.wtimeout);
  }

  lemma LockTables(y: Sys, a: Action)
    requires SysInv(y) && Legal(y, a) && a.DoLock? && Act(y, a).ret == Blocks
    ensures SameHoldings(y.k, Act(y, a).s)
  {
    hide SysInv, KInv, Wf, BlockOn, DonatePriority;
    Ranges(y);
    LockAnswer(y, a.lmutex, a.ltimeout);
    var o := y.k.mutexes[a.lmutex].owner;
    DonateTables(y.k, o);
    BlockTables(DonatePriority(y.k, o), y.k.mutexes[a.lmutex].wl, a.ltimeout);
  }

  lemma DonateTables(s: State, o: int)
    requires Wf(s) && (o == NULL || 0 <= o < |s.tasks|)
    ensures var r := DonatePriority(s, o); SameHoldings(s, r) && |r.lists| == |s.lists| && r.current == s.current
  {
    hide Wf;
  }

  lemma QueueTables(y: Sys, a: Action)
    requires SysInv(y) && Legal(y, a) && (a.DoSend? || a.DoRecv? || a.Resume?) && Act(y, a).ret == Blocks
    ensures SameHoldings(y.k, Act(y, a).s)
  {
    Constants(y, a);
    hide SysInv, KInv, Wf, QueueSend, QueueRecv;
    Ranges(y);
    NeverBlocks(y, a);
    var k, c := y.k, CallOf(y, a);
    if c.Sending? {
      SendEffect(k, c.sq, c.item, c.stimeout, c.sdeadline);
      StallEffect(k, k.queues[c.sq].swl, c.stimeout, c.sdeadline);
    } else {
      RecvEffect(k, c.rq, c.rtimeout, c.rdeadline);
      StallEffect(k, k.queues[c.rq].rwl, c.rtimeout, c.rdeadline);
    }
  }

  /** The tick at which a blocking action is to give up, 0 if never. */
  function WakeTick(y: Sys, a: Action): int
    requires 0 <= y.k.current < |y.calls|
  {
    match a
    case DoWait(_, n) => if n == WAIT_FOREVER then 0 else (y.k.tick + n) % U32
    case DoLock(_, n) => if n == WAIT_FOREVER then 0 else (y.k.tick + n) % U32
    case DoSend(_, _, n) => if n == WAIT_FOREVER then 0 else (y.k.tick + n) % U32
    case DoRecv(_, n) => if n == WAIT_FOREVER then 0 else (y.k.tick + n) % U32
    case _ =>
      match y.calls[y.k.current]
      case Sending(_, _, _, d) => d
      case Receiving(_, _, d) => d
      case _ => 0
  }

  /** A task that a call has woken: ready, waiting for nothing, without a deadline and not timed out.
      Everybody else waits as before; only priorities and owned mutexes may differ. */
  lemma ReleasedRecord(y: Sys, a: Action)
    requires SysInv(y) && Legal(y, a) && !a.TickIrq? && !a.Switch? && !a.DoDelay? && Act(y, a).ret != Blocks
    ensures var s, b, r := y.k, Released(y, a), Act(y, a).s;
      && |r.tasks| == |s.tasks| && |r.lists| == |s.lists|
      && (b == NULL ==> r.lists == s.lists)
      && (b != NULL ==>
          var x, l, i := r.tasks[b], ReleaseList(y, a), IndexOf(s.lists[ReleaseList(y, a)].waiters, b);
          && x.state == Ready && x.reason == NoReason && x.blockedOn == NULL && x.wakeup == 0 && !x.timeout
          && i < |s.lists[l].waiters|
          && r.lists == s.lists[l := s.lists[l].(waiters := s.lists[l].waiters[..i] + s.lists[l].waiters[i + 1..])])
      && (forall t :: 0 <= t < |s.tasks| && t != b ==>
          r.tasks[t] == s.tasks[t].(eff := r.tasks[t].eff, owned := r.tasks[t].owned))
  {
    hide SysInv, KInv, Wf, Act, ReleaseList, Chosen, Pick;
    Ranges(y);
    ActEffect(y, a);
    if Released(y, a) != NULL {
      PickedAt(y.k, ReleaseList(y, a));
      ReleasedShape(y.k, Act(y, a).s, ReleaseList(y, a));
    }
  }

  lemma ReleasedShape(s: State, r: State, l: int)
    requires Wf(s) && 0 <= l < |s.lists| && AfterRelease(s, r, l) && Chosen(s, l) != NULL
    requires 0 <= Chosen(s, l) < |s.tasks|
    requires Pick(s, l) == IndexOf(s.lists[l].waiters, Chosen(s, l)) < |s.lists[l].waiters|
    ensures |r.tasks| == |s.tasks|
    ensures var b, i, ws := Chosen(s, l), Pick(s, l), s.lists[l].waiters; var x := r.tasks[b];
      && x.state == Ready && x.reason == NoReason && x.blockedOn == NULL && x.wakeup == 0 && !x.timeout
      && r.lists == s.lists[l := s.lists[l].(waiters := ws[..i] + ws[i + 1..])]
  {
    hide Wf, Chosen, Pick, IndexOf;
  }

  lemma PickedAt(s: State, l: int)
    requires KInv(s) && 0 <= l < |s.lists| && Chosen(s, l) != NULL
    ensures Pick(s, l) == IndexOf(s.lists[l].waiters, Chosen(s, l)) < |s.lists[l].waiters|
  {
    assert AgreeList(s, l);
    assert s.lists[l].waiters[Pick(s, l)] == Chosen(s, l);
  }

  /** `t` has a deadline and the counter, one tick on, is at or at most 2^31 ticks past it. */
  predicate RunsOut(s: State, t: int)
    requires 0 <= t < |s.tasks|
  {
    t != 0 && s.tasks[t].state == Blocked && s.tasks[t].wakeup != 0 && (s.tick + 1 - s.tasks[t].wakeup) % U32 < HALF
  }

  /** A tick counts, asks for a switch and wakes exactly the tasks whose time has run out; those that
      waited for a primitive leave its list and are marked as timed out. It does nothing else. */
  lemma TickRecord(y: Sys)
    requires SysInv(y)
    ensures Legal(y, TickIrq) && Ticked(y.k, Act(y, TickIrq).s)
  {
    Ranges(y);
    TickTasks(y.k);
    hide SysInv, KInv, Wf, Tick, Ticked;
  }

  ghost predicate Ticked(s: State, r: State) {
    && r == s.(tick := if s.tick == U32 - 1 then 0 else s.tick + 1, tasks := r.tasks, lists := r.lists, pending := true)
    && |r.tasks| == |s.tasks| && |r.lists| == |s.lists|
    && (forall t :: 0 <= t < |s.tasks| ==>
        if RunsOut(s, t) then
          r.tasks[t] == s.tasks[t].(state := Ready, reason := NoReason, blockedOn := NULL, wakeup := 0,
                                    timeout := s.tasks[t].blockedOn != NULL)
        else r.tasks[t] == s.tasks[t])
    && (forall l :: 0 <= l < |s.lists| ==>
        && r.lists[l] == s.lists[l].(waiters := r.lists[l].waiters)
        && forall t :: t in r.lists[l].waiters <==> t in s.lists[l].waiters && !(0 <= t < |s.tasks| && RunsOut(s, t)))
  }

  lemma TickTasks(s: State)
    requires KInv(s)
    ensures Ticked(s, Tick(s))
  {
    var r := Tick(s);
    KRanges(s);
    TickEffect(s);
    TickWoken(s);
    hide KInv, Wf, Tick, RunsOut, Due, Advance, Woken;
    forall l | 0 <= l < |s.lists|
      ensures forall t :: t in r.lists[l].waiters <==> t in s.lists[l].waiters && !(0 <= t < |s.tasks| && RunsOut(s, t))
    {
      TickLists(s, l);
    }
  }

  lemma TickWoken(s: State)
    requires KInv(s)
    ensures |Tick(s).tasks| == |s.tasks|
    ensures forall t :: 0 <= t < |s.tasks| ==>
      if RunsOut(s, t) then
        Tick(s).tasks[t] == s.tasks[t].(state := Ready, reason := NoReason, blockedOn := NULL, wakeup := 0,
                                        timeout := s.tasks[t].blockedOn != NULL)
      else Tick(s).tasks[t] == s.tasks[t]
  {
    TickEffect(s);
    TickDue(s);
    hide KInv, Wf, Tick, RunsOut, Due, Advance;
  }

  lemma TickDue(s: State)
    requires KInv(s)
    ensures forall t :: 0 <= t < |s.tasks| ==> (t != 0 && Due(Advance(s), t) <==> RunsOut(s, t))
  {
    forall t | 0 <= t < |s.tasks|
      ensures t != 0 && Due(Advance(s), t) <==> RunsOut(s, t)
    {
      assert ((s.tick + 1) % U32 - s.tasks[t].wakeup) % U32 == (s.tick + 1 - s.tasks[t].wakeup) % U32;
    }
  }

  /** Who is in a list after a tick follows from the task records, before and after. */
  lemma TickLists(s: State, l: int)
    requires KInv(s) && 0 <= l < |s.lists| == |Tick(s).lists| && |Tick(s).tasks| == |s.tasks|
    requires forall t :: 0 <= t < |s.tasks| ==>
      (if RunsOut(s, t) then Tick(s).tasks[t].blockedOn == NULL else Tick(s).tasks[t] == s.tasks[t])
    ensures forall t :: t in Tick(s).lists[l].waiters <==>
      t in s.lists[l].waiters && !(0 <= t < |s.tasks| && RunsOut(s, t))
  {
    TickKeeps(s);
    hide KInv, Wf, Tick, RunsOut;
    forall t
      ensures t in Tick(s).lists[l].waiters <==> t in s.lists[l].waiters && !(0 <= t < |s.tasks| && RunsOut(s, t))
    {
      ListedIff(s, t, l);
      ListedIff(Tick(s), t, l);
    }
  }

  lemma ListedIff(s: State, t: int, l: int)
    requires KInv(s) && 0 <= l < |s.lists|
    ensures t in s.lists[l].waiters <==> 0 <= t < |s.tasks| && s.tasks[t].blockedOn == l
  {
    assert AgreeList(s, l);
    if 0 <= t < |s.tasks| {
      assert AgreeTask(s, t);
    }
  }

  /** A switch takes the running task off the processor and puts one on it that is able to run; with
      no user task at all it changes nothing. No other field of a task moves. */
  lemma SwitchRecord(y: Sys)
    requires SysInv(y) && Legal(y, Switch)
    ensures var s, r := y.k, Act(y, Switch).s;
      && r == s.(tasks := r.tasks, current := r.current, pending := false) && |r.tasks| == |s.tasks|
      && 0 <= r.current < |s.tasks| && s.tasks[r.current].state != Blocked
      && (|s.tasks| > 1 ==> r.tasks[r.current].state == Running)
      && (|s.tasks| == 1 ==> r.current == s.current)
      && forall t :: 0 <= t < |s.tasks| ==>
          && r.tasks[t] == s.tasks[t].(state := r.tasks[t].state)
          && (|s.tasks| == 1 || t != r.current ==>
              r.tasks[t].state == if s.tasks[t].state == Running then Ready else s.tasks[t].state)
  {
    Ranges(y);
    SwitchEffect(y.k);
    IdleAwake(y.k);
    hide SysInv, KInv, Wf, NextTask;
  }

  lemma IdleAwake(s: State)
    requires KInv(s)
    ensures s.tasks[0].state != Blocked
    ensures forall t :: 0 <= t < |s.tasks| && s.tasks[t].state == Running ==> t == s.current
    ensures |s.tasks| == 1 ==> s.current == 0
  {
    forall t | 0 <= t < |s.tasks| && s.tasks[t].state == Running
      ensures t == s.current
    {
      assert AgreeTask(s, t);
    }
  }


  // ---------------------------------------------------------------- what no action changes

  /** Configuration, base priorities, wiring, capacities, item sizes and policies are for good; the
      tick counter moves with the tick and the processor with the switch only. */
  lemma Constants(y: Sys, a: Action)
    requires SysInv(y) && Legal(y, a)
    ensures Fixed(y.k, Act(y, a).s)
    ensures !a.Switch? ==> Act(y, a).s.current == y.k.current
    ensures !a.TickIrq? ==> Act(y, a).s.tick == y.k.tick
    ensures !a.DoLock? && !a.DoUnlock? && !(a.Resume? && y.calls[y.k.current].WaitMutex?) ==>
      SameClaims(y.k, Act(y, a).s)
  {
    hide *;
    SteadyMeans(y.k, Act(y, a).s);
    if a.TickIrq? || a.Switch? || a.DoDelay? {
      ClockConstants(y, a);
    } else if a.DoWait? || a.DoPost? {
      SemConstants(y, a);
    } else if a.DoLock? || a.DoUnlock? {
      MutexConstants(y, a);
    } else if a.Resume? {
      ResumeConstants(y);
    } else {
      QueueConstants(y, a);
    }
  }

  ghost predicate Fixed(s: State, r: State) {
    && r.cfg == s.cfg
    && |r.tasks| == |s.tasks| && (forall t :: 0 <= t < |s.tasks| ==> r.tasks[t].base == s.tasks[t].base)
    && |r.lists| == |s.lists| && (forall l :: 0 <= l < |s.lists| ==>
        r.lists[l].policy == s.lists[l].policy && r.lists[l].home == s.lists[l].home)
    && |r.mutexes| == |s.mutexes| && (forall m :: 0 <= m < |s.mutexes| ==> r.mutexes[m].wl == s.mutexes[m].wl)
    && |r.sems| == |s.sems| && (forall i :: 0 <= i < |s.sems| ==> r.sems[i].wl == s.sems[i].wl)
    && |r.queues| == |s.queues| && (forall q :: 0 <= q < |s.queues| ==>
        r.queues[q] == s.queues[q].(items := r.queues[q].items, dropped := r.queues[q].dropped))
  }

  /** Owners, owned mutexes and effective priorities are the same. */
  ghost predicate SameClaims(s: State, r: State) {
    && r.mutexes == s.mutexes && |r.tasks| == |s.tasks|
    && forall t :: 0 <= t < |s.tasks| ==> r.tasks[t].eff == s.tasks[t].eff && r.tasks[t].owned == s.tasks[t].owned
  }

  lemma ClockConstants(y: Sys, a: Action)
    requires SysInv(y) && Legal(y, a) && (a.TickIrq? || a.Switch? || a.DoDelay?)
    ensures Fixed(y.k, Act(y, a).s) && SameClaims(y.k, Act(y, a).s)
    ensures !a.Switch? ==> Act(y, a).s.current == y.k.current
    ensures !a.TickIrq? ==> Act(y, a).s.tick == y.k.tick
  {
    hide SysInv, KInv, Wf, Act, RunsOut;
    if a.TickIrq? {
      TickRecord(y);
    } else if a.Switch? {
      SwitchRecord(y);
    } else {
      DelayAnswer(y, a.ticks);
    }
  }

  ghost predicate Steady(s: State, r: State) {
    Fixed(s, r) && r.current == s.current && r.tick == s.tick
  }

  ghost predicate Calm(s: State, r: State) {
    Steady(s, r) && SameClaims(s, r)
  }

  lemma SteadyMeans(s: State, r: State)
    ensures Steady(s, r) ==> Fixed(s, r) && r.current == s.current && r.tick == s.tick
    ensures Calm(s, r) ==> Steady(s, r) && SameClaims(s, r)
  {
  }

  lemma BlockSteady(s: State, l: int, n: int)
    requires Wf(s) && 0 <= l < |s.lists| && Word(n) && 0 <= s.current < |s.tasks|
    ensures Calm(s, BlockOn(s, l, n).s)
  {
    hide Wf;
  }

  lemma ReleaseSteady(s: State, l: int)
    requires Wf(s) && 0 <= l < |s.lists| && Pickable(s, l)
    ensures Calm(s, Release(s, l))
  {
    hide Wf;
  }

  lemma SemConstants(y: Sys, a: Action)
    requires SysInv(y) && Legal(y, a) && (a.DoWait? || a.DoPost?)
    ensures Calm(y.k, Act(y, a).s)
  {
    hide SysInv, KInv, Wf, BlockOn, Release;
    Ranges(y);
    if a.DoWait? {
      BlockSteady(y.k, y.k.sems[a.wsem].wl, a.wtimeout);
    } else {
      SemPostKeeps(y.k, a.psem);
      ReleaseSteady(y.k, y.k.sems[a.psem].wl);
    }
  }

  lemma MutexConstants(y: Sys, a: Action)
    requires SysInv(y) && Legal(y, a) && (a.DoLock? || a.DoUnlock?)
    ensures Steady(y.k, Act(y, a).s)
  {
    hide SysInv, KInv, Wf;
    Ranges(y);
    if a.DoUnlock? {
      UnlockSteady(y, a.umutex);
    } else {
      LockSteady(y.k, a.lmutex, a.ltimeout);
    }
  }

  lemma DonateSteady(s: State, o: int)
    requires Wf(s) && (o == NULL || 0 <= o < |s.tasks|)
    ensures Steady(s, DonatePriority(s, o)) && 0 <= s.current < |s.tasks|
  {
  }

  lemma SteadyOver(s: State, p: State, r: State)
    requires Steady(s, p) && Steady(p, r)
    ensures Steady(s, r)
  {
  }

  lemma CalmOver(s: State, p: State, r: State)
    requires Calm(s, p) && Calm(p, r)
    ensures Calm(s, r)
  {
  }

  lemma LockSteady(s: State, m: int, n: int)
    requires Wf(s) && 0 <= m < |s.mutexes| && WfMutex(s, s.mutexes[m]) && Word(n) && 0 <= s.current < |s.tasks|
    ensures Steady(s, MutexLock(s, m, n).s)
  {
    hide Wf, DonatePriority, RecomputePriority, BlockOn, Steady;
    var x := s.mutexes[m];
    TakeSteady(s, m);
    SelfSteady(s);
    if x.locked && x.owner != s.current && n != 0 {
      DonateSteady(s, x.owner);
      var p := DonatePriority(s, x.owner);
      SteadyMeans(s, p);
      BlockSteady(p, x.wl, n);
      var o := BlockOn(p, x.wl, n);
      SteadyOver(s, p, o.s);
      SteadyMeans(s, o.s);
      RecomputeSteady(o.s, x.owner);
      SteadyOver(s, o.s, RecomputePriority(o.s, x.owner));
    }
  }

  lemma RecomputeSteady(s: State, o: int)
    requires Wf(s) && (o == NULL || 0 <= o < |s.tasks|)
    ensures Steady(s, RecomputePriority(s, o))
  {
    hide Wf;
  }

  lemma TakeSteady(s: State, m: int)
    requires Wf(s) && 0 <= m < |s.mutexes| && 0 <= s.current < |s.tasks|
    ensures Steady(s, TakeMutex(s, m))
  {
    hide Wf;
  }

  lemma UnlockSteady(y: Sys, m: int)
    requires SysInv(y) && Legal(y, DoUnlock(m))
    ensures Steady(y.k, Act(y, DoUnlock(m)).s)
  {
    hide SysInv, KInv, Wf, MutexUnlock, LastFills;
    Ranges(y);
    UnlockAnswer(y, m);
    UnlockEffect(y.k, m);
    if HandsOff(y.k, m) {
      HandoffShape(y.k, m);
      HandedSteady(y.k, MutexUnlock(y.k, m).s, m, Chosen(y.k, y.k.mutexes[m].wl));
    } else {
      PlainUnlock(y.k, m);
    }
  }

  lemma HandedSteady(s: State, r: State, m: int, b: int)
    requires IsMutex(s, m) && Handed(s, r, m, b) && r.tick == s.tick
    ensures Steady(s, r)
  {
    hide Wf, Chosen, Pick;
  }

  lemma SendSteady(s: State, q: int, item: Item, n: int, d: int)
    requires Wf(s) && 0 <= q < |s.queues| && WfQueue(s, s.queues[q]) && |item| == s.queues[q].itemSize
    requires Word(n) && Word(d) && Pickable(s, s.queues[q].rwl) && 0 <= s.current < |s.tasks|
    ensures Calm(s, QueueSend(s, q, item, n, d).s)
  {
    hide Wf, BlockOn, Release, Calm, Pickable, Pick;
    if |s.queues[q].items| < s.queues[q].maxItems {
      var p := PutItem(s, q, item);
      PutSteady(s, q, item);
      PickSame(s, p, s.queues[q].rwl);
      ReleaseSteady(p, s.queues[q].rwl);
      CalmOver(s, p, Release(p, s.queues[q].rwl));
    } else {
      BlockSteady(s, s.queues[q].swl, Remaining(s, d));
      SelfSteady(s);
    }
  }

  lemma PutSteady(s: State, q: int, item: Item)
    requires Wf(s) && 0 <= q < |s.queues|
    requires |s.queues[q].items| < s.queues[q].maxItems && |item| == s.queues[q].itemSize
    ensures Calm(s, PutItem(s, q, item))
  {
    hide Wf;
  }

  lemma TakenSteady(s: State, q: int)
    requires Wf(s) && 0 <= q < |s.queues| && s.queues[q].items != []
    ensures Calm(s, TakeItem(s, q))
  {
    hide Wf;
  }

  lemma SelfSteady(s: State)
    ensures Calm(s, s)
  {
  }

  lemma PickSame(s: State, p: State, l: int)
    requires Wf(s) && Wf(p) && p == s.(queues := p.queues) && 0 <= l < |s.lists| && Pickable(s, l)
    ensures Pickable(p, l)
  {
    PickFrame(s, p, l);
  }

  lemma RecvSteady(s: State, q: int, n: int, d: int)
    requires Wf(s) && 0 <= q < |s.queues| && WfQueue(s, s.queues[q])
    requires Word(n) && Word(d) && Pickable(s, s.queues[q].swl) && 0 <= s.current < |s.tasks|
    ensures Calm(s, QueueRecv(s, q, n, d).s)
  {
    hide Wf, BlockOn, Release, Calm, Pickable, Pick;
    if s.queues[q].items != [] {
      var p := TakeItem(s, q);
      TakenSteady(s, q);
      PickSame(s, p, s.queues[q].swl);
      ReleaseSteady(p, s.queues[q].swl);
      CalmOver(s, p, Release(p, s.queues[q].swl));
    } else {
      BlockSteady(s, s.queues[q].rwl, Remaining(s, d));
      SelfSteady(s);
    }
  }

  lemma ResumeConstants(y: Sys)
    requires SysInv(y) && Legal(y, Resume)
    ensures Steady(y.k, Act(y, Resume).s)
    ensures !y.calls[y.k.current].WaitMutex? ==> Calm(y.k, Act(y, Resume).s)
  {
    hide SysInv, KInv, Wf, QueueSend, QueueRecv, RecomputePriority, Steady, Calm;
    SteadyMeans(y.k, Act(y, Resume).s);
    Ranges(y);
    var k, c := y.k, y.calls[y.k.current];
    SelfSteady(k);
    if c.WaitMutex? {
      ResumeRecomputes(y);
      RecomputeSteady(k, OwnerAtResume(y));
    } else if c.Sending? {
      AnyPickable(k, k.queues[c.sq].rwl);
      SendSteady(k, c.sq, c.item, c.stimeout, c.sdeadline);
    } else if c.Receiving? {
      AnyPickable(k, k.queues[c.rq].swl);
      RecvSteady(k, c.rq, c.rtimeout, c.rdeadline);
    }
  }

  lemma QueueConstants(y: Sys, a: Action)
    requires SysInv(y) && Legal(y, a) && (a.DoSend? || a.DoRecv? || a.IsrPut? || a.IsrGet?)
    ensures Calm(y.k, Act(y, a).s)
  {
    hide SysInv, KInv, Wf, QueueSend, QueueRecv, Calm, Pickable;
    Ranges(y);
    match a
    case DoSend(q, x, n) =>
      AnyPickable(y.k, y.k.queues[q].rwl);
      SendSteady(y.k, q, x, n, DeadlineOf(y.k.tick, n));
    case DoRecv(q, n) =>
      AnyPickable(y.k, y.k.queues[q].swl);
      RecvSteady(y.k, q, n, DeadlineOf(y.k.tick, n));
    case IsrPut(q, x) =>
      AnyPickable(y.k, y.k.queues[q].rwl);
      IsrPutSteady(y.k, q, x);
    case IsrGet(q) =>
      AnyPickable(y.k, y.k.queues[q].swl);
      RecvSteady(y.k, q, 0, y.k.tick);
    case _ =>
  }

  lemma IsrPutSteady(s: State, q: int, item: Item)
    requires Wf(s) && 0 <= q < |s.queues| && WfQueue(s, s.queues[q]) && |item| == s.queues[q].itemSize
    requires Pickable(s, s.queues[q].rwl) && 0 <= s.current < |s.tasks| && Word(s.tick)
    ensures Calm(s, IsrSend(s, q, item).s)
  {
    hide Wf, QueueSend, Pickable;
    SendSteady(s, q, item, 0, s.tick);
  }

  /** Semaphores are counted by their waits and posts only, and queues filled and emptied by their
      sends and receives only. */
  lemma OwnCallsOnly(y: Sys, a: Action)
    requires SysInv(y) && Legal(y, a)
    ensures !a.DoWait? && !a.DoPost? ==> Act(y, a).s.sems == y.k.sems
    ensures a.TickIrq? || a.Switch? || a.DoDelay? || a.DoWait? || a.DoPost? || a.DoLock? || a.DoUnlock? ==>
      Act(y, a).s.queues == y.k.queues
  {
    hide SysInv, KInv, Wf, QueueSend, QueueRecv;
    Ranges(y);
    var k := y.k;
    match a
    case TickIrq => TickEffect(k);
    case Switch => SwitchEffect(k);
    case IsrPut(q, x) => IsrPutEffect(k, q, x);
    case IsrGet(q) => RecvEffect(k, q, 0, k.tick);
    case DoDelay(n) =>
    case DoWait(i, n) => WaitEffect(k, i, n);
    case DoPost(i) => PostEffect(k, i);
    case DoLock(m, n) => LockEffect(k, m, n);
    case DoUnlock(m) => UnlockEffect(k, m);
    case DoSend(q, x, n) => SendEffect(k, q, x, n, DeadlineOf(k.tick, n));
    case DoRecv(q, n) => RecvEffect(k, q, n, DeadlineOf(k.tick, n));
    case Resume => ResumeTables(y);
  }

  lemma ResumeTables(y: Sys)
    requires SysInv(y) && Legal(y, Resume)
    ensures Act(y, Resume).s.sems == y.k.sems
  {
    hide SysInv, KInv, Wf, QueueSend, QueueRecv;
    Ranges(y);
    var k, c := y.k, y.calls[y.k.current];
    if c.WaitSem? || c.WaitMutex? || k.tasks[k.current].timeout {
      ResumeEffect(y);
    } else if c.Sending? {
      SendEffect(k, c.sq, c.item, c.stimeout, c.sdeadline);
    } else {
      RecvEffect(k, c.rq, c.rtimeout, c.rdeadline);
    }
  }
}
