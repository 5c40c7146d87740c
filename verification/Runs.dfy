/** Whole runs: tasks, interrupts and the pended context switch interleave freely.

    A task runs only while no switch is pended, because PendSV fires as soon as a critical
    section is left. A blocked call is remembered per task and continued by `Resume` once the
    task has been dispatched again. */
module Runs {
  import opened Types
  import opened Inheritance
  import opened Spec
  import opened Invariants
  import opened Preserve
  import opened Handoff

  /** The blocking call a task is in the middle of. */
  datatype Call =
    | NoCall
    | WaitSem(sem: int)
    | WaitMutex(mutex: int)
    | Sending(sq: int, item: Item, stimeout: int, sdeadline: int)
    | Receiving(rq: int, rtimeout: int, rdeadline: int)

  datatype Sys = Sys(k: State, calls: seq<Call>)

  datatype Action =
    | TickIrq
    | Switch
    | IsrPut(iq: int, iitem: Item)
    | IsrGet(gq: int)
    | DoDelay(ticks: int)
    | DoWait(wsem: int, wtimeout: int)
    | DoPost(psem: int)
    | DoLock(lmutex: int, ltimeout: int)
    | DoUnlock(umutex: int)
    | DoSend(dq: int, ditem: Item, dtimeout: int)
    | DoRecv(vq: int, vtimeout: int)
    | Resume

  // ---------------------------------------------------------------- what may happen

  predicate TaskRuns(y: Sys)
    requires Wf(y.k)
  {
    !y.k.pending && MayBlock(y.k)
  }

  predicate Word(x: int) {
    0 <= x < U32
  }

  /** Arguments are in range; a task that gets a mutex has room for it. */
  predicate Legal(y: Sys, a: Action) {
    Wf(y.k) && |y.calls| == |y.k.tasks| && Permitted(y, a)
  }

  predicate Permitted(y: Sys, a: Action)
    requires Wf(y.k) && |y.calls| == |y.k.tasks|
  {
    var k := y.k;
    var free := TaskRuns(y) && y.calls[k.current] == NoCall;
    match a
    case TickIrq => true
    case Switch => k.pending
    case IsrPut(q, x) => 0 <= q < |k.queues| && |x| == k.queues[q].itemSize
    case IsrGet(q) => 0 <= q < |k.queues|
    case DoDelay(n) => free && Word(n)
    case DoWait(i, n) => free && 0 <= i < |k.sems| && Word(n)
    case DoPost(i) => free && 0 <= i < |k.sems|
    case DoLock(m, n) => free && 0 <= m < |k.mutexes| && Word(n) && HasRoom(k, m, n)
    case DoUnlock(m) => free && 0 <= m < |k.mutexes|
    case DoSend(q, x, n) => free && 0 <= q < |k.queues| && |x| == k.queues[q].itemSize && Word(n)
    case DoRecv(q, n) => free && 0 <= q < |k.queues| && Word(n)
    case Resume => TaskRuns(y) && y.calls[k.current] != NoCall
  }

  // ---------------------------------------------------------------- the run invariant

  predicate CallFits(k: State, c: Call) {
    match c
    case NoCall => true
    case WaitSem(i) => 0 <= i < |k.sems|
    case WaitMutex(m) => 0 <= m < |k.mutexes|
    case Sending(q, x, n, d) => 0 <= q < |k.queues| && |x| == k.queues[q].itemSize && 0 < n < U32 && Word(d)
    case Receiving(q, n, d) => 0 <= q < |k.queues| && 0 < n < U32 && Word(d)
  }

  /** The wait list that a call blocks on. */
  predicate CallAt(c: Call, h: Home) {
    match c
    case NoCall => false
    case WaitSem(i) => h == InSem(i)
    case WaitMutex(m) => h == InMutex(m)
    case Sending(q, _, _, _) => h == InSend(q)
    case Receiving(q, _, _) => h == InRecv(q)
  }

  /** A task blocked in a queue call always carries the call's original deadline. */
  predicate CallDeadline(x: Task, c: Call) {
    && (c.Sending? ==> x.wakeup == c.sdeadline)
    && (c.Receiving? ==> x.wakeup == c.rdeadline)
  }

  ghost predicate CallOk(y: Sys, t: int)
    requires Wf(y.k) && |y.calls| == |y.k.tasks| && 0 <= t < |y.calls|
  {
    var x := y.k.tasks[t];
    && WfTask(y.k, x)
    && CallFits(y.k, y.calls[t])
    && (x.blockedOn != NULL ==> CallAt(y.calls[t], y.k.lists[x.blockedOn].home) && CallDeadline(x, y.calls[t]))
    && (x.blockedOn == NULL && x.state == Blocked ==> y.calls[t] == NoCall)
    && (t == 0 ==> y.calls[t] == NoCall)
  }

  ghost predicate SysInv(y: Sys) {
    && KInv(y.k)
    && |y.calls| == |y.k.tasks|
    && (forall t :: 0 <= t < |y.calls| ==> CallOk(y, t))
    && (y.k.pending || |y.calls| == 1 || y.k.tasks[y.k.current].state == Running)
  }

  // ---------------------------------------------------------------- steps

  /** What a resumed call does, from its return from waitlist_block_current. */
  ghost function Continue(y: Sys): (r: Outcome)
    requires SysInv(y) && Legal(y, Resume)
    ensures Wf(r.s)
  {
    var k := y.k;
    assert CallOk(y, k.current);
    match y.calls[k.current]
    case WaitSem(i) => Outcome(k, Returns(Verdict(k)))
    case WaitMutex(m) => MutexResume(k, m)
    case Sending(q, x, n, d) =>
      if k.tasks[k.current].timeout then Outcome(k, Returns(Unavailable))
      else
        QueueSendKeeps(k, q, x, n, d);
        QueueSend(k, q, x, n, d)
    case Receiving(q, n, d) =>
      if k.tasks[k.current].timeout then Outcome(k, Returns(Unavailable))
      else
        QueueRecvKeeps(k, q, n, d);
        QueueRecv(k, q, n, d)
  }

  /** The effect of an action on the kernel and what it returns to its caller. */
  ghost function Act(y: Sys, a: Action): (r: Outcome)
    requires SysInv(y) && Legal(y, a)
    ensures Wf(r.s)
  {
    var k := y.k;
    match a
    case TickIrq => Outcome(Tick(k), Returns(Ok))
    case Switch => Outcome(Dispatch(k), Returns(Ok))
    case IsrPut(q, x) => IsrSendKeeps(k, q, x); IsrSend(k, q, x)
    case IsrGet(q) => QueueRecvKeeps(k, q, 0, k.tick); IsrRecv(k, q)
    case DoDelay(n) => Outcome(Delay(k, n), Returns(Ok))
    case DoWait(i, n) => SemWait(k, i, n)
    case DoPost(i) => SemPostKeeps(k, i); Outcome(SemPost(k, i), Returns(Ok))
    case DoLock(m, n) => MutexLock(k, m, n)
    case DoUnlock(m) => UnlockReady(k, m); MutexUnlock(k, m)
    case DoSend(q, x, n) =>
      QueueSendKeeps(k, q, x, n, DeadlineOf(k.tick, n));
      QueueSend(k, q, x, n, DeadlineOf(k.tick, n))
    case DoRecv(q, n) =>
      QueueRecvKeeps(k, q, n, DeadlineOf(k.tick, n));
      QueueRecv(k, q, n, DeadlineOf(k.tick, n))
    case Resume => Continue(y)
  }

  /** The call that the current task is in if the action blocks it. */
  function CallOf(y: Sys, a: Action): Call
    requires 0 <= y.k.current < |y.calls|
  {
    match a
    case DoWait(i, _) => WaitSem(i)
    case DoLock(m, _) => WaitMutex(m)
    case DoSend(q, x, n) => Sending(q, x, n, DeadlineOf(y.k.tick, n))
    case DoRecv(q, n) => Receiving(q, n, DeadlineOf(y.k.tick, n))
    case _ => y.calls[y.k.current]
  }

  ghost function Step(y: Sys, a: Action): Sys
    requires SysInv(y) && Legal(y, a)
  {
    var r := Act(y, a);
    var calls :=
      if r.ret == Blocks then y.calls[y.k.current := CallOf(y, a)]
      else if a == Resume then y.calls[y.k.current := NoCall]
      else y.calls;
    Sys(r.s, calls)
  }

  lemma UnlockReady(s: State, m: int)
    requires KInv(s) && 0 <= m < |s.mutexes|
    ensures WfMutex(s, s.mutexes[m]) && Pickable(Disown(s, m), s.mutexes[m].wl)
  {
    var l := s.mutexes[m].wl;
    AlwaysPickable(s, l);
    assert Effs(Disown(s, m)) == Effs(s);
  }

  // ---------------------------------------------------------------- every step keeps the invariant

  lemma LockKeeps(s: State, m: int, timeout: int)
    requires KInv(s) && MayBlock(s) && 0 <= m < |s.mutexes| && Word(timeout)
    requires HasRoom(s, m, timeout)
    ensures KInv(MutexLock(s, m, timeout).s) && MutexLock(s, m, timeout).ret != Returns(WaitlistFull)
  {
    assert OwnMutex(s, m);
    if !s.mutexes[m].locked {
      TakeKeeps(s, m);
    } else if s.mutexes[m].owner != s.current && timeout != 0 {
      assert WfList(s, s.lists[s.mutexes[m].wl]);
      LockBlockKeeps(s, m, timeout);
    }
  }

  lemma UnlockKeeps(s: State, m: int)
    requires KInv(s) && MayBlock(s) && 0 <= m < |s.mutexes|
    ensures WfMutex(s, s.mutexes[m]) && Pickable(Disown(s, m), s.mutexes[m].wl) && KInv(MutexUnlock(s, m).s)
  {
    UnlockReady(s, m);
    if s.mutexes[m].owner == s.current {
      if s.lists[s.mutexes[m].wl].waiters == [] {
        VacateKeeps(s, m);
      } else {
        HandoffKeeps(s, m);
      }
    }
  }

  lemma ContinueKeeps(y: Sys)
    requires SysInv(y) && Legal(y, Resume)
    ensures KInv(Continue(y).s) && Continue(y).ret != Returns(WaitlistFull)
  {
    var k := y.k;
    assert CallOk(y, k.current);
    match y.calls[k.current]
    case WaitSem(i) =>
    case WaitMutex(m) =>
      assert WfMutex(k, k.mutexes[m]);
      RecomputeKeeps(k, k.mutexes[m].owner);
    case Sending(q, x, n, d) =>
      QueueSendKeeps(k, q, x, n, d);
    case Receiving(q, n, d) =>
      QueueRecvKeeps(k, q, n, d);
  }

  /** Every action keeps the kernel invariant, and no call ever finds a wait list full. */
  lemma ActKeeps(y: Sys, a: Action)
    requires SysInv(y) && Legal(y, a)
    ensures KInv(Act(y, a).s) && Act(y, a).ret != Returns(WaitlistFull)
  {
    hide *;
    if a.TickIrq? || a.Switch? || a.IsrPut? || a.IsrGet? {
      IrqKeeps(y, a);
    } else if a.DoLock? || a.DoUnlock? {
      MutexCallKeeps(y, a);
    } else if a.Resume? {
      ResumeKeeps(y);
    } else {
      CallKeeps(y, a);
    }
  }

  lemma IrqKeeps(y: Sys, a: Action)
    requires SysInv(y) && Legal(y, a) && (a.TickIrq? || a.Switch? || a.IsrPut? || a.IsrGet?)
    ensures KInv(Act(y, a).s) && Act(y, a).ret != Returns(WaitlistFull)
  {
    var k := y.k;
    TickWord(k);
    hide KInv, Wf, Tick, Dispatch, QueueSend, QueueRecv;
    match a
    case TickIrq => TickKeeps(k);
    case Switch => DispatchKeeps(k);
    case IsrPut(q, x) => IsrSendKeeps(k, q, x); QueueSendKeeps(k, q, x, 0, k.tick);
    case IsrGet(q) => QueueRecvKeeps(k, q, 0, k.tick);
  }

  lemma TickWord(s: State)
    requires KInv(s)
    ensures Word(s.tick)
  {
  }

  lemma MutexCallKeeps(y: Sys, a: Action)
    requires SysInv(y) && Legal(y, a) && (a.DoLock? || a.DoUnlock?)
    ensures KInv(Act(y, a).s) && Act(y, a).ret != Returns(WaitlistFull)
  {
    hide KInv, Wf, MutexLock;
    if a.DoLock? {
      LockKeeps(y.k, a.lmutex, a.ltimeout);
    } else {
      UnlockKeeps(y.k, a.umutex);
    }
  }

  lemma ResumeKeeps(y: Sys)
    requires SysInv(y) && Legal(y, Resume)
    ensures KInv(Act(y, Resume).s) && Act(y, Resume).ret != Returns(WaitlistFull)
  {
    hide KInv, Wf, Continue;
    ContinueKeeps(y);
  }

  lemma CallKeeps(y: Sys, a: Action)
    requires SysInv(y) && Legal(y, a)
    requires !a.TickIrq? && !a.Switch? && !a.IsrPut? && !a.IsrGet? && !a.DoLock? && !a.DoUnlock? && !a.Resume?
    ensures KInv(Act(y, a).s) && Act(y, a).ret != Returns(WaitlistFull)
  {
    var k := y.k;
    TickWord(k);
    hide KInv, Wf, QueueSend, QueueRecv, SemWait, SemPost;
    match a
    case DoDelay(n) => DelayKeeps(k, n);
    case DoWait(i, n) => SemWaitKeeps(k, i, n);
    case DoPost(i) => SemPostKeeps(k, i);
    case DoSend(q, x, n) => QueueSendKeeps(k, q, x, n, DeadlineOf(k.tick, n));
    case DoRecv(q, n) => QueueRecvKeeps(k, q, n, DeadlineOf(k.tick, n));
    case _ =>
  }
}
