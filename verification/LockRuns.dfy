/** What the return of a lock call says about the owner of the mutex. */
module LockRuns {
  import opened Types
  import opened Spec
  import opened Invariants
  import opened Preserve
  import opened Handoff
  import opened Runs
  import opened Effects
  import opened Traces
  import opened PriorityRuns
  import opened TimeRuns

  /** A task that has been woken inside a lock call owns the mutex exactly if no tick woke it. */
  ghost predicate GrantedAt(k: State, c: Call, t: int)
    requires 0 <= t < |k.tasks|
  {
    c.WaitMutex? && k.tasks[t].state != Blocked ==>
      0 <= c.mutex < |k.mutexes| && (k.mutexes[c.mutex].owner == t <==> !k.tasks[t].timeout)
  }

  ghost predicate Granted(y: Sys) {
    |y.calls| == |y.k.tasks| && forall t :: 0 <= t < |y.calls| ==> GrantedAt(y.k, y.calls[t], t)
  }

  /** A task is inside a lock call after an action if it was before, and does not continue it now,
      or if it has just blocked in it. */
  lemma InLock(y: Sys, a: Action, t: int)
    requires SysInv(y) && Legal(y, a) && 0 <= t < |y.calls|
    ensures var z := Step(y, a);
      |z.calls| == |z.k.tasks| == |y.calls| &&
      (z.calls[t].WaitMutex? && z.k.tasks[t].state != Blocked ==>
        0 < t && z.calls[t] == y.calls[t] && !(a.Resume? && y.k.current == t))
  {
    StepCall(y, a, t);
    Ranges(y);
    if Act(y, a).ret == Blocks {
      NeverBlocks(y, a);
      ActEffect(y, a);
    }
    hide KInv, Wf;
    assert CallOk(y, t);
  }

  /** Whom a release of a mutex's list wakes: the unlocking owner's successor. */
  lemma ReleasedOwns(y: Sys, a: Action, t: int, m: int)
    requires SysInv(y) && Legal(y, a) && 0 < t < |y.calls| && y.calls[t] == WaitMutex(m)
    requires y.k.tasks[t].state == Blocked
    requires Released(y, a) == t && ReleaseList(y, a) == y.k.tasks[t].blockedOn
    ensures 0 <= m < |y.k.mutexes| == |Act(y, a).s.mutexes| && Act(y, a).s.mutexes[m].owner == t
  {
    WaitsFor(y, t, m);
    ReleasesMutex(y, a, m);
    OwnerChanges(y, a, m);
  }

  /** A task blocked in a lock call sits in the mutex's list and does not own the mutex. */
  lemma WaitsFor(y: Sys, t: int, m: int)
    requires SysInv(y) && 0 <= t < |y.calls| && y.calls[t] == WaitMutex(m) && y.k.tasks[t].state == Blocked
    ensures 0 <= m < |y.k.mutexes| && y.k.tasks[t].blockedOn == y.k.mutexes[m].wl != NULL
    ensures y.k.mutexes[m].owner != t
  {
    assert CallOk(y, t) && OwnMutex(y.k, m);
    assert WfList(y.k, y.k.lists[y.k.tasks[t].blockedOn]);
  }

  /** Only an unlock by the owner releases the list of a mutex. */
  lemma ReleasesMutex(y: Sys, a: Action, m: int)
    requires SysInv(y) && Legal(y, a) && 0 <= m < |y.k.mutexes| && ReleaseList(y, a) == y.k.mutexes[m].wl
    ensures a.DoUnlock? && a.umutex == m && y.k.mutexes[m].owner == y.k.current
  {
    assert OwnMutex(y.k, m) && CallOk(y, y.k.current);
    if a.DoUnlock? {
      assert OwnMutex(y.k, a.umutex);
    }
  }

  lemma StepGrantedAt(y: Sys, a: Action, t: int)
    requires SysInv(y) && Legal(y, a) && 0 <= t < |y.calls| == |y.k.tasks| && GrantedAt(y.k, y.calls[t], t)
    ensures |Step(y, a).calls| == |Step(y, a).k.tasks| == |y.calls| && GrantedAt(Step(y, a).k, Step(y, a).calls[t], t)
  {
    InLock(y, a, t);
    var z := Step(y, a);
    if z.calls[t].WaitMutex? && z.k.tasks[t].state != Blocked {
      if y.k.tasks[t].state == Blocked {
        WakesGranted(y, a, t, y.calls[t].mutex);
      } else {
        StaysGranted(y, a, t, y.calls[t].mutex);
      }
    }
  }

  lemma WakesGranted(y: Sys, a: Action, t: int, m: int)
    requires SysInv(y) && Legal(y, a) && 0 < t < |y.calls| == |y.k.tasks| && y.calls[t] == WaitMutex(m)
    requires y.k.tasks[t].state == Blocked
    requires |Step(y, a).k.tasks| == |y.calls| && Step(y, a).k.tasks[t].state != Blocked
    ensures GrantedAt(Step(y, a).k, WaitMutex(m), t)
  {
    WaitsFor(y, t, m);
    hide SysInv, KInv, Wf, Act;
    WakeCause(y, a, t);
    OwnerChanges(y, a, m);
    if !a.TickIrq? {
      ReleasedOwns(y, a, t, m);
    }
  }

  lemma StaysGranted(y: Sys, a: Action, t: int, m: int)
    requires SysInv(y) && Legal(y, a) && 0 < t < |y.calls| == |y.k.tasks| && y.calls[t] == WaitMutex(m)
    requires y.k.tasks[t].state != Blocked && GrantedAt(y.k, y.calls[t], t) && !(a.Resume? && y.k.current == t)
    ensures |Step(y, a).k.tasks| == |y.k.tasks| && GrantedAt(Step(y, a).k, WaitMutex(m), t)
  {
    FreeActs(y, a, t);
    hide SysInv, KInv, Wf, Act;
    WokeStays(y, a, t);
    OwnerChanges(y, a, m);
    if a.DoUnlock? && a.umutex == m && y.k.mutexes[m].owner == y.k.current {
      SuccessorWaits(y.k, m);
    }
  }

  /** A task in the middle of a call makes no other. */
  lemma FreeActs(y: Sys, a: Action, t: int)
    requires SysInv(y) && Legal(y, a) && 0 <= t < |y.calls| && y.calls[t] != NoCall
    ensures a.DoLock? || a.DoUnlock? ==> t != y.k.current
  {
  }

  lemma SuccessorWaits(s: State, m: int)
    requires KInv(s) && 0 <= m < |s.mutexes|
    ensures WfMutex(s, s.mutexes[m])
    ensures Chosen(s, s.mutexes[m].wl) != NULL ==> s.tasks[Chosen(s, s.mutexes[m].wl)].state == Blocked
  {
    var l := s.mutexes[m].wl;
    assert OwnMutex(s, m) && AgreeList(s, l);
    if Chosen(s, l) != NULL {
      assert AgreeTask(s, Chosen(s, l));
    }
  }

  lemma {:induction false} RunGranted(y: Sys, acts: seq<Action>)
    requires SysInv(y) && Run(y, acts) && Granted(y)
    ensures Granted(Exec(y, acts))
    decreases |acts|
  {
    hide SysInv, KInv, Wf, Step, Legal, GrantedAt;
    if acts != [] {
      StepKeeps(y, acts[0]);
      Ranges(y);
      StepCall(y, acts[0], y.k.current);
      forall t | 0 <= t < |y.calls|
        ensures GrantedAt(Step(y, acts[0]).k, Step(y, acts[0]).calls[t], t)
      {
        StepGrantedAt(y, acts[0], t);
      }
      RunGranted(Step(y, acts[0]), acts[1..]);
    }
  }

  /** A blocked lock call returns OS_OK exactly if its caller owns the mutex then, and
      OS_ERR_UNAVAILABLE otherwise. */
  lemma ResumeOwns(y: Sys, m: int)
    requires SysInv(y) && Legal(y, Resume) && y.calls[y.k.current] == WaitMutex(m) && Granted(y)
    ensures var r := Act(y, Resume);
      && 0 <= m < |r.s.mutexes|
      && r.ret == Returns(if r.s.mutexes[m].owner == y.k.current then Ok else Unavailable)
  {
    Ranges(y);
    assert GrantedAt(y.k, y.calls[y.k.current], y.k.current);
    hide SysInv, KInv, Wf, Continue;
    ResumeEffect(y);
  }

  /** A lock call that does not block leaves the mutex with its caller exactly if it returns OS_OK
      or reports that the caller had it already. */
  lemma LockOwns(y: Sys, m: int, n: int)
    requires SysInv(y) && Legal(y, DoLock(m, n)) && Act(y, DoLock(m, n)).ret != Blocks
    ensures var r := Act(y, DoLock(m, n));
      && 0 <= m < |r.s.mutexes|
      && (r.s.mutexes[m].owner == y.k.current <==> r.ret == Returns(Ok) || r.ret == Returns(RecursiveLock))
      && (r.ret == Returns(RecursiveLock) <==> y.k.mutexes[m].owner == y.k.current)
  {
    Ranges(y);
    assert OwnMutex(y.k, m);
    LockEffect(y.k, m, n);
    hide SysInv, KInv, Wf;
  }
}
