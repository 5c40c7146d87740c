/** Counting semaphores over whole runs: nothing posted is lost, nothing is granted twice. */
module SemRuns {
  import opened Types
  import opened Spec
  import opened Invariants
  import opened Preserve
  import opened Runs
  import opened Effects
  import opened Traces
  import opened TimeRuns
  import opened Wakeups

  ghost predicate IsPost(y: Sys, a: Action, i: int) {
    a.DoPost? && a.psem == i
  }

  /** A wait on semaphore `i` returns OS_OK, at once or after having been blocked. */
  ghost predicate IsGrant(y: Sys, a: Action, i: int) {
    && SysInv(y) && Legal(y, a) && Act(y, a).ret == Returns(Ok)
    && ((a.DoWait? && a.wsem == i) || (a.Resume? && y.calls[y.k.current] == WaitSem(i)))
  }

  /** A post with nobody waiting that wraps the 8-bit count. */
  ghost predicate IsWrap(y: Sys, a: Action, i: int) {
    IsPost(y, a, i) && 0 <= i < |y.k.sems| && y.k.sems[i].count == 255 &&
    0 <= y.k.sems[i].wl < |y.k.lists| && y.k.lists[y.k.sems[i].wl].waiters == []
  }

  ghost function Posts(i: int): (Sys, Action) -> bool {
    (y, a) => IsPost(y, a, i)
  }

  ghost function Grants(i: int): (Sys, Action) -> bool {
    (y, a) => IsGrant(y, a, i)
  }

  ghost function Wraps(i: int): (Sys, Action) -> bool {
    (y, a) => IsWrap(y, a, i)
  }

  /** Units that a semaphore holds: its count and the grants of woken waiters that have not run. */
  function Units(y: Sys, i: int): int
    requires 0 <= i < |y.k.sems|
  {
    y.k.sems[i].count + |WokenSet(y, InSem(i))|
  }

  function One(b: bool): int {
    if b then 1 else 0
  }

  lemma SemStep(y: Sys, a: Action, i: int)
    requires SysInv(y) && Legal(y, a) && 0 <= i < |y.k.sems|
    ensures |Step(y, a).k.sems| == |y.k.sems|
    ensures Units(y, i) + One(IsPost(y, a, i)) ==
      Units(Step(y, a), i) + One(IsGrant(y, a, i)) + 256 * One(IsWrap(y, a, i))
  {
    hide SysInv, KInv, Wf, WokenSet, Step, Continues, Releases;
    Ranges(y);
    WokenCount(y, a, InSem(i));
    if a.DoPost? {
      PostUnits(y, a, i);
    } else if a.DoWait? {
      WaitUnits(y, a, i);
    } else if a.Resume? {
      ResumeUnits(y, i);
    } else {
      OtherUnits(y, a, i);
    }
  }

  lemma SemHome(s: State, i: int)
    requires KInv(s) && 0 <= i < |s.sems|
    ensures 0 <= s.sems[i].wl < |s.lists| && s.lists[s.sems[i].wl].home == InSem(i) && 0 <= s.sems[i].count < 256
  {
  }

  lemma PostUnits(y: Sys, a: Action, i: int)
    requires SysInv(y) && Legal(y, a) && 0 <= i < |y.k.sems| && a.DoPost?
    ensures |Step(y, a).k.sems| == |y.k.sems| && !Continues(y, a, InSem(i)) && !IsGrant(y, a, i)
    ensures Step(y, a).k.sems[i].count + One(Releases(y, a, InSem(i))) + 256 * One(IsWrap(y, a, i)) ==
      y.k.sems[i].count + One(IsPost(y, a, i))
  {
    hide SysInv, KInv, Wf, SemPost;
    Ranges(y);
    SemHome(y.k, i);
    SemHome(y.k, a.psem);
    PostEffect(y.k, a.psem);
  }

  lemma WaitUnits(y: Sys, a: Action, i: int)
    requires SysInv(y) && Legal(y, a) && 0 <= i < |y.k.sems| && a.DoWait?
    ensures |Step(y, a).k.sems| == |y.k.sems| && !Continues(y, a, InSem(i)) && !Releases(y, a, InSem(i))
    ensures Step(y, a).k.sems[i].count + One(IsGrant(y, a, i)) == y.k.sems[i].count
  {
    SemHome(y.k, a.wsem);
    WaitEffect(y.k, a.wsem, a.wtimeout);
    hide KInv, Wf, SemWait;
  }

  lemma ResumeUnits(y: Sys, i: int)
    requires SysInv(y) && Legal(y, Resume) && 0 <= i < |y.k.sems|
    ensures |Step(y, Resume).k.sems| == |y.k.sems| && !Releases(y, Resume, InSem(i))
    ensures Step(y, Resume).k.sems == y.k.sems && (IsGrant(y, Resume, i) <==> Continues(y, Resume, InSem(i)))
  {
    if Released(y, Resume) != NULL {
      ResumeFreesQueue(y);
    }
    ResumeSems(y);
    hide KInv, Wf, Continue;
    if y.calls[y.k.current].WaitSem? {
      ResumeEffect(y);
    }
  }

  lemma ResumeFreesQueue(y: Sys)
    requires SysInv(y) && Legal(y, Resume) && ReleaseList(y, Resume) != NULL
    ensures !y.k.lists[ReleaseList(y, Resume)].home.InSem?
  {
    var c := y.calls[y.k.current];
    assert CallOk(y, y.k.current);
    if c.Sending? {
      assert WfQueue(y.k, y.k.queues[c.sq]);
    } else {
      assert WfQueue(y.k, y.k.queues[c.rq]);
    }
  }

  lemma ResumeSems(y: Sys)
    requires SysInv(y) && Legal(y, Resume)
    ensures Continue(y).s.sems == y.k.sems
  {
    hide SysInv, KInv, Wf, QueueSend, QueueRecv;
    Ranges(y);
    var c := y.calls[y.k.current];
    if c.WaitSem? || c.WaitMutex? || y.k.tasks[y.k.current].timeout {
      ResumeEffect(y);
    } else if c.Sending? {
      SendEffect(y.k, c.sq, c.item, c.stimeout, c.sdeadline);
    } else {
      RecvEffect(y.k, c.rq, c.rtimeout, c.rdeadline);
    }
  }

  lemma OtherUnits(y: Sys, a: Action, i: int)
    requires SysInv(y) && Legal(y, a) && 0 <= i < |y.k.sems| && !a.DoPost? && !a.DoWait? && !a.Resume?
    ensures Step(y, a).k.sems == y.k.sems && !Continues(y, a, InSem(i)) && !Releases(y, a, InSem(i))
  {
    OtherHomes(y, a);
    OtherSems(y, a);
  }

  lemma OtherHomes(y: Sys, a: Action)
    requires SysInv(y) && Legal(y, a) && !a.DoPost? && !a.DoWait? && !a.Resume?
    ensures ReleaseList(y, a) != NULL ==> !y.k.lists[ReleaseList(y, a)].home.InSem?
  {
    var l := ReleaseList(y, a);
    assert forall q :: 0 <= q < |y.k.queues| ==> WfQueue(y.k, y.k.queues[q]);
    if a.DoUnlock? {
      assert OwnMutex(y.k, a.umutex);
    }
  }

  lemma OtherSems(y: Sys, a: Action)
    requires SysInv(y) && Legal(y, a) && !a.DoPost? && !a.DoWait? && !a.Resume?
    ensures Act(y, a).s.sems == y.k.sems
  {
    hide SysInv, KInv, Wf, QueueSend, QueueRecv, AfterRelease, AfterBlock, SameTables;
    Ranges(y);
    if a.TickIrq? {
      TickEffect(y.k);
    } else if a.Switch? {
      SwitchEffect(y.k);
    } else if a.IsrPut? {
      IsrPutEffect(y.k, a.iq, a.iitem);
    } else if a.IsrGet? {
      RecvEffect(y.k, a.gq, 0, y.k.tick);
    } else if a.DoLock? {
      LockEffect(y.k, a.lmutex, a.ltimeout);
    } else if a.DoUnlock? {
      UnlockEffect(y.k, a.umutex);
    } else if a.DoSend? {
      SendEffect(y.k, a.dq, a.ditem, a.dtimeout, DeadlineOf(y.k.tick, a.dtimeout));
    } else if a.DoRecv? {
      RecvEffect(y.k, a.vq, a.vtimeout, DeadlineOf(y.k.tick, a.vtimeout));
    }
  }

  /** Conservation: over every run, what a semaphore held plus what was posted is what it holds
      plus what was granted, plus 256 for every post that wrapped the 8-bit count. */
  lemma {:induction false} RunConserves(y: Sys, acts: seq<Action>, i: int)
    requires SysInv(y) && Run(y, acts) && 0 <= i < |y.k.sems|
    ensures |Exec(y, acts).k.sems| == |y.k.sems|
    ensures Units(y, i) + Count(y, acts, Posts(i)) ==
      Units(Exec(y, acts), i) + Count(y, acts, Grants(i)) + 256 * Count(y, acts, Wraps(i))
    decreases |acts|
  {
    hide SysInv, KInv, Wf, Step, Units, IsPost, IsGrant, IsWrap;
    if acts != [] {
      StepKeeps(y, acts[0]);
      SemStep(y, acts[0], i);
      RunConserves(Step(y, acts[0]), acts[1..], i);
    }
  }

  // ---------------------------------------------------------------- a positive count means nobody waits

  ghost predicate CountOrWaiters(s: State, i: int)
    requires 0 <= i < |s.sems| && 0 <= s.sems[i].wl < |s.lists|
  {
    s.sems[i].count > 0 ==> s.lists[s.sems[i].wl].waiters == []
  }

  lemma CountStep(y: Sys, a: Action, i: int)
    requires SysInv(y) && Legal(y, a) && 0 <= i < |y.k.sems| && 0 <= y.k.sems[i].wl < |y.k.lists|
    requires CountOrWaiters(y.k, i)
    ensures var z := Step(y, a).k;
      |z.sems| == |y.k.sems| && |z.lists| == |y.k.lists|
      && z.sems[i].wl == y.k.sems[i].wl && CountOrWaiters(z, i)
  {
    hide SysInv, KInv, Wf, SemPost, SemWait, AfterRelease, AfterBlock, BlockList;
    Ranges(y);
    SemHome(y.k, i);
    ListGrows(y, a, y.k.sems[i].wl);
    if a.DoPost? {
      SemHome(y.k, a.psem);
      PostEffect(y.k, a.psem);
    } else if a.DoWait? {
      SemHome(y.k, a.wsem);
      WaitEffect(y.k, a.wsem, a.wtimeout);
      if Act(y, a).ret == Blocks {
        BlockHome(y, a);
      }
    } else {
      SemsSame(y, a);
      if Act(y, a).ret == Blocks {
        NeverBlocks(y, a);
        BlockHome(y, a);
      }
    }
  }

  lemma SemsSame(y: Sys, a: Action)
    requires SysInv(y) && Legal(y, a) && !a.DoPost? && !a.DoWait?
    ensures Act(y, a).s.sems == y.k.sems
  {
    hide SysInv, KInv, Wf, Continue;
    if a.Resume? {
      ResumeSems(y);
    } else {
      OtherSems(y, a);
    }
  }

  /** Along every run a semaphore with a positive count has nobody waiting. */
  lemma {:induction false} RunCountOrWaiters(y: Sys, acts: seq<Action>, i: int)
    requires SysInv(y) && Run(y, acts) && 0 <= i < |y.k.sems| && 0 <= y.k.sems[i].wl < |y.k.lists|
    requires CountOrWaiters(y.k, i)
    ensures var z := Exec(y, acts).k; |z.sems| == |y.k.sems| && 0 <= z.sems[i].wl < |z.lists| && CountOrWaiters(z, i)
    decreases |acts|
  {
    hide SysInv, KInv, Wf, Step, CountOrWaiters;
    if acts != [] {
      StepKeeps(y, acts[0]);
      CountStep(y, acts[0], i);
      RunCountOrWaiters(Step(y, acts[0]), acts[1..], i);
    }
  }
}
