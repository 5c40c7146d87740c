/** Tasks that have been released from a wait list but have not continued their call yet. */
module Wakeups {
  import opened Types
  import opened Spec
  import opened Invariants
  import opened Preserve
  import opened Runs
  import opened Effects
  import opened TimeRuns

  /** Task `t` was released from the list of primitive `h` and has not run since. */
  predicate IsWoken(y: Sys, h: Home, t: int) {
    && 0 <= t < |y.calls| && t < |y.k.tasks|
    && CallAt(y.calls[t], h) && y.k.tasks[t].state != Blocked && !y.k.tasks[t].timeout
  }

  function WokenSet(y: Sys, h: Home): set<int> {
    set t | 0 <= t < |y.calls| && IsWoken(y, h, t)
  }

  /** The action releases a task from the list of primitive `h`. */
  ghost predicate Releases(y: Sys, a: Action, h: Home)
    requires SysInv(y) && Legal(y, a)
  {
    Released(y, a) != NULL && ReleaseList(y, a) != NULL && y.k.lists[ReleaseList(y, a)].home == h
  }

  /** The action continues the call of a task released from the list of primitive `h`. */
  ghost predicate Continues(y: Sys, a: Action, h: Home)
    requires SysInv(y) && Legal(y, a)
  {
    a.Resume? && IsWoken(y, h, y.k.current)
  }

  /** The woken tasks after an action: minus the one that continued, plus the one released. */
  lemma WokenStep(y: Sys, a: Action, h: Home, t: int)
    requires SysInv(y) && Legal(y, a) && 0 <= t < |y.calls|
    ensures IsWoken(Step(y, a), h, t) <==>
      || (IsWoken(y, h, t) && !(a.Resume? && t == y.k.current))
      || (Releases(y, a, h) && t == Released(y, a))
  {
    if t == 0 || y.calls[t] == NoCall {
      FreeStep(y, a, h, t);
    } else if y.k.tasks[t].state == Blocked {
      SleeperStep(y, a, h, t);
    } else if a.Resume? && t == y.k.current {
      ResumerStep(y, a, h, t);
    } else {
      WaiterStep(y, a, h, t);
    }
  }

  lemma ReleasedIsBlocked(y: Sys, a: Action)
    requires SysInv(y) && Legal(y, a) && Released(y, a) != NULL
    ensures 0 < Released(y, a) < |y.calls| == |y.k.tasks| && y.k.tasks[Released(y, a)].state == Blocked
    ensures y.k.tasks[Released(y, a)].blockedOn == ReleaseList(y, a) != NULL
    ensures CallAt(y.calls[Released(y, a)], y.k.lists[ReleaseList(y, a)].home)
  {
    var b := Released(y, a);
    FreedWaits(y, a);
    assert AgreeList(y.k, ReleaseList(y, a)) && CallOk(y, b);
  }

  lemma FreeStep(y: Sys, a: Action, h: Home, t: int)
    requires SysInv(y) && Legal(y, a) && 0 <= t < |y.calls| && (t == 0 || y.calls[t] == NoCall)
    ensures !IsWoken(Step(y, a), h, t) && !IsWoken(y, h, t)
    ensures !(Releases(y, a, h) && t == Released(y, a))
  {
    hide SysInv, KInv, Wf, Act, Legal, Released, ReleaseList;
    CallHolds(y, t);
    StepCall(y, a, t);
    if Released(y, a) != NULL {
      ReleasedIsBlocked(y, a);
    }
    if Act(y, a).ret == Blocks {
      NeverBlocks(y, a);
      ActEffect(y, a);
    }
  }

  lemma SleeperStep(y: Sys, a: Action, h: Home, t: int)
    requires SysInv(y) && Legal(y, a) && 0 < t < |y.calls| && y.calls[t] != NoCall && y.k.tasks[t].state == Blocked
    ensures IsWoken(Step(y, a), h, t) <==> Releases(y, a, h) && t == Released(y, a)
  {
    hide SysInv, KInv, Wf, Step, Act, Released, ReleaseList, Legal;
    CallHolds(y, t);
    WakeCause(y, a, t);
    if Released(y, a) != NULL {
      ReleasedIsBlocked(y, a);
      ReleaseWakes(y, a);
    }
    HomesDiffer(y.calls[t], h);
  }

  /** A call blocks on one primitive only. */
  lemma HomesDiffer(c: Call, h: Home)
    ensures forall h' :: CallAt(c, h) && CallAt(c, h') ==> h == h'
  {
  }

  lemma ReleaseWakes(y: Sys, a: Action)
    requires SysInv(y) && Legal(y, a) && Released(y, a) != NULL
    ensures |Step(y, a).k.tasks| == |y.k.tasks| && Step(y, a).k.tasks[Released(y, a)].state == Ready
    ensures !a.TickIrq?
  {
    ActEffect(y, a);
    ReleasedIsBlocked(y, a);
    if Act(y, a).ret == Blocks {
      BlockReleasesNone(y, a);
    }
    hide SysInv, KInv, Wf, Act;
  }

  lemma BlockReleasesNone(y: Sys, a: Action)
    requires SysInv(y) && Legal(y, a) && Act(y, a).ret == Blocks
    ensures ReleaseList(y, a) == NULL
  {
    NeverBlocks(y, a);
    Ranges(y);
    hide SysInv, KInv, Wf;
    if a.DoSend? {
      SendEffect(y.k, a.dq, a.ditem, a.dtimeout, DeadlineOf(y.k.tick, a.dtimeout));
    } else if a.DoRecv? {
      RecvEffect(y.k, a.vq, a.vtimeout, DeadlineOf(y.k.tick, a.vtimeout));
    } else if a.Resume? {
      ResumeReleases(y);
    }
  }

  lemma ResumeReleases(y: Sys)
    requires SysInv(y) && Legal(y, Resume) && Act(y, Resume).ret == Blocks
    ensures ReleaseList(y, Resume) == NULL
  {
    NeverBlocks(y, Resume);
    Ranges(y);
    hide SysInv, KInv, Wf;
    var c := y.calls[y.k.current];
    if y.k.tasks[y.k.current].timeout {
    } else if c.Sending? {
      SendEffect(y.k, c.sq, c.item, c.stimeout, c.sdeadline);
    } else {
      RecvEffect(y.k, c.rq, c.rtimeout, c.rdeadline);
    }
  }

  lemma ResumerStep(y: Sys, a: Action, h: Home, t: int)
    requires SysInv(y) && Legal(y, a) && 0 < t < |y.calls| && a.Resume? && t == y.k.current
    ensures !IsWoken(Step(y, a), h, t)
    ensures !(Releases(y, a, h) && t == Released(y, a))
  {
    StepCall(y, a, t);
    ActEffect(y, a);
    if Released(y, a) != NULL {
      ReleasedIsBlocked(y, a);
    }
    hide SysInv, KInv, Wf, Act, Released, ReleaseList;
  }

  lemma WaiterStep(y: Sys, a: Action, h: Home, t: int)
    requires SysInv(y) && Legal(y, a) && 0 < t < |y.calls| && y.calls[t] != NoCall && y.k.tasks[t].state != Blocked
    requires !(a.Resume? && t == y.k.current)
    ensures IsWoken(Step(y, a), h, t) <==> IsWoken(y, h, t)
    ensures !(Releases(y, a, h) && t == Released(y, a))
  {
    Ranges(y);
    WokeStays(y, a, t);
    if Released(y, a) != NULL {
      ReleasedIsBlocked(y, a);
    }
    hide SysInv, KInv, Wf, Step, Act, Released, ReleaseList;
  }

  /** How many tasks are woken but have not run, after an action. */
  lemma WokenCount(y: Sys, a: Action, h: Home)
    requires SysInv(y) && Legal(y, a)
    ensures |WokenSet(Step(y, a), h)| ==
      |WokenSet(y, h)| - (if Continues(y, a, h) then 1 else 0) + (if Releases(y, a, h) then 1 else 0)
  {
    hide SysInv, Legal, Step, Released, WokenSet, Continues, Releases;
    WokenBounds(y, a, h);
    WokenSets(y, a, h);
    Exchange(WokenSet(y, h), WokenSet(Step(y, a), h),
             Continues(y, a, h), y.k.current, Releases(y, a, h), Released(y, a));
  }

  lemma Exchange(s: set<int>, r: set<int>, minus: bool, x: int, plus: bool, b: int)
    requires minus ==> x in s
    requires plus ==> b !in s
    requires forall t :: t in r <==> (t in s && !(minus && t == x)) || (plus && t == b)
    ensures |r| == |s| - (if minus then 1 else 0) + (if plus then 1 else 0)
  {
    var rest := s - if minus then {x} else {};
    var all := rest + if plus then {b} else {};
    assert forall t :: t in all ==> t in r;
    assert forall t :: t in r ==> t in all;
    assert r == all;
  }

  lemma WokenSets(y: Sys, a: Action, h: Home)
    requires SysInv(y) && Legal(y, a)
    ensures forall t :: t in WokenSet(Step(y, a), h) <==>
      (t in WokenSet(y, h) && !(Continues(y, a, h) && t == y.k.current)) || (Releases(y, a, h) && t == Released(y, a))
  {
    WokenBounds(y, a, h);
    hide SysInv, Legal, Step, Released, Releases;
    forall t
      ensures t in WokenSet(Step(y, a), h) <==>
        (t in WokenSet(y, h) && !(Continues(y, a, h) && t == y.k.current)) || (Releases(y, a, h) && t == Released(y, a))
    {
      if 0 <= t < |y.calls| {
        WokenStep(y, a, h, t);
      }
    }
  }

  lemma WokenBounds(y: Sys, a: Action, h: Home)
    requires SysInv(y) && Legal(y, a)
    ensures |Step(y, a).calls| == |Step(y, a).k.tasks| == |y.calls|
    ensures Releases(y, a, h) ==> 0 <= Released(y, a) < |y.calls| && Released(y, a) !in WokenSet(y, h)
    ensures Continues(y, a, h) ==> y.k.current in WokenSet(y, h)
  {
    StepCall(y, a, y.k.current);
    if Released(y, a) != NULL {
      ReleasedIsBlocked(y, a);
    }
  }

  /** An empty wait list gains an entry only when the current task blocks on it. */
  lemma ListGrows(y: Sys, a: Action, l: int)
    requires SysInv(y) && Legal(y, a) && 0 <= l < |y.k.lists|
    ensures |Act(y, a).s.lists| == |y.k.lists|
    ensures Act(y, a).s.lists[l].waiters != [] && y.k.lists[l].waiters == [] ==>
      Act(y, a).ret == Blocks && BlockList(y, a) == l
  {
    hide SysInv, KInv, Wf, BlockList;
    Ranges(y);
    if a.TickIrq? {
      TickEffect(y.k);
    } else if a.Switch? {
      SwitchEffect(y.k);
    } else if !a.DoDelay? {
      CallListGrows(y, a, l);
    }
  }

  lemma CallListGrows(y: Sys, a: Action, l: int)
    requires SysInv(y) && Legal(y, a) && 0 <= l < |y.k.lists| && !a.TickIrq? && !a.Switch? && !a.DoDelay?
    ensures |Act(y, a).s.lists| == |y.k.lists|
    ensures Act(y, a).s.lists[l].waiters != [] && y.k.lists[l].waiters == [] ==>
      Act(y, a).ret == Blocks && BlockList(y, a) == l
  {
    hide SysInv, KInv, Wf, Legal, Act, ReleaseList, BlockList, AfterRelease, AfterBlock, Pick;
    Ranges(y);
    ActEffect(y, a);
    ListAfter(y.k, Act(y, a).s, if Act(y, a).ret == Blocks then BlockList(y, a) else ReleaseList(y, a), l);
  }

  lemma ReleasesList(y: Sys, a: Action, l: int)
    requires SysInv(y) && Legal(y, a) && 0 <= l < |y.k.lists| && ReleaseList(y, a) == l && y.k.lists[l].waiters != []
    ensures Releases(y, a, y.k.lists[l].home)
  {
    AlwaysPickable(y.k, l);
  }
}
