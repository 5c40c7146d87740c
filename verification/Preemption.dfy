/** Preemption over whole runs: who runs, and when the strongest ready task does not. */
module Preemption {
  import opened Types
  import opened Inheritance
  import opened Spec
  import opened Invariants
  import opened Preserve
  import opened Handoff
  import opened Runs
  import opened Effects
  import opened Traces
  import opened RoundRobin
  import opened PriorityRuns

  /** A switch never selects a task weaker than a ready (or preempted) user task, and selects the
      idle task only if there is none. */
  lemma SwitchStrongest(s: State, t: int)
    requires KInv(s) && 0 < t < |s.tasks| && s.tasks[t].state != Blocked
    ensures var r := Dispatch(s); 0 < r.current < |s.tasks| && r.tasks[r.current].eff <= s.tasks[t].eff
  {
    hide KInv, Wf, Dispatch, NextTask;
    KRanges(s);
    SwitchIsNext(s);
    assert Eligible(Preempted(s), s.cfg.lowest, t);
    SwitchEffect(s);
  }

  /** Bounded inversion: while `h` waits along a chain of mutex owners that ends in a task able to
      run, no switch selects a task weaker than `h`. */
  lemma BoundedInversion(y: Sys, h: int, k: nat)
    requires SysInv(y) && y.k.pending && 0 < h < |y.k.tasks|
    requires Iter(GraphOf(y.k).next, h, k) != NULL && y.k.tasks[Iter(GraphOf(y.k).next, h, k)].state != Blocked
    ensures var z := Step(y, Switch).k; 0 < z.current < |z.tasks| && z.tasks[z.current].eff <= y.k.tasks[h].eff
  {
    var g := GraphOf(y.k);
    var e := Iter(g.next, h, k);
    ChainBound(g, Effs(y.k), h, k);
    if e == 0 {
      IdleFirst(y.k, h, k);
    }
    SwitchStrongest(y.k, e);
  }

  /** The idle task ends no chain: it owns no mutex. */
  lemma {:induction false} IdleFirst(s: State, h: int, k: nat)
    requires KInv(s) && 0 < h < |s.tasks|
    ensures Iter(GraphOf(s).next, h, k) != 0
    decreases k
  {
    if k > 0 && GraphOf(s).next[h] != NULL {
      EdgeOf(s, h);
      IdleFirst(s, GraphOf(s).next[h], k - 1);
    }
  }

  /** The running task is at least as strong as every ready one, or a switch is pended. */
  ghost predicate TopOrPending(s: State)
    requires Wf(s)
  {
    s.pending || forall t :: 0 < t < |s.tasks| && s.tasks[t].state == Ready ==> s.tasks[s.current].eff <= s.tasks[t].eff
  }

  // ---------------------------------------------------------------- the recomputation on resume

  /** The recomputation of a resumed lock call leaves the running task a priority of at least
      strength `p`: it does not reach that task, or it finds a claim of that strength on the way. */
  ghost predicate ResumeBacked(y: Sys, p: int)
    requires SysInv(y) && Legal(y, Resume) && y.calls[y.k.current].WaitMutex?
  {
    Ranges(y);
    var o := OwnerAtResume(y);
    var g := GraphOf(y.k);
    o != NULL && Reach(g.next, o, y.k.current) ==> Backed(g, Effs(y.k), o, p)
  }

  /** The chain of owners that leads to the running task ends there, in time for the hop guard. */
  lemma RunningEnds(s: State, o: int)
    requires KInv(s) && MayBlock(s) && 0 <= o < |s.tasks| && Reach(GraphOf(s).next, o, s.current)
    ensures GraphOf(s).next[s.current] == NULL && Iter(GraphOf(s).next, o, s.cfg.maxTasks) == NULL
  {
    var next := GraphOf(s).next;
    assert AgreeTask(s, s.current);
    var k: nat :| Iter(next, o, k) == s.current;
    var i := EarlyVisit(next, o, k);
    IterAdd(next, o, i, 1);
    IterAdd(next, o, i + 1, s.cfg.maxTasks - (i + 1));
  }

  lemma RecomputeUnreached(s: State, o: int, t: int)
    requires KInv(s) && 0 <= o < |s.tasks| && 0 <= t < |s.tasks| && !Reach(GraphOf(s).next, o, t)
    ensures RecomputePriority(s, o).tasks[t].eff == s.tasks[t].eff
  {
    RecomputeAvoids(GraphOf(s), Effs(s), o, s.cfg.maxTasks, t);
  }

  /** How strong the running task is after its lock call has been resumed. */
  lemma ResumeStrength(y: Sys, p: int)
    requires SysInv(y) && Legal(y, Resume) && y.calls[y.k.current].WaitMutex? && y.k.tasks[y.k.current].eff <= p
    ensures |Continue(y).s.tasks| == |y.k.tasks|
    ensures Continue(y).s.tasks[y.k.current].eff <= p <==> ResumeBacked(y, p)
  {
    var c, o := y.k.current, OwnerAtResume(y);
    Ranges(y);
    ResumeRecomputes(y);
    hide SysInv, KInv, Wf, Continue, OwnerAtResume;
    if o == NULL {
      RecomputeNull(y.k);
    } else if Reach(GraphOf(y.k).next, o, c) {
      RunningEnds(y.k, o);
      RecomputeBackedAt(y.k, o, p);
    } else {
      RecomputeUnreached(y.k, o, c);
    }
  }

  lemma RecomputeBackedAt(s: State, o: int, p: int)
    requires KInv(s) && 0 <= o < |s.tasks| && Reach(GraphOf(s).next, o, s.current)
    requires GraphOf(s).next[s.current] == NULL && Iter(GraphOf(s).next, o, s.cfg.maxTasks) == NULL
    ensures RecomputePriority(s, o).tasks[s.current].eff <= p <==> Backed(GraphOf(s), Effs(s), o, p)
  {
    GraphConsistent(s);
    RecomputeBacked(GraphOf(s), Effs(s), o, s.cfg.maxTasks, s.current, p);
  }

  /** The recomputation on resume leaves the running task's priority alone exactly if that priority
      is backed. After a handoff, when the running task owns the mutex itself, it leaves all
      priorities alone exactly if somebody still stands behind its own. */
  lemma ResumeKeepsCurrent(y: Sys)
    requires SysInv(y) && Legal(y, Resume) && y.calls[y.k.current].WaitMutex?
    ensures |Continue(y).s.tasks| == |y.k.tasks|
    ensures Continue(y).s.tasks[y.k.current].eff == y.k.tasks[y.k.current].eff <==>
      ResumeBacked(y, y.k.tasks[y.k.current].eff)
    ensures OwnerAtResume(y) == y.k.current ==>
      (Effs(Continue(y).s) == Effs(y.k) <==> JustifiedAt(y.k, y.k.current))
  {
    Ranges(y);
    ResumeStrength(y, y.k.tasks[y.k.current].eff);
    ResumeRecomputes(y);
    RecomputeKeeps(y.k, OwnerAtResume(y));
    hide SysInv, Continue, ResumeBacked;
    if OwnerAtResume(y) == y.k.current {
      OwnResume(y.k);
    }
  }

  lemma OwnResume(s: State)
    requires KInv(s) && MayBlock(s)
    ensures |RecomputePriority(s, s.current).tasks| == |s.tasks|
    ensures Effs(RecomputePriority(s, s.current)) == Effs(s) <==> JustifiedAt(s, s.current)
  {
    assert AgreeTask(s, s.current);
    ExactJustified(s, s.current);
    RecomputeOne(s, s.current);
    var p := Local(GraphOf(s), Effs(s), s.current);
    assert Effs(s)[s.current := p] == Effs(s) <==> p == Effs(s)[s.current];
  }

  /** The recomputation on resume, if the action is one, leaves the running task as strong as every
      ready one. */
  ghost predicate StaysTop(y: Sys, a: Action) {
    SysInv(y) && Legal(y, a) && (a.Resume? && y.calls[y.k.current].WaitMutex? ==>
      forall t :: 0 < t < |y.k.tasks| && y.k.tasks[t].state == Ready ==> ResumeBacked(y, y.k.tasks[t].eff))
  }

  /** Priority preemption, step by step: the running task is top or a switch is pended after an
      action exactly if the action is no resumed lock call that lowers the running task below a
      ready one. */
  lemma TopKeptIff(y: Sys, a: Action)
    requires SysInv(y) && Legal(y, a) && TopOrPending(y.k)
    ensures TopOrPending(Act(y, a).s) <==> StaysTop(y, a)
  {
    hide *;
    if a.TickIrq? || a.Switch? || a.DoDelay? {
      SwitchingTop(y, a);
    } else if a.Resume? {
      ResumingTop(y);
    } else {
      OtherTop(y, a);
    }
  }

  lemma SwitchingTop(y: Sys, a: Action)
    requires SysInv(y) && Legal(y, a) && TopOrPending(y.k) && (a.TickIrq? || a.Switch? || a.DoDelay?)
    ensures TopOrPending(Act(y, a).s) && StaysTop(y, a)
  {
    hide KInv, Wf;
    Ranges(y);
    if a.TickIrq? {
      TickEffect(y.k);
    } else if a.Switch? {
      SwitchTop(y.k);
    }
  }

  lemma OtherTop(y: Sys, a: Action)
    requires SysInv(y) && Legal(y, a) && TopOrPending(y.k) && !a.TickIrq? && !a.Switch? && !a.DoDelay? && !a.Resume?
    ensures TopOrPending(Act(y, a).s) && StaysTop(y, a)
  {
    hide SysInv, KInv, Wf, Act, Legal;
    if !Rewires(y, a) {
      QuietTop(y, a);
    } else {
      RewireTop(y, a);
    }
  }

  lemma ResumingTop(y: Sys)
    requires SysInv(y) && Legal(y, Resume) && TopOrPending(y.k)
    ensures TopOrPending(Act(y, Resume).s) <==> StaysTop(y, Resume)
  {
    hide SysInv, KInv, Wf, Continue, TopOrPending, ResumeBacked;
    Ranges(y);
    if y.calls[y.k.current].WaitMutex? {
      ResumeTopIff(y);
      assert Act(y, Resume) == Continue(y);
    } else {
      QuietTop(y, Resume);
      assert StaysTop(y, Resume);
    }
  }

  lemma ResumeTopIff(y: Sys)
    requires SysInv(y) && Legal(y, Resume) && y.calls[y.k.current].WaitMutex? && TopOrPending(y.k)
    ensures TopOrPending(Continue(y).s) <==> StaysTop(y, Resume)
  {
    var k, r := y.k, Continue(y).s;
    Ranges(y);
    ResumeRecomputes(y);
    hide SysInv, KInv, Wf, Continue, ResumeBacked, RecomputePriority;
    assert !k.pending && !r.pending && r.current == k.current;
    forall t | 0 < t < |k.tasks| && k.tasks[t].state == Ready
      ensures r.tasks[k.current].eff <= r.tasks[t].eff <==> ResumeBacked(y, k.tasks[t].eff)
    {
      ReadyCompare(y, t);
    }
    assert forall t :: 0 < t < |k.tasks| ==> r.tasks[t].state == k.tasks[t].state;
  }

  /** The running task against one ready task; at most one of the two is on the chain. */
  lemma ReadyCompare(y: Sys, t: int)
    requires SysInv(y) && Legal(y, Resume) && y.calls[y.k.current].WaitMutex?
    requires 0 < t < |y.k.tasks| && y.k.tasks[t].state == Ready && y.k.tasks[y.k.current].eff <= y.k.tasks[t].eff
    ensures |Continue(y).s.tasks| == |y.k.tasks|
    ensures Continue(y).s.tasks[y.k.current].eff <= Continue(y).s.tasks[t].eff <==> ResumeBacked(y, y.k.tasks[t].eff)
  {
    var o := OwnerAtResume(y);
    Ranges(y);
    ResumeRecomputes(y);
    ResumeStrength(y, y.k.tasks[t].eff);
    NoEdges(y.k, t);
    hide SysInv, KInv, Wf, Continue, RecomputePriority, OwnerAtResume;
    if o == NULL {
      RecomputeNull(y.k);
    } else if Reach(GraphOf(y.k).next, o, t) {
      if Reach(GraphOf(y.k).next, o, y.k.current) {
        EndUnique(GraphOf(y.k).next, o, t, y.k.current);
      }
      RecomputeUnreached(y.k, o, y.k.current);
      RecomputeKeeps(y.k, o);
    } else {
      RecomputeUnreached(y.k, o, t);
    }
  }

  lemma NoEdges(s: State, t: int)
    requires KInv(s) && MayBlock(s) && 0 < t < |s.tasks| && s.tasks[t].state == Ready
    ensures t != s.current && GraphOf(s).next[t] == NULL && GraphOf(s).next[s.current] == NULL
  {
    assert AgreeTask(s, t) && AgreeTask(s, s.current);
  }

  lemma SwitchTop(s: State)
    requires KInv(s)
    ensures TopOrPending(Dispatch(s))
  {
    SwitchEffect(s);
    var r := Dispatch(s);
    forall t | 0 < t < |r.tasks| && r.tasks[t].state == Ready
      ensures r.tasks[r.current].eff <= r.tasks[t].eff
    {
      SwitchStrongest(s, t);
    }
  }

  /** A device interrupt takes no pended switch back; a task acts only when none is pended. */
  lemma PendingKept(y: Sys, a: Action)
    requires SysInv(y) && Legal(y, a) && !a.Switch? && y.k.pending
    ensures Act(y, a).s.pending
  {
    hide SysInv, KInv, Wf;
    Ranges(y);
  }

  lemma QuietTop(y: Sys, a: Action)
    requires SysInv(y) && Legal(y, a) && TopOrPending(y.k) && !Rewires(y, a)
    requires !a.TickIrq? && !a.Switch? && !a.DoDelay?
    ensures TopOrPending(Act(y, a).s)
  {
    hide SysInv, KInv, Wf, Act, ReleaseList, GraphOf;
    Ranges(y);
    ActEffect(y, a);
    QuietGraph(y, a);
    if y.k.pending {
      PendingKept(y, a);
    }
    var r := Act(y, a).s;
    assert forall t :: 0 <= t < |r.tasks| ==> Effs(r)[t] == Effs(y.k)[t];
  }

  lemma RewireTop(y: Sys, a: Action)
    requires SysInv(y) && Legal(y, a) && (a.DoLock? || a.DoUnlock?) && Rewires(y, a)
    ensures Act(y, a).s.pending
  {
    hide SysInv, KInv, Wf, MutexLock, MutexUnlock;
    Ranges(y);
    if a.DoLock? {
      LockEffect(y.k, a.lmutex, a.ltimeout);
    } else {
      HandoffPends(y.k, a.umutex);
    }
  }

  lemma HandoffPends(s: State, m: int)
    requires HandsOff(s, m)
    ensures Pickable(Disown(s, m), s.mutexes[m].wl) && MutexUnlock(s, m).s.pending
  {
    HandoffShape(s, m);
  }

  /** The running task is top, or a switch is pended, after every action of the run. */
  ghost predicate TopThroughout(y: Sys, acts: seq<Action>)
    requires SysInv(y) && Run(y, acts)
    decreases |acts|
  {
    && Wf(y.k) && TopOrPending(y.k)
    && (acts != [] ==> (StepKeeps(y, acts[0]); TopThroughout(Step(y, acts[0]), acts[1..])))
  }

  /** Preemption over whole runs, with the exact condition: no resumed lock call lowers the running
      task below a ready one. */
  lemma {:induction false} RunTop(y: Sys, acts: seq<Action>)
    requires SysInv(y) && Run(y, acts) && Wf(y.k) && TopOrPending(y.k)
    ensures TopThroughout(y, acts) <==> Always(y, acts, StaysTop)
    decreases |acts|
  {
    hide SysInv, KInv, Wf, Legal, Step, TopOrPending, StaysTop;
    if acts != [] {
      StepKeeps(y, acts[0]);
      TopStep(y, acts[0]);
      if TopOrPending(Step(y, acts[0]).k) {
        RunTop(Step(y, acts[0]), acts[1..]);
      } else {
        assert !TopThroughout(Step(y, acts[0]), acts[1..]);
      }
    }
  }

  lemma TopStep(y: Sys, a: Action)
    requires SysInv(y) && Legal(y, a) && Wf(y.k) && TopOrPending(y.k)
    ensures Wf(Step(y, a).k) && (TopOrPending(Step(y, a).k) <==> StaysTop(y, a))
  {
    hide SysInv, KInv, Wf, TopOrPending, StaysTop, Act;
    TopKeptIff(y, a);
  }

  /** Where nobody is stale a resumed lock call changes no priority. */
  lemma ExactStaysTop(y: Sys, a: Action)
    requires SysInv(y) && Legal(y, a) && AllExact(y.k) && Wf(y.k) && TopOrPending(y.k)
    ensures StaysTop(y, a)
  {
    hide SysInv, KInv, Wf, AllExact;
    Ranges(y);
    TopKeptIff(y, a);
    if a.Resume? && y.calls[y.k.current].WaitMutex? {
      ResumeRecomputes(y);
      ExactRecompute(y.k, OwnerAtResume(y));
      hide Continue;
    }
  }

  /** In particular it holds throughout every run without timed-out lock calls, deadlocked or not. */
  lemma {:induction false} RunPreempts(y: Sys, acts: seq<Action>)
    requires SysInv(y) && Run(y, acts) && TopOrPending(y.k) && AllExact(y.k) && Always(y, acts, NoMutexTimeout)
    ensures TopThroughout(y, acts)
    decreases |acts|
  {
    hide SysInv, KInv, Wf, Legal, Step, TopOrPending, StaysTop, AllExact, NoMutexTimeout;
    Ranges(y);
    if acts != [] {
      StepKeeps(y, acts[0]);
      StepExact(y, acts[0]);
      ExactStaysTop(y, acts[0]);
      TopStep(y, acts[0]);
      RunPreempts(Step(y, acts[0]), acts[1..]);
    }
  }
}
