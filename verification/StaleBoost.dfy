/** A run from power-up in which a timed-out lock call leaves a boost behind for good.

    The interface promises that a boost donated by a call that times out is released, and the
    unlock path without waiters assumes that nothing is left to release. Neither holds if the owner
    unlocks after the tick has timed the waiter out and before the waiter runs again. */
module StaleBoost {
  import opened Types
  import opened Inheritance
  import opened Spec
  import opened Invariants
  import opened Handoff
  import opened Runs
  import opened Effects
  import opened Traces
  import opened RoundRobin
  import opened PriorityRuns
  import opened Startup
  import opened Scenes

  /** The low task, number 1, of priority 5, the high task, number 2, of priority 1, one mutex. */
  function TwoTasks(): Setup {
    Setup(Config(3, 1, 31), [5, 1], [], 1, [])
  }

  function Low(state: RunState, eff: int, owned: seq<int>): Task {
    Awake(state, 5, eff, owned, false)
  }

  function High(state: RunState, timeout: bool): Task {
    Awake(state, 1, 1, [], timeout)
  }

  function Tables(low: Task, high: Task, owner: int, waiters: seq<int>, tick: int, current: int, pending: bool): State {
    State(Config(3, 1, 31), [Awake(Ready, 32, 32, [], false), low, high], [Mutex(owner, owner != NULL, 0)], [], [],
          [List(Priority, InMutex(0), waiters)], tick, current, pending)
  }

  function Free(s: State): Sys {
    Sys(s, [NoCall, NoCall, NoCall])
  }

  function InLock(s: State): Sys {
    Sys(s, [NoCall, NoCall, WaitMutex(0)])
  }

  /** The high task sleeps for a tick, the low task takes the mutex, the high task wakes, asks for
      the mutex with a timeout of one tick and times out; the low task unlocks before the high task
      runs again; then the high task returns from its call. */
  function Story(): seq<Action> {
    [Switch, DoDelay(1), Switch, DoLock(0, 0), TickIrq, Switch, DoLock(0, 1), TickIrq, Switch, DoUnlock(0),
     TickIrq, Switch, Resume]
  }

  function Scene(i: nat): Sys
    requires i <= 13
  {
    var asleep := Sleeping(1, 1, 1, []);
    var waiting := Waiting(1, 1, 2, OnMutex, 0, []);
    if i == 0 then Free(Tables(Low(Ready, 5, []), High(Ready, false), NULL, [], 0, 0, true))
    else if i == 1 then Free(Tables(Low(Ready, 5, []), High(Running, false), NULL, [], 0, 2, false))
    else if i == 2 then Free(Tables(Low(Ready, 5, []), asleep, NULL, [], 0, 2, true))
    else if i == 3 then Free(Tables(Low(Running, 5, []), asleep, NULL, [], 0, 1, false))
    else if i == 4 then Free(Tables(Low(Running, 5, [0]), asleep, 1, [], 0, 1, false))
    else if i == 5 then Free(Tables(Low(Running, 5, [0]), High(Ready, false), 1, [], 1, 1, true))
    else if i == 6 then Free(Tables(Low(Ready, 5, [0]), High(Running, false), 1, [], 1, 2, false))
    else if i == 7 then InLock(Tables(Low(Ready, 1, [0]), waiting, 1, [2], 1, 2, true))
    else if i == 8 then InLock(Tables(Low(Ready, 1, [0]), High(Ready, true), 1, [], 2, 2, true))
    else if i == 9 then InLock(Tables(Low(Running, 1, [0]), High(Ready, true), 1, [], 2, 1, false))
    else if i == 10 then InLock(Tables(Low(Running, 1, []), High(Ready, true), NULL, [], 2, 1, false))
    else if i == 11 then InLock(Tables(Low(Running, 1, []), High(Ready, true), NULL, [], 3, 1, true))
    else if i == 12 then InLock(Tables(Low(Ready, 1, []), High(Running, true), NULL, [], 3, 2, false))
    else Free(Tables(Low(Ready, 1, []), High(Running, true), NULL, [], 3, 2, false))
  }

  lemma Opening()
    ensures Accepted(TwoTasks()) && Boot(TwoTasks()) == Scene(0)
  {
    var s := Start(TwoTasks());
    assert s.tasks == [NewTask(32), NewTask(5), NewTask(1)];
    assert s.mutexes == [Mutex(NULL, false, 0)];
    assert s.lists == [List(Priority, InMutex(0), [])];
    assert Boot(TwoTasks()).calls == [NoCall, NoCall, NoCall];
  }

  // ---------------------------------------------------------------- scene by scene

  lemma SwitchScene(i: nat, r: int)
    requires i in {0, 2, 5, 8, 11} && SysInv(Scene(i)) && r == (if i == 2 || i == 8 then 1 else 2)
    ensures Legal(Scene(i), Switch) && Step(Scene(i), Switch) == Scene(i + 1)
  {
    hide SysInv, Step;
    var s := Scene(i).k;
    assert IsNext(Preempted(s), s.current, 31, r);
    SwitchSelects(Scene(i), r);
    assert SwitchedTo(s, r).tasks == Scene(i + 1).k.tasks;
  }

  lemma SleepScene()
    requires SysInv(Scene(1))
    ensures Legal(Scene(1), DoDelay(1)) && Step(Scene(1), DoDelay(1)) == Scene(2)
  {
    hide SysInv, KInv, Wf;
    Ranges(Scene(1));
  }

  lemma TakeScene()
    requires SysInv(Scene(3))
    ensures Legal(Scene(3), DoLock(0, 0)) && Step(Scene(3), DoLock(0, 0)) == Scene(4)
  {
    hide SysInv, KInv, Wf;
    Ranges(Scene(3));
    var r := TakeMutex(Scene(3).k, 0);
    assert [] + [0] == [0];
    assert r.tasks == Scene(4).k.tasks && r.mutexes == Scene(4).k.mutexes;
  }

  /** A tick at which only the high task can be due. */
  lemma TickOnlyHigh(s: State)
    requires Wf(s) && |s.tasks| == 3 && s.tasks[1].state != Blocked
    ensures Tick(s) == WakeIfDue(Advance(s), 2).(pending := true)
  {
    var a := Advance(s);
    assert WakeBelow(a, 1) == a && WakeIfDue(a, 1) == a;
    assert WakeBelow(a, 2) == a;
    hide Wf;
  }

  /** The high task's delay is over. */
  lemma TickWakes()
    requires Wf(Scene(4).k)
    ensures Tick(Scene(4).k) == Scene(5).k
  {
    hide Wf, Tick;
    TickOnlyHigh(Scene(4).k);
  }

  /** The high task's lock call times out. */
  lemma TickTimesOut()
    requires Wf(Scene(7).k)
    ensures Tick(Scene(7).k) == Scene(8).k
  {
    hide Wf, Tick;
    TickOnlyHigh(Scene(7).k);
    assert IndexOf([2], 2) == 0 && RemoveAt([2], 0) == [];
  }

  lemma TickPasses()
    requires Wf(Scene(10).k)
    ensures Tick(Scene(10).k) == Scene(11).k
  {
    hide Wf, Tick;
    TickOnlyHigh(Scene(10).k);
  }

  lemma TickScene(i: nat)
    requires i in {4, 7, 10} && SysInv(Scene(i))
    ensures Legal(Scene(i), TickIrq) && Step(Scene(i), TickIrq) == Scene(i + 1)
  {
    hide SysInv, KInv, Wf, Tick;
    Ranges(Scene(i));
    if i == 4 {
      TickWakes();
    } else if i == 7 {
      TickTimesOut();
    } else {
      TickPasses();
    }
  }

  lemma DonateScene()
    requires SysInv(Scene(6))
    ensures Legal(Scene(6), DoLock(0, 1)) && Step(Scene(6), DoLock(0, 1)) == Scene(7)
  {
    hide SysInv, KInv, Wf, DonatePriority;
    Ranges(Scene(6));
    var s := Scene(6).k;
    DonateToLow(s);
    assert [] + [2] == [2];
    var r := BlockOn(DonatePriority(s, 1), 0, 1).s;
    assert r.tasks == Scene(7).k.tasks && r.lists == Scene(7).k.lists;
  }

  lemma DonateToLow(s: State)
    requires Wf(s) && s == Scene(6).k
    ensures DonatePriority(s, 1) == s.(tasks := [s.tasks[0], Low(Ready, 1, [0]), High(Running, false)])
  {
    assert Next(s, 1) == NULL;
    var e := Effs(s);
    assert Donate(GraphOf(s).next, e, 1, 1, 3) == Donate(GraphOf(s).next, e[1 := 1], NULL, 1, 2) == e[1 := 1];
    hide Wf, Donate;
  }

  lemma UnlockScene()
    requires SysInv(Scene(9))
    ensures Legal(Scene(9), DoUnlock(0)) && Step(Scene(9), DoUnlock(0)) == Scene(10)
  {
    hide SysInv, KInv, Wf;
    Ranges(Scene(9));
    assert IndexOf([0], 0) == 0 && SwapRemove([0], 0) == [];
    UnlockReady(Scene(9).k, 0);
  }

  lemma ReturnScene()
    requires SysInv(Scene(12))
    ensures Legal(Scene(12), Resume) && Step(Scene(12), Resume) == Scene(13)
    ensures Act(Scene(12), Resume).ret == Returns(Unavailable)
  {
    hide SysInv, KInv, Wf, RecomputePriority;
    Ranges(Scene(12));
    RecomputeNull(Scene(12).k);
  }

  lemma SceneStep(i: nat)
    requires i < 13 && SysInv(Scene(i))
    ensures Legal(Scene(i), Story()[i]) && Step(Scene(i), Story()[i]) == Scene(i + 1)
  {
    hide Scene, SysInv, Legal, Step;
    if i in {0, 2, 5, 8, 11} {
      SwitchScene(i, if i == 2 || i == 8 then 1 else 2);
    } else if i == 1 {
      SleepScene();
    } else if i == 3 {
      TakeScene();
    } else if i == 6 {
      DonateScene();
    } else if i == 9 {
      UnlockScene();
    } else if i == 12 {
      ReturnScene();
    } else {
      TickScene(i);
    }
  }

  lemma {:induction false} SceneReached(i: nat)
    requires i <= 13
    ensures Reachable(TwoTasks(), Scene(i)) && SysInv(Scene(i))
    decreases i
  {
    if i == 0 {
      Opening();
      ReachableBoot(TwoTasks());
    } else {
      hide Scene, SysInv, Step, Legal, Reachable;
      SceneReached(i - 1);
      SceneStep(i - 1);
      ReachableStep(TwoTasks(), Scene(i - 1), Story()[i - 1]);
    }
  }

  /** From power-up a state can be reached in which the low task owns nothing, the high task has
      returned from its timed-out call, nobody waits for anything, and the low task, of base
      priority 5, still competes at priority 1. */
  lemma BoostOutlivesTimeout() returns (z: Sys)
    ensures z == Free(Tables(Low(Ready, 1, []), High(Running, true), NULL, [], 3, 2, false))
    ensures Reachable(TwoTasks(), z)
  {
    hide SysInv, Reachable;
    SceneReached(13);
    z := Scene(13);
  }
}
