/** A run from power-up after which a weak task runs although a stronger one is ready and no switch
    is pended.

    A resumed lock call recomputes the owner of its mutex. After a handoff that owner is the running
    task itself; if the task that made it strong has timed out in the meantime, it falls back to its
    own base priority, and nothing asks for a switch. */
module PriorityDrop {
  import opened Types
  import opened Inheritance
  import opened Spec
  import opened Invariants
  import opened Handoff
  import opened Runs
  import opened Effects
  import opened Traces
  import opened RoundRobin
  import opened PriorityRuns
  import opened Preemption
  import opened TimeRuns
  import opened Startup
  import opened Scenes

  /** The holder, number 1, of priority 2, the heir, number 2, of priority 5, the urgent task,
      number 3, of priority 1, two mutexes. */
  function ThreeTasks(): Setup {
    Setup(Config(4, 2, 31), [2, 5, 1], [], 2, [])
  }

  function Holder(state: RunState, eff: int, owned: seq<int>): Task {
    Awake(state, 2, eff, owned, false)
  }

  function Heir(state: RunState, eff: int, owned: seq<int>): Task {
    Awake(state, 5, eff, owned, false)
  }

  function Urgent(state: RunState, timeout: bool): Task {
    Awake(state, 1, 1, [], timeout)
  }

  function Tables(users: seq<Task>, mutexes: seq<Mutex>, lists: seq<List>, tick: int, current: int, pending: bool)
    : State
  {
    State(Config(4, 2, 31), [Awake(Ready, 32, 32, [], false)] + users, mutexes, [], [], lists, tick, current, pending)
  }

  function Owners(first: int, second: int): seq<Mutex> {
    [Mutex(first, first != NULL, 0), Mutex(second, second != NULL, 1)]
  }

  function Lists(first: seq<int>, second: seq<int>): seq<List> {
    [List(Priority, InMutex(0), first), List(Priority, InMutex(1), second)]
  }

  function Calls(heir: Call, urgent: Call): seq<Call> {
    [NoCall, NoCall, heir, urgent]
  }

  /** The holder takes the first mutex and sleeps; the heir takes the second one and waits for the
      first; the urgent task wakes and waits for the second, which makes both others urgent. The
      holder hands the first mutex over, the urgent task times out, and the heir resumes. */
  function Story(): (r: seq<Action>)
    ensures |r| == 16
  {
    [Switch, DoDelay(1), Switch, DoLock(0, 0), DoDelay(1), Switch, DoLock(1, 0), DoLock(0, WAIT_FOREVER),
     TickIrq, Switch, DoLock(1, 1), Switch, DoUnlock(0), TickIrq, Switch, Resume]
  }

  function Early(i: nat): Sys
    requires i <= 7
  {
    var holder := Holder(Ready, 2, []);
    var heir := Heir(Ready, 5, []);
    var urgent := Sleeping(1, 1, 1, []);
    var (f, none, calls) := (Owners(NULL, NULL), Lists([], []), Calls(NoCall, NoCall));
    var k :=
      if i == 0 then Tables([holder, heir, Urgent(Ready, false)], f, none, 0, 0, true)
      else if i == 1 then Tables([holder, heir, Urgent(Running, false)], f, none, 0, 3, false)
      else if i == 2 then Tables([holder, heir, urgent], f, none, 0, 3, true)
      else if i == 3 then Tables([Holder(Running, 2, []), heir, urgent], f, none, 0, 1, false)
      else if i == 4 then Tables([Holder(Running, 2, [0]), heir, urgent], Owners(1, NULL), none, 0, 1, false)
      else if i == 5 then Tables([Sleeping(2, 2, 1, [0]), heir, urgent], Owners(1, NULL), none, 0, 1, true)
      else if i == 6 then
        Tables([Sleeping(2, 2, 1, [0]), Heir(Running, 5, []), urgent], Owners(1, NULL), none, 0, 2, false)
      else Tables([Sleeping(2, 2, 1, [0]), Heir(Running, 5, [1]), urgent], Owners(1, 2), none, 0, 2, false);
    Sys(k, calls)
  }

  function Late(i: nat): Sys
    requires 8 <= i <= 16
  {
    var held := Owners(1, 2);
    var first := Lists([2], []);
    var both := Lists([2], [3]);
    var one := Calls(WaitMutex(0), NoCall);
    var two := Calls(WaitMutex(0), WaitMutex(1));
    var waits := Waiting(5, 5, 0, OnMutex, 0, [1]);
    var lifted := Waiting(5, 1, 0, OnMutex, 0, [1]);
    var asks := Waiting(1, 1, 2, OnMutex, 1, []);
    if i == 8 then
      Sys(Tables([Sleeping(2, 2, 1, [0]), waits, Sleeping(1, 1, 1, [])], held, first, 0, 2, true), one)
    else if i == 9 then
      Sys(Tables([Holder(Ready, 2, [0]), waits, Urgent(Ready, false)], held, first, 1, 2, true), one)
    else if i == 10 then
      Sys(Tables([Holder(Ready, 2, [0]), waits, Urgent(Running, false)], held, first, 1, 3, false), one)
    else if i == 11 then Sys(Tables([Holder(Ready, 1, [0]), lifted, asks], held, both, 1, 3, true), two)
    else if i == 12 then Sys(Tables([Holder(Running, 1, [0]), lifted, asks], held, both, 1, 1, false), two)
    else if i == 13 then
      Sys(Tables([Holder(Running, 2, []), Heir(Ready, 1, [1, 0]), asks], Owners(2, 2), Lists([], [3]), 1, 1, true), two)
    else if i == 14 then
      Sys(Tables([Holder(Running, 2, []), Heir(Ready, 1, [1, 0]), Urgent(Ready, true)], Owners(2, 2), Lists([], []),
                 2, 1, true), two)
    else if i == 15 then
      Sys(Tables([Holder(Ready, 2, []), Heir(Running, 1, [1, 0]), Urgent(Ready, true)], Owners(2, 2), Lists([], []),
                 2, 2, false), two)
    else
      Sys(Tables([Holder(Ready, 2, []), Heir(Running, 5, [1, 0]), Urgent(Ready, true)], Owners(2, 2), Lists([], []),
                 2, 2, false), Calls(NoCall, WaitMutex(1)))
  }

  function Scene(i: nat): Sys
    requires i <= 16
  {
    if i <= 7 then Early(i) else Late(i)
  }

  lemma Opening()
    ensures Accepted(ThreeTasks()) && Boot(ThreeTasks()) == Scene(0)
  {
    var s := Start(ThreeTasks());
    assert s.tasks == [NewTask(32), NewTask(2), NewTask(5), NewTask(1)];
    assert s.mutexes == Owners(NULL, NULL);
    assert s.lists == Lists([], []);
    assert Boot(ThreeTasks()).calls == Calls(NoCall, NoCall);
  }

  // ---------------------------------------------------------------- scene by scene

  /** Whom each switch selects. */
  function Selected(i: nat): nat {
    if i == 0 || i == 9 then 3 else if i == 2 || i == 11 then 1 else 2
  }

  lemma SwitchEarly(i: nat)
    requires i in {0, 2, 5} && SysInv(Scene(i))
    ensures Legal(Scene(i), Switch) && Step(Scene(i), Switch) == Scene(i + 1)
  {
    hide SysInv, Step, Late;
    var s, r := Scene(i).k, Selected(i);
    assert IsNext(Preempted(s), s.current, 31, r);
    SwitchSelects(Scene(i), r);
    assert SwitchedTo(s, r).tasks == Scene(i + 1).k.tasks;
  }

  lemma SwitchLate(i: nat)
    requires i in {9, 11, 14} && SysInv(Scene(i))
    ensures Legal(Scene(i), Switch) && Step(Scene(i), Switch) == Scene(i + 1)
  {
    hide SysInv, Step, Early;
    var s, r := Scene(i).k, Selected(i);
    assert IsNext(Preempted(s), s.current, 31, r);
    SwitchSelects(Scene(i), r);
    assert SwitchedTo(s, r).tasks == Scene(i + 1).k.tasks;
  }

  lemma SleepScene(i: nat)
    requires i in {1, 4} && SysInv(Scene(i))
    ensures Legal(Scene(i), DoDelay(1)) && Step(Scene(i), DoDelay(1)) == Scene(i + 1)
  {
    hide SysInv, KInv, Wf;
    Ranges(Scene(i));
    assert Delay(Scene(i).k, 1).tasks == Scene(i + 1).k.tasks;
  }

  lemma TakeScene(i: nat, m: nat)
    requires ((i == 3 && m == 0) || (i == 6 && m == 1)) && SysInv(Scene(i))
    ensures Legal(Scene(i), DoLock(m, 0)) && Step(Scene(i), DoLock(m, 0)) == Scene(i + 1)
  {
    hide SysInv, KInv, Wf, Late;
    Ranges(Scene(i));
    TakenScene(i, m);
    hide TakeMutex, Early;
    TakeFree(Scene(i), m);
  }

  lemma TakeFree(y: Sys, m: int)
    requires SysInv(y) && Legal(y, DoLock(m, 0)) && !y.k.mutexes[m].locked
    ensures Step(y, DoLock(m, 0)) == y.(k := TakeMutex(y.k, m))
  {
    hide SysInv, KInv, Wf;
    Ranges(y);
  }

  lemma TakenScene(i: nat, m: nat)
    requires ((i == 3 && m == 0) || (i == 6 && m == 1)) && Wf(Scene(i).k)
    ensures Legal(Scene(i), DoLock(m, 0)) && !Scene(i).k.mutexes[m].locked
    ensures Scene(i).(k := TakeMutex(Scene(i).k, m)) == Scene(i + 1)
  {
    hide Wf;
    assert [] + [m] == [m];
    var r := TakeMutex(Scene(i).k, m);
    assert r.tasks == Scene(i + 1).k.tasks && r.mutexes == Scene(i + 1).k.mutexes;
  }

  /** The heir is weaker than the holder and donates nothing. */
  lemma WaitScene()
    requires SysInv(Scene(7))
    ensures Legal(Scene(7), Story()[7]) && Step(Scene(7), Story()[7]) == Scene(8)
  {
    hide SysInv, KInv, Wf, DonatePriority;
    Ranges(Scene(7));
    var s := Scene(7).k;
    DonateNothing(s);
    assert [] + [2] == [2];
    var r := BlockOn(s, 0, WAIT_FOREVER).s;
    assert r.tasks == Scene(8).k.tasks && r.lists == Scene(8).k.lists;
  }

  lemma DonateNothing(s: State)
    requires Wf(s) && s == Scene(7).k
    ensures DonatePriority(s, 1) == s
  {
    assert Next(s, 1) == NULL;
    assert Donate(GraphOf(s).next, Effs(s), 1, 5, 4) == Effs(s);
    assert DonatePriority(s, 1).tasks == s.tasks;
    hide Wf, Donate;
  }

  /** The urgent task lifts the heir and, through it, the holder. */
  lemma LiftScene()
    requires SysInv(Scene(10))
    ensures Legal(Scene(10), Story()[10]) && Step(Scene(10), Story()[10]) == Scene(11)
  {
    hide SysInv, KInv, Wf, DonatePriority, Early;
    Ranges(Scene(10));
    var s := Scene(10).k;
    DonateTwice(s);
    assert [] + [3] == [3];
    var r := BlockOn(DonatePriority(s, 2), 1, 1).s;
    assert r.tasks == Scene(11).k.tasks && r.lists == Scene(11).k.lists;
  }

  lemma DonateTwice(s: State)
    requires Wf(s) && s == Scene(10).k
    ensures DonatePriority(s, 2) ==
      s.(tasks := [s.tasks[0], Holder(Ready, 1, [0]), Waiting(5, 1, 0, OnMutex, 0, [1]), Urgent(Running, false)])
  {
    var (next, e) := (GraphOf(s).next, Effs(s));
    assert Next(s, 2) == 1 && Next(s, 1) == NULL;
    assert Donate(next, e, 2, 1, 4) == Donate(next, e[2 := 1], 1, 1, 3);
    assert Donate(next, e[2 := 1], 1, 1, 3) == Donate(next, e[2 := 1][1 := 1], NULL, 1, 2) == e[2 := 1][1 := 1];
    hide Wf, Donate;
  }

  // ---------------------------------------------------------------- ticks

  /** A tick at which the heir is not due. */
  lemma TickOthers(s: State)
    requires Wf(s) && |s.tasks| == 4 && (s.tasks[2].state != Blocked || s.tasks[2].wakeup == 0)
    ensures Tick(s) == WakeIfDue(WakeIfDue(Advance(s), 1), 3).(pending := true)
  {
    var a := Advance(s);
    assert WakeBelow(a, 1) == a;
    assert WakeBelow(a, 2) == WakeIfDue(a, 1);
    assert WakeBelow(a, 3) == WakeIfDue(a, 1);
    assert WakeBelow(a, 4) == WakeIfDue(WakeIfDue(a, 1), 3);
    hide Wf;
  }

  /** Both delays are over. */
  lemma TickWakes()
    requires Wf(Scene(8).k)
    ensures Tick(Scene(8).k) == Scene(9).k
  {
    hide Wf, Tick;
    TickOthers(Scene(8).k);
    var a := Advance(Scene(8).k);
    var b := WakeIfDue(a, 1);
    assert b.tasks == a.tasks[1 := Holder(Ready, 2, [0])];
    assert WakeIfDue(b, 3).tasks == Scene(9).k.tasks;
  }

  /** The urgent task's lock call times out. */
  lemma TickTimesOut()
    requires Wf(Scene(13).k)
    ensures Tick(Scene(13).k) == Scene(14).k
  {
    hide Wf, Tick;
    TickOthers(Scene(13).k);
    var a := Advance(Scene(13).k);
    assert WakeIfDue(a, 1) == a;
    assert IndexOf([3], 3) == 0 && RemoveAt([3], 0) == [];
    var r := WakeIfDue(a, 3);
    assert r.tasks == Scene(14).k.tasks && r.lists == Scene(14).k.lists;
  }

  lemma TickScene(i: nat)
    requires i in {8, 13} && SysInv(Scene(i))
    ensures Legal(Scene(i), TickIrq) && Step(Scene(i), TickIrq) == Scene(i + 1)
  {
    hide SysInv, KInv, Wf, Tick, Scene;
    Ranges(Scene(i));
    if i == 8 {
      TickWakes();
    } else {
      TickTimesOut();
    }
    assert Scene(i).calls == Scene(i + 1).calls by { ScenesCalls(i); }
  }

  lemma ScenesCalls(i: nat)
    requires i in {8, 13}
    ensures Scene(i).calls == Scene(i + 1).calls
  {
  }

  // ---------------------------------------------------------------- handoff and resume

  /** The heir gets the first mutex and keeps the urgent task's priority; the holder loses it. */
  lemma UnlockScene()
    requires SysInv(Scene(12))
    ensures Legal(Scene(12), DoUnlock(0)) && Step(Scene(12), DoUnlock(0)) == Scene(13)
  {
    hide SysInv, KInv, Wf, MutexUnlock;
    Ranges(Scene(12));
    UnlockReady(Scene(12).k, 0);
    UnlockAct(Scene(12).k);
    assert Act(Scene(12), DoUnlock(0)) == MutexUnlock(Scene(12).k, 0);
  }

  lemma UnlockAct(s: State)
    requires SysInv(Scene(12)) && s == Scene(12).k && Wf(s)
    ensures Pickable(Disown(s, 0), 0) && MutexUnlock(s, 0) == Outcome(Scene(13).k, Returns(Ok))
  {
    UnlockShape(s);
    hide *;
    UnlockTick();
    HandoffShape(s, 0);
    HandoffExact(s, 0);
    UnlockLists(s, MutexUnlock(s, 0).s);
    HandedEffs(s, MutexUnlock(s, 0).s);
    UnlockTasks(s, MutexUnlock(s, 0).s);
  }

  lemma UnlockTick()
    requires SysInv(Scene(12)) && Wf(Scene(12).k)
    ensures Pickable(Disown(Scene(12).k, 0), 0) && MutexUnlock(Scene(12).k, 0).s.tick == 1
  {
    hide SysInv, KInv, Wf, MutexUnlock;
    Ranges(Scene(12));
    UnlockReady(Scene(12).k, 0);
    TickCount(Scene(12), DoUnlock(0));
  }

  lemma UnlockShape(s: State)
    requires KInv(s) && s == Scene(12).k
    ensures HandsOff(s, 0) && Chosen(s, 0) == 2 && Pick(s, 0) == 0
    ensures s.mutexes[0].wl == 0 && s.current == 1 && s.tick == 1
  {
    assert AgreeTask(s, 1);
    AlwaysPickable(s, 0);
  }

  lemma UnlockTasks(s: State, r: State)
    requires s == Scene(12).k && Unlocked(s, r) && r.pending && r.tick == 1
    requires r.tasks[1].eff == 2 && r.tasks[2].eff == 1
    ensures r == Scene(13).k
  {
    assert r.tasks == Scene(13).k.tasks;
  }

  predicate Unlocked(s: State, r: State) {
    && r == Scene(13).k.(tasks := r.tasks, tick := r.tick, pending := r.pending)
    && |s.tasks| == |r.tasks| == 4 && r.tasks[0] == s.tasks[0] && r.tasks[3] == s.tasks[3]
    && r.tasks[1] == Holder(Running, r.tasks[1].eff, []) && r.tasks[2] == Heir(Ready, r.tasks[2].eff, [1, 0])
  }

  lemma UnlockLists(s: State, r: State)
    requires s == Scene(12).k && HandsOff(s, 0) && Handed(s, r, 0, 2) && Pick(s, 0) == 0
    ensures Unlocked(s, r)
  {
    hide HandsOff, KInv, Wf, Chosen;
    assert IndexOf([0], 0) == 0 && SwapRemove([0], 0) == [] && RemoveAt([2], 0) == [] && [1] + [0] == [1, 0];
    assert r.lists == Scene(13).k.lists && r.mutexes == Scene(13).k.mutexes;
  }

  lemma HandedEffs(s: State, r: State)
    requires s == Scene(12).k && Unlocked(s, r) && Wf(r) && |r.tasks| == 4
    requires Exact(GraphOf(r), Effs(r), 1) && Exact(GraphOf(r), Effs(r), 2)
    ensures r.tasks[1].eff == 2 && r.tasks[2].eff == 1
  {
    TwoMutexes(r, [3], []);
    MinNone(Effs(r), 2);
  }

  lemma MinNone(e: seq<int>, b: int)
    ensures MinEff(e, [], b) == b
  {
  }

  /** Whom the owner of both mutexes keeps waiting. */
  lemma TwoMutexes(r: State, second: seq<int>, first: seq<int>)
    requires Wf(r) && |r.tasks| == 4 && r.tasks[2].owned == [1, 0]
    requires |r.mutexes| == 2 && r.mutexes[0].wl == 0 && r.mutexes[1].wl == 1
    requires |r.lists| == 2 && r.lists[0].waiters == first && r.lists[1].waiters == second
    ensures Dependants(r, 2) == second + first
  {
    assert [1, 0][..1] == [1] && [1][..0] == [];
    assert WaitersOn(r, [1]) == [] + second == second;
    assert WaitersOn(r, [1, 0]) == WaitersOn(r, [1]) + first;
  }

  /** The heir resumes its lock call as the owner of the mutex; nobody stands behind its priority. */
  lemma ResumeScene()
    requires SysInv(Scene(15))
    ensures Legal(Scene(15), Resume) && Step(Scene(15), Resume) == Scene(16)
    ensures Act(Scene(15), Resume).ret == Returns(Ok)
  {
    hide SysInv, KInv, Wf, RecomputePriority;
    Ranges(Scene(15));
    HeirAlone(Scene(15).k);
    assert RecomputePriority(Scene(15).k, 2).tasks == Scene(16).k.tasks;
  }

  lemma HeirAlone(s: State)
    requires Wf(s) && s == Scene(15).k
    ensures RecomputePriority(s, 2) == s.(tasks := s.tasks[2 := Heir(Running, 5, [1, 0])])
  {
    assert Next(s, 2) == NULL;
    TwoMutexes(s, [], []);
    MinNone(Effs(s), 5);
    hide Wf;
    RecomputeTo(s, 2, 5);
  }

  lemma SceneStep(i: nat)
    requires i < 16 && SysInv(Scene(i))
    ensures Legal(Scene(i), Story()[i]) && Step(Scene(i), Story()[i]) == Scene(i + 1)
  {
    hide Scene, SysInv, Legal, Step;
    if i in {0, 2, 5} {
      SwitchEarly(i);
    } else if i in {9, 11, 14} {
      SwitchLate(i);
    } else if i in {1, 4} {
      SleepScene(i);
    } else if i in {3, 6} {
      TakeScene(i, if i == 3 then 0 else 1);
    } else if i in {8, 13} {
      TickScene(i);
    } else if i == 7 {
      WaitScene();
    } else if i == 10 {
      LiftScene();
    } else if i == 12 {
      UnlockScene();
    } else {
      ResumeScene();
    }
  }

  lemma {:induction false} Descends(next: seq<int>, t: int, k: nat)
    requires WfNext(next) && (forall x :: 0 <= x < |next| ==> next[x] < x) && 0 <= t < |next| && k >= 1
    ensures Iter(next, t, k) < t
    decreases k
  {
    if next[t] != NULL && k > 1 {
      Descends(next, next[t], k - 1);
    }
  }

  /** Nobody waits for a task with a greater number. */
  lemma SceneAcyclic(i: nat)
    requires i <= 16 && SysInv(Scene(i))
    ensures AcyclicState(Scene(i).k)
  {
    var s := Scene(i).k;
    Ranges(Scene(i));
    SceneEdges(i);
    forall t, k: nat | 0 <= t < |s.tasks| && k >= 1
      ensures Iter(GraphOf(s).next, t, k) != t
    {
      Descends(GraphOf(s).next, t, k);
    }
  }

  lemma SceneEdges(i: nat)
    requires i <= 16 && Wf(Scene(i).k)
    ensures forall t :: 0 <= t < |Scene(i).k.tasks| ==> Next(Scene(i).k, t) < t
  {
    hide Wf, Early, Late, Next;
    if i <= 7 {
      EarlyEdges(i);
    } else {
      LateEdges(i);
    }
  }

  lemma EarlyEdges(i: nat)
    requires i <= 7 && Wf(Early(i).k)
    ensures forall t :: 0 <= t < |Early(i).k.tasks| ==> Next(Early(i).k, t) == NULL
  {
    hide Wf;
    assert forall t :: 0 <= t < |Early(i).k.tasks| ==> Early(i).k.tasks[t].reason != OnMutex;
  }

  lemma LateEdges(i: nat)
    requires 8 <= i <= 16 && Wf(Late(i).k)
    ensures forall t :: 0 <= t < |Late(i).k.tasks| ==> Next(Late(i).k, t) < t
  {
    hide Wf, Next;
    EdgesDown(Late(i).k);
  }

  lemma EdgesDown(s: State)
    requires Wf(s) && |s.tasks| == 4 && s.tasks[0].reason != OnMutex && s.tasks[1].reason != OnMutex
    requires |s.mutexes| == |s.lists| == 2 && s.lists[0].home == InMutex(0) && s.lists[1].home == InMutex(1)
    requires s.tasks[2].reason == OnMutex ==> s.tasks[2].blockedOn == 0 && s.mutexes[0].owner == 1
    requires s.tasks[3].reason == OnMutex ==> s.tasks[3].blockedOn == 1 && s.mutexes[1].owner == 2
    ensures forall t :: 0 <= t < |s.tasks| ==> Next(s, t) < t
  {
    hide Wf;
  }

  lemma {:induction false} StoryRuns(i: nat)
    requires i <= 16 && SysInv(Scene(i))
    ensures Run(Scene(i), Story()[i..]) && Exec(Scene(i), Story()[i..]) == Scene(16)
    ensures Always(Scene(i), Story()[i..], SafeLock)
    decreases 16 - i
  {
    hide Scene, Story, SysInv, Legal, Step, Act, AcyclicState, SafeLock;
    if i < 16 {
      var a := Story()[i];
      assert Story()[i..][0] == a && Story()[i..][1..] == Story()[i + 1..];
      SceneStep(i);
      StepKeeps(Scene(i), a);
      SceneAcyclic(i);
      SceneAcyclic(i + 1);
      StaysAcyclic(Scene(i), a);
      StoryRuns(i + 1);
    }
  }

  lemma StaysAcyclic(y: Sys, a: Action)
    requires SysInv(y) && Legal(y, a) && AcyclicState(y.k) && AcyclicState(Step(y, a).k)
    ensures SafeLock(y, a)
  {
    hide SysInv, Legal, Act, AcyclicState, SafeLock;
    AcyclicKept(y, a);
  }

  /** A run from power-up, without a deadlock on the way, after which the running task, which has
      just returned from its lock call, competes at priority 5 while a task of priority 1 is ready,
      no switch is pended and nobody waits for a mutex. */
  lemma StrongerTaskLeftReady() returns (z: Sys)
    ensures Accepted(ThreeTasks()) && SysInv(Boot(ThreeTasks()))
    ensures Run(Boot(ThreeTasks()), Story()) && Always(Boot(ThreeTasks()), Story(), SafeLock)
    ensures z == Exec(Boot(ThreeTasks()), Story()) && Wf(z.k) && !TopOrPending(z.k)
    ensures z.k.current == 2 && z.k.tasks[2] == Heir(Running, 5, [1, 0]) && z.calls[2] == NoCall && !z.k.pending
    ensures |z.k.tasks| == 4 && z.k.tasks[3] == Urgent(Ready, true)
    ensures forall t :: 0 <= t < |z.k.tasks| ==> Next(z.k, t) == NULL
  {
    StoryEnds();
    hide SysInv, KInv, Wf, Run, Exec, Always, CallOk, WfQueue, WfMutex, Boot, Story, Accepted;
    z := Scene(16);
    Ranges(z);
    assert z.k.tasks[3].state == Ready && z.k.tasks[z.k.current].eff == 5;
  }

  lemma StoryEnds()
    ensures Accepted(ThreeTasks()) && SysInv(Boot(ThreeTasks())) && SysInv(Scene(16))
    ensures Run(Boot(ThreeTasks()), Story()) && Always(Boot(ThreeTasks()), Story(), SafeLock)
    ensures Exec(Boot(ThreeTasks()), Story()) == Scene(16)
  {
    hide Scene, Story, SysInv, Run, Exec, Always, Boot, Accepted, SafeLock;
    Opening();
    ReachableBoot(ThreeTasks());
    assert Story()[0..] == Story();
    StoryRuns(0);
  }
}
