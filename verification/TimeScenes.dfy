/** Runs from power-up in which delays and timeouts fail. */
module TimeScenes {
  import opened Types
  import opened Spec
  import opened Invariants
  import opened Runs
  import opened Effects
  import opened Traces
  import opened RoundRobin
  import opened TimeRuns
  import opened Startup
  import opened Scenes

  /** The busy task, number 1, of priority 1, the reader, number 2, of priority 5, and a queue for
      one item of one byte. */
  function BusyAndReader(): Setup {
    Setup(Config(3, 1, 31), [1, 5], [], 0, [QueueSetup(1, 1, Fifo)])
  }

  function Busy(state: RunState): Task {
    Awake(state, 1, 1, [], false)
  }

  function Reader(state: RunState): Task {
    Awake(state, 5, 5, [], false)
  }

  function Tables(busy: Task, reader: Task, items: seq<Item>, tick: int, current: int, pending: bool): State {
    var readers := if reader.state == Blocked then [2] else [];
    State(Config(3, 1, 31), [Awake(Ready, 32, 32, [], false), busy, reader], [], [], [Queue(1, 1, items, 0, 0, 1)],
          [List(Fifo, InSend(0), []), List(Fifo, InRecv(0), readers)], tick, current, pending)
  }

  function Free(s: State): Sys {
    Sys(s, [NoCall, NoCall, NoCall])
  }

  /** The reader is in a receive with a timeout of two ticks, made at tick 0. */
  function Reading(s: State): Sys {
    Sys(s, [NoCall, NoCall, Receiving(0, 2, 2)])
  }

  lemma Opening()
    ensures Accepted(BusyAndReader())
    ensures Boot(BusyAndReader()) == Free(Tables(Busy(Ready), Reader(Ready), [], 0, 0, true))
  {
    var s := Start(BusyAndReader());
    assert s.tasks == [NewTask(32), NewTask(1), NewTask(5)];
    assert s.queues == [Queue(1, 1, [], 0, 0, 1)];
    assert s.lists == [List(Fifo, InSend(0), []), List(Fifo, InRecv(0), [])];
    assert Boot(BusyAndReader()).calls == [NoCall, NoCall, NoCall];
  }

  /** The first switch selects the busy task. */
  lemma Begin() returns (y: Sys)
    ensures y == Free(Tables(Busy(Running), Reader(Ready), [], 0, 1, false))
    ensures Reachable(BusyAndReader(), y) && SysInv(y)
  {
    hide SysInv, Legal, Step, Reachable, Boot;
    Opening();
    ReachableBoot(BusyAndReader());
    y := Free(Tables(Busy(Ready), Reader(Ready), [], 0, 0, true));
    SwitchScene(y, 1);
    y := Proceed(y, Switch);
    assert y.k == Tables(Busy(Running), Reader(Ready), [], 0, 1, false);
  }

  lemma Proceed(y: Sys, a: Action) returns (z: Sys)
    requires Reachable(BusyAndReader(), y) && SysInv(y) && Legal(y, a)
    ensures z == Step(y, a) && Reachable(BusyAndReader(), z) && SysInv(z)
  {
    hide SysInv, Legal, Step, Reachable;
    ReachableStep(BusyAndReader(), y, a);
    z := Step(y, a);
  }

  lemma SwitchScene(y: Sys, r: int)
    requires SysInv(y) && y.k.pending && |y.k.tasks| == 3 && 0 <= y.k.current < 3 && y.k.cfg.lowest == 31 && 1 <= r < 3
    requires Eligible(Preempted(y.k), 31, r)
    requires Eligible(Preempted(y.k), 31, 3 - r) ==> Preempted(y.k)[r].eff < Preempted(y.k)[3 - r].eff
    ensures Legal(y, Switch) && Step(y, Switch) == y.(k := SwitchedTo(y.k, r))
  {
    assert IsNext(Preempted(y.k), y.k.current, 31, r);
    SwitchSelects(y, r);
  }

  // ---------------------------------------------------------------- a delay of 0

  /** Two actions after power-up a task is blocked for good: it asked for a delay of 0 at tick 0. */
  lemma ZeroDelayHangs() returns (y: Sys)
    ensures y == Free(Tables(Sleeping(1, 1, 0, []), Reader(Ready), [], 0, 1, true))
    ensures Reachable(BusyAndReader(), y) && SysInv(y)
    ensures forall acts :: Run(y, acts) ==>
      var z := Exec(y, acts); |z.k.tasks| == 3 && z.k.tasks[1].state == Blocked
  {
    hide SysInv, Legal, Step, Reachable;
    y := Begin();
    DelayScene(y, 0);
    y := Proceed(y, DoDelay(0));
    forall acts | Run(y, acts)
      ensures var z := Exec(y, acts); |z.k.tasks| == 3 && z.k.tasks[1].state == Blocked
    {
      DelayHangs(y, acts, 1);
    }
  }

  lemma DelayScene(y: Sys, n: int)
    requires SysInv(y) && !y.k.pending && |y.calls| == |y.k.tasks| == 3 && 0 <= n < WAIT_FOREVER
    requires y.k.current == 1 && y.k.tasks[1] == Busy(Running) && y.calls[1] == NoCall
    ensures Legal(y, DoDelay(n))
    ensures Step(y, DoDelay(n)) ==
      y.(k := y.k.(tasks := y.k.tasks[1 := Sleeping(1, 1, (y.k.tick + n) % U32, [])], pending := true))
  {
    hide SysInv, KInv, Wf;
    Ranges(y);
  }

  // ---------------------------------------------------------------- a long timeout

  /** A receive from the empty queue with a timeout of 2^31 + 1 ticks does not wait at all. */
  lemma LongTimeoutFails() returns (y: Sys)
    ensures Reachable(BusyAndReader(), y) && SysInv(y) && Legal(y, DoRecv(0, HALF + 1))
    ensures Act(y, DoRecv(0, HALF + 1)).ret == Returns(Unavailable)
  {
    hide SysInv, KInv, Wf, Act, Reachable;
    y := Begin();
    Ranges(y);
    QueueBlocksIff(y, DoRecv(0, HALF + 1));
  }

  // ---------------------------------------------------------------- a late second block

  /** The reader has been woken for an item that a device took away again. */
  lemma Robbed() returns (y: Sys)
    ensures y == Reading(Tables(Sleeping(1, 1, 1, []), Reader(Ready), [], 0, 2, true))
    ensures Reachable(BusyAndReader(), y) && SysInv(y)
  {
    hide SysInv, Legal, Step, Reachable;
    y := Begin();
    DelayScene(y, 1);
    y := Proceed(y, DoDelay(1));
    SwitchScene(y, 2);
    y := Proceed(y, Switch);
    ReadScene(y);
    y := Proceed(y, DoRecv(0, 2));
    PutScene(y);
    y := Proceed(y, IsrPut(0, [7]));
    GetScene(y);
    y := Proceed(y, IsrGet(0));
  }

  lemma ReadScene(y: Sys)
    requires SysInv(y) && y == Free(Tables(Sleeping(1, 1, 1, []), Reader(Running), [], 0, 2, false))
    ensures Legal(y, DoRecv(0, 2))
    ensures Step(y, DoRecv(0, 2)) ==
      Reading(Tables(Sleeping(1, 1, 1, []), Waiting(5, 5, 2, OnRecv, 1, []), [], 0, 2, true))
  {
    hide SysInv, KInv, Wf;
    Ranges(y);
    assert [] + [2] == [2];
    var r := BlockOn(y.k, 1, 2).s;
    var z := Tables(Sleeping(1, 1, 1, []), Waiting(5, 5, 2, OnRecv, 1, []), [], 0, 2, true);
    assert r.tasks == z.tasks && r.lists == z.lists;
  }

  lemma PutScene(y: Sys)
    requires SysInv(y)
    requires y == Reading(Tables(Sleeping(1, 1, 1, []), Waiting(5, 5, 2, OnRecv, 1, []), [], 0, 2, true))
    ensures Legal(y, IsrPut(0, [7]))
    ensures Step(y, IsrPut(0, [7])) == Reading(Tables(Sleeping(1, 1, 1, []), Reader(Ready), [[7]], 0, 2, true))
  {
    hide SysInv, KInv, Wf;
    Ranges(y);
    var p := PutItem(y.k, 0, [7]);
    assert [] + [[7]] == [[7]] && p.queues == [Queue(1, 1, [[7]], 0, 0, 1)];
    assert Pick(p, 1) == 0 && RemoveAt([2], 0) == [];
    var r := Release(p, 1);
    var z := Tables(Sleeping(1, 1, 1, []), Reader(Ready), [[7]], 0, 2, true);
    assert r.tasks == z.tasks && r.lists == z.lists;
  }

  lemma GetScene(y: Sys)
    requires SysInv(y) && y == Reading(Tables(Sleeping(1, 1, 1, []), Reader(Ready), [[7]], 0, 2, true))
    ensures Legal(y, IsrGet(0))
    ensures Step(y, IsrGet(0)) == Reading(Tables(Sleeping(1, 1, 1, []), Reader(Ready), [], 0, 2, true))
  {
    hide SysInv, KInv, Wf;
    Ranges(y);
    var p := TakeItem(y.k, 0);
    assert [[7]][1..] == [] && p.queues == [Queue(1, 1, [], 0, 0, 1)];
  }

  /** The busy task runs at tick `n`, the reader is ready. */
  function BusyAt(n: int): Sys {
    Reading(Tables(Busy(Running), Reader(Ready), [], n, 1, false))
  }

  function Rested(busy: Task): Task {
    if busy.state == Blocked then Busy(Ready) else busy
  }

  lemma TickScene(y: Sys, busy: Task)
    requires SysInv(y) && y.k == Tables(busy, Reader(Ready), [], y.k.tick, y.k.current, y.k.pending) && |y.calls| == 3
    requires 0 <= y.k.tick < WAIT_FOREVER && (busy == Sleeping(1, 1, y.k.tick + 1, []) || busy == Busy(Running))
    ensures Legal(y, TickIrq)
    ensures Step(y, TickIrq) ==
      y.(k := Tables(Rested(busy), Reader(Ready), [], y.k.tick + 1, y.k.current, true))
  {
    hide SysInv, KInv, Wf;
    Ranges(y);
    var a := Advance(y.k);
    assert WakeBelow(a, 1) == a;
    var b := WakeIfDue(a, 1);
    assert WakeBelow(a, 2) == b;
    assert WakeBelow(a, 3) == WakeIfDue(b, 2) == b;
    var z := Tables(Rested(busy), Reader(Ready), [], y.k.tick + 1, y.k.current, true);
    assert b.tasks == z.tasks;
  }

  /** The busy task can keep the reader from the processor for as long as the counter counts. */
  lemma {:induction false} KeptBusy(n: int)
    requires 1 <= n < U32
    ensures Reachable(BusyAndReader(), BusyAt(n)) && SysInv(BusyAt(n))
    decreases n
  {
    hide SysInv, Legal, Step, Reachable;
    var y;
    if n == 1 {
      y := Robbed();
      TickScene(y, Sleeping(1, 1, 1, []));
    } else {
      KeptBusy(n - 1);
      y := BusyAt(n - 1);
      TickScene(y, Busy(Running));
    }
    y := Proceed(y, TickIrq);
    SwitchScene(y, 1);
    y := Proceed(y, Switch);
    assert y.k.tasks == BusyAt(n).k.tasks;
  }

  /** The reader, whose call was made at tick 0 with a timeout of two ticks, resumes it 2^31 + 2
      ticks later and blocks again instead of failing. */
  lemma LateSecondBlock() returns (y: Sys)
    ensures Reachable(BusyAndReader(), y) && SysInv(y) && Legal(y, Resume)
    ensures y.k.tick == HALF + 2 && y.k.current == 2 && y.calls[2] == Receiving(0, 2, DeadlineOf(0, 2))
    ensures Act(y, Resume).ret == Blocks
  {
    hide SysInv, Legal, Step, Reachable, Act;
    KeptBusy(HALF + 2);
    y := BusyAt(HALF + 2);
    DelayScene(y, 1);
    y := Proceed(y, DoDelay(1));
    SwitchScene(y, 2);
    y := Proceed(y, Switch);
    BlocksAgain(y);
  }

  lemma BlocksAgain(y: Sys)
    requires SysInv(y) && y == Reading(Tables(Sleeping(1, 1, HALF + 3, []), Reader(Running), [], HALF + 2, 2, false))
    ensures Legal(y, Resume) && Act(y, Resume).ret == Blocks
  {
    hide SysInv, KInv, Wf, Act;
    Ranges(y);
    ResumeDecides(y, 2);
  }
}
