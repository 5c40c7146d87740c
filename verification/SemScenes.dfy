/** A run from power-up in which the 8-bit count of a semaphore wraps. */
module SemScenes {
  import opened Types
  import opened Spec
  import opened Invariants
  import opened Runs
  import opened Effects
  import opened Traces
  import opened RoundRobin
  import opened SemRuns
  import opened Startup
  import opened Scenes

  /** One task, number 1, and one semaphore that starts at 0. */
  function OnePoster(): Setup {
    Setup(Config(3, 1, 31), [1], [SemSetup(0, Fifo)], 0, [])
  }

  function Tables(poster: RunState, count: int, current: int, pending: bool): Sys {
    Sys(State(Config(3, 1, 31), [Awake(Ready, 32, 32, [], false), Awake(poster, 1, 1, [], false)],
              [], [Sem(count, 0)], [], [List(Fifo, InSem(0), [])], 0, current, pending),
        [NoCall, NoCall])
  }

  /** The task has posted `n` times and nobody has waited. */
  function Posted(n: nat): Sys {
    Tables(Running, n % 256, 1, false)
  }

  function Posting(n: nat): (acts: seq<Action>)
    ensures |acts| == n
  {
    seq(n, _ => DoPost(0))
  }

  lemma Opening()
    ensures Accepted(OnePoster()) && Boot(OnePoster()) == Tables(Ready, 0, 0, true)
  {
    var s := Start(OnePoster());
    assert s.tasks == [NewTask(32), NewTask(1)];
    assert s.sems == [Sem(0, 0)] && s.lists == [List(Fifo, InSem(0), [])];
    assert Boot(OnePoster()).calls == [NoCall, NoCall];
  }

  lemma Begin(y: Sys)
    requires SysInv(y) && y == Tables(Ready, 0, 0, true)
    ensures Legal(y, Switch) && Step(y, Switch) == Posted(0)
  {
    assert IsNext(Preempted(y.k), 0, 31, 1);
    SwitchSelects(y, 1);
    assert SwitchedTo(y.k, 1).tasks == Posted(0).k.tasks;
  }

  lemma PostScene(n: nat)
    requires SysInv(Posted(n))
    ensures Legal(Posted(n), DoPost(0)) && Step(Posted(n), DoPost(0)) == Posted(n + 1)
    ensures IsWrap(Posted(n), DoPost(0), 0) <==> n % 256 == 255
  {
    hide SysInv, KInv, Wf;
    Ranges(Posted(n));
    assert SemPost(Posted(n).k, 0).sems == Posted(n + 1).k.sems;
  }

  lemma {:induction false} PostsRun(k: nat, n: nat)
    requires SysInv(Posted(k))
    ensures Run(Posted(k), Posting(n)) && Exec(Posted(k), Posting(n)) == Posted(k + n)
    decreases n
  {
    hide SysInv, Legal, Step, Posted;
    if n > 0 {
      PostScene(k);
      StepKeeps(Posted(k), DoPost(0));
      assert Posting(n)[1..] == Posting(n - 1);
      PostsRun(k + 1, n - 1);
    }
  }

  /** `n` posts that nobody takes up leave a count of `n` modulo 256: none at all after 256. */
  lemma PostsWrap(n: nat)
    ensures Accepted(OnePoster()) && SysInv(Boot(OnePoster()))
    ensures Run(Boot(OnePoster()), [Switch] + Posting(n))
    ensures var z := Exec(Boot(OnePoster()), [Switch] + Posting(n));
      && z.k.sems == [Sem(n % 256, 0)]
      && Legal(z, DoPost(0)) && (IsWrap(z, DoPost(0), 0) <==> n % 256 == 255)
  {
    hide SysInv, Legal, Step, Boot, Accepted, IsWrap;
    Opening();
    ReachableBoot(OnePoster());
    Begin(Boot(OnePoster()));
    StepKeeps(Boot(OnePoster()), Switch);
    PostsRun(0, n);
    assert ([Switch] + Posting(n))[1..] == Posting(n);
    PostScene(n);
  }
}
