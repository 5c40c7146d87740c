/** The kernel from power-up through whole runs. */
module Machine {
  import opened Types
  import opened Spec
  import opened Invariants
  import opened Runs
  import opened Effects
  import opened Traces
  import opened Startup
  import opened CreatedRuns
  import opened Blocks
  import opened Creation
  import opened Kernel

  /** The create calls of `u`, one after the other. */
  method PowerUp(u: Setup) returns (core: Core)
    requires Accepted(u)
    ensures core.Valid() && core.model == Start(u) && KInv(core.model) && fresh(core) && fresh(core.tasks)
    ensures Made(u, core.model)
    ensures forall k :: 0 <= k < |core.lists| ==> fresh(core.lists[k]) && fresh(core.lists[k].slots)
    ensures forall k :: 0 <= k < |core.mutexes| ==> fresh(core.mutexes[k])
    ensures forall k :: 0 <= k < |core.sems| ==> fresh(core.sems[k])
    ensures forall k :: 0 <= k < |core.queues| ==> fresh(core.queues[k]) && fresh(core.queues[k].buffer)
  {
    hide TasksMade, ListsMade, MutexesMade, SemsMade, QueuesMade, Made;
    BootMade(u);
    var ts := MakeTasks(u);
    var ls := MakeLists(u);
    var ms := MakeMutexes(u);
    var ss := MakeSems(u);
    var qs := MakeQueues(u);
    core := new Core(u, ts, ls, ms, ss, qs);
  }

  /** Every run of the system, from power-up, on the tables themselves. */
  method PlayRun(u: Setup, acts: seq<Action>) returns (core: Core, calls: seq<Call>)
    requires Accepted(u) && SysInv(Boot(u)) && Run(Boot(u), acts)
    ensures core.Valid() && Sys(core.model, calls) == Exec(Boot(u), acts)
  {
    hide SysInv, Legal, Step;
    core := PowerUp(u);
    calls := seq(1 + |u.priorities|, t => NoCall);
    assert acts[0..] == acts;
    for i := 0 to |acts|
      invariant fresh(core) && fresh(core.tasks)
      invariant forall k :: 0 <= k < |core.lists| ==> fresh(core.lists[k]) && fresh(core.lists[k].slots)
      invariant forall k :: 0 <= k < |core.mutexes| ==> fresh(core.mutexes[k])
      invariant forall k :: 0 <= k < |core.sems| ==> fresh(core.sems[k])
      invariant forall k :: 0 <= k < |core.queues| ==> fresh(core.queues[k]) && fresh(core.queues[k].buffer)
      invariant core.Valid() && SysInv(Sys(core.model, calls))
      invariant Run(Sys(core.model, calls), acts[i..])
      invariant Exec(Sys(core.model, calls), acts[i..]) == Exec(Boot(u), acts)
    {
      assert acts[i..][0] == acts[i] && acts[i..][1..] == acts[i + 1..];
      var r;
      r, calls := core.Perform(calls, acts[i]);
    }
  }
}
