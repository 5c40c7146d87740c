/** Single actions on small concrete states, for the runs that show where a promise fails. */
module Scenes {
  import opened Types
  import opened Inheritance
  import opened Spec
  import opened Invariants
  import opened Handoff
  import opened Runs
  import opened Effects
  import opened RoundRobin

  /** A task that waits for nothing. */
  function Awake(state: RunState, base: int, eff: int, owned: seq<int>, timeout: bool): Task {
    Task(state, base, eff, 0, NoReason, NULL, owned, timeout)
  }

  function Sleeping(base: int, eff: int, wakeup: int, owned: seq<int>): Task {
    Task(Blocked, base, eff, wakeup, OnDelay, NULL, owned, false)
  }

  function Waiting(base: int, eff: int, wakeup: int, reason: Reason, list: int, owned: seq<int>): Task {
    Task(Blocked, base, eff, wakeup, reason, list, owned, false)
  }

  /** The state after the pended switch has selected `r`. */
  function SwitchedTo(s: State, r: int): State
    requires 0 <= s.current < |s.tasks| && 0 <= r < |s.tasks|
  {
    var ts := Preempted(s);
    s.(tasks := ts[r := ts[r].(state := Running)], current := r, pending := false)
  }

  lemma SwitchSelects(y: Sys, r: int)
    requires SysInv(y) && y.k.pending && |y.k.tasks| > 1 && 0 <= y.k.current < |y.k.tasks| && 0 <= r < |y.k.tasks|
    requires IsNext(Preempted(y.k), y.k.current, y.k.cfg.lowest, r)
    ensures Legal(y, Switch) && Step(y, Switch) == y.(k := SwitchedTo(y.k, r))
  {
    NextTaskIff(Preempted(y.k), y.k.current, y.k.cfg.lowest, r);
    hide IsNext;
    Ranges(y);
  }

  /** A recomputation that ends with its argument. */
  lemma RecomputeTo(s: State, o: int, p: int)
    requires Wf(s) && 0 <= o < |s.tasks| && Next(s, o) == NULL && p == Local(GraphOf(s), Effs(s), o)
    ensures RecomputePriority(s, o) == s.(tasks := s.tasks[o := s.tasks[o].(eff := p)])
  {
    RecomputeOne(s, o);
    var r := RecomputePriority(s, o);
    hide Wf, RecomputePriority, Local, GraphOf, Next;
    assert forall t :: 0 <= t < |s.tasks| ==> r.tasks[t].eff == Effs(r)[t];
    assert r.tasks == s.tasks[o := s.tasks[o].(eff := p)];
  }
}
