/** Finite runs of the system and what holds along them. */
module Traces {
  import opened Types
  import opened Spec
  import opened Invariants
  import opened Runs
  import opened Effects

  /** `acts` can be performed one after the other from `y`. */
  ghost predicate Run(y: Sys, acts: seq<Action>)
    requires SysInv(y)
    decreases |acts|
  {
    acts == [] || (Legal(y, acts[0]) && (StepKeeps(y, acts[0]); Run(Step(y, acts[0]), acts[1..])))
  }

  ghost function Exec(y: Sys, acts: seq<Action>): (z: Sys)
    requires SysInv(y) && Run(y, acts)
    ensures SysInv(z)
    decreases |acts|
  {
    if acts == [] then y
    else
      StepKeeps(y, acts[0]);
      Exec(Step(y, acts[0]), acts[1..])
  }

  /** `ok` holds of every step of a run. */
  ghost predicate Always(y: Sys, acts: seq<Action>, ok: (Sys, Action) -> bool)
    requires SysInv(y) && Run(y, acts)
    decreases |acts|
  {
    acts == [] || (ok(y, acts[0]) && (StepKeeps(y, acts[0]); Always(Step(y, acts[0]), acts[1..], ok)))
  }

  /** How often `ev` happens along a run. */
  ghost function Count(y: Sys, acts: seq<Action>, ev: (Sys, Action) -> bool): nat
    requires SysInv(y) && Run(y, acts)
    decreases |acts|
  {
    if acts == [] then 0
    else
      StepKeeps(y, acts[0]);
      (if ev(y, acts[0]) then 1 else 0) + Count(Step(y, acts[0]), acts[1..], ev)
  }

  /** A run can be continued by any action that is legal at its end. */
  lemma {:induction false} RunSnoc(y: Sys, acts: seq<Action>, a: Action)
    requires SysInv(y) && Run(y, acts) && Legal(Exec(y, acts), a)
    ensures Run(y, acts + [a]) && Exec(y, acts + [a]) == Step(Exec(y, acts), a)
    decreases |acts|
  {
    hide SysInv, Legal, Step;
    if acts == [] {
      StepKeeps(y, a);
      assert (acts + [a])[1..] == [];
    } else {
      StepKeeps(y, acts[0]);
      assert (acts + [a])[1..] == acts[1..] + [a];
      RunSnoc(Step(y, acts[0]), acts[1..], a);
    }
  }
}
