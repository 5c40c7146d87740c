/** Delays and timed waits over whole runs, from the call that starts them. */
module DelayRuns {
  import opened Types
  import opened Spec
  import opened Invariants
  import opened Runs
  import opened Effects
  import opened Traces
  import opened TimeRuns
  import opened Answers

  /** A delay of OS_WAIT_FOREVER never ends. */
  lemma ForeverDelays(y: Sys, acts: seq<Action>)
    requires SysInv(y) && Legal(y, DoDelay(WAIT_FOREVER)) && SysInv(Step(y, DoDelay(WAIT_FOREVER)))
    requires Run(Step(y, DoDelay(WAIT_FOREVER)), acts)
    ensures var z := Exec(Step(y, DoDelay(WAIT_FOREVER)), acts);
      |z.k.tasks| == |y.k.tasks| && 0 <= y.k.current < |y.k.tasks| && Hung(z.k, y.k.current)
  {
    var x := Step(y, DoDelay(WAIT_FOREVER));
    DelayAnswer(y, WAIT_FOREVER);
    Delayed(y, WAIT_FOREVER);
    hide SysInv, KInv, Wf, Step, Act, Legal;
    DelayHangs(x, acts, y.k.current);
  }

  lemma Delayed(y: Sys, n: int)
    requires SysInv(y) && Legal(y, DoDelay(n))
    ensures var x := Step(y, DoDelay(n)); var c := y.k.current;
      && |x.calls| == |x.k.tasks| == |y.k.tasks| && 0 < c < |x.calls|
      && x.k.tasks[c].state == Blocked && x.k.tasks[c].blockedOn == NULL && x.k.tick == y.k.tick
      && x.k.tasks[c].wakeup == (if n == WAIT_FOREVER then 0 else (y.k.tick + n) % U32)
  {
    DelayAnswer(y, n);
    Ranges(y);
    hide SysInv, KInv, Wf, Act;
  }

  /** A finite delay whose deadline is not tick 0 lasts until the tick numbered `WakesAfter(n)` and
      ends with it, whatever else happens and wherever the 32-bit counter stands. */
  lemma DelayEnds(y: Sys, n: int, acts: seq<Action>)
    requires SysInv(y) && Legal(y, DoDelay(n)) && n < WAIT_FOREVER && (y.k.tick + n) % U32 != 0
    requires SysInv(Step(y, DoDelay(n))) && Run(Step(y, DoDelay(n)), acts)
    requires Count(Step(y, DoDelay(n)), acts, IsTick) < WakesAfter(n)
    ensures var z := Exec(Step(y, DoDelay(n)), acts); var c := y.k.current;
      && |z.k.tasks| == |y.k.tasks| == |Tick(z.k).tasks| && 0 < c < |y.k.tasks|
      && z.k.tasks[c].state == Blocked
      && (Tick(z.k).tasks[c].state != Blocked <==>
          Count(Step(y, DoDelay(n)), acts, IsTick) + 1 == WakesAfter(n))
  {
    var x := Step(y, DoDelay(n));
    Ranges(y);
    DelayedFinite(y, n);
    hide *;
    SleepsUntil(x, acts, y.k.current, n);
    ExactWake(x, acts, y.k.current, n);
    SleepKeeps(x, acts, y.k.current);
  }

  lemma DelayedFinite(y: Sys, n: int)
    requires SysInv(y) && Legal(y, DoDelay(n)) && n < WAIT_FOREVER && (y.k.tick + n) % U32 != 0
    ensures var x := Step(y, DoDelay(n)); var c := y.k.current;
      && |x.calls| == |x.k.tasks| == |y.k.tasks| && 0 < c < |x.calls| && 0 <= x.k.tick < U32
      && FiniteBlock(x.k, c, n) && x.k.tasks[c].blockedOn == NULL
  {
    Delayed(y, n);
    Ranges(y);
    hide SysInv, KInv, Wf, Act, Step;
  }

  lemma SleepsUntil(x: Sys, acts: seq<Action>, t: int, n: int)
    requires SysInv(x) && Run(x, acts) && 0 < t < |x.calls| == |x.k.tasks| && 0 <= x.k.tick < U32
    requires FiniteBlock(x.k, t, n) && x.k.tasks[t].blockedOn == NULL && Count(x, acts, IsTick) < WakesAfter(n)
    ensures Asleep(x, acts, t)
  {
    hide SysInv, KInv, Wf, WakesAfter, Asleep;
    DelayedSleeps(x, acts, t, n, 0, x.k.tick);
  }

  lemma {:induction false} DelayedSleeps(y: Sys, acts: seq<Action>, t: int, n: int, k: int, start: int)
    requires SysInv(y) && Run(y, acts) && 0 < t < |y.calls| == |y.k.tasks|
    requires y.k.tasks[t].state == Blocked && y.k.tasks[t].blockedOn == NULL
    requires 0 <= start < U32 && 0 <= n < WAIT_FOREVER && 0 <= k && k + Count(y, acts, IsTick) < WakesAfter(n)
    requires y.k.tick == (start + k) % U32 && y.k.tasks[t].wakeup == (start + n) % U32 != 0
    ensures Asleep(y, acts, t)
    decreases |acts|
  {
    hide SysInv, KInv, Wf, Step, Legal;
    if acts != [] {
      StepKeeps(y, acts[0]);
      SleepStep(y, acts[0], t);
      if acts[0].TickIrq? {
        TickUp(start, k, y.k.tick);
        ElapsedFirst(start, n, k + 1);
        DelayedSleeps(Step(y, acts[0]), acts[1..], t, n, k + 1, start);
      } else {
        DelayedStep(y, acts[0], t);
        DelayedSleeps(Step(y, acts[0]), acts[1..], t, n, k, start);
      }
    }
  }

  /** A semaphore wait or lock call that blocks with a finite timeout whose deadline is not tick 0
      and is not released is timed out by the tick numbered `WakesAfter(n)`, by none before it. */
  lemma WaitTimesOut(y: Sys, a: Action, n: int, acts: seq<Action>)
    requires SysInv(y) && Legal(y, a) && Act(y, a).ret == Blocks
    requires ((a.DoWait? && n == a.wtimeout) || (a.DoLock? && n == a.ltimeout))
    requires n < WAIT_FOREVER && (y.k.tick + n) % U32 != 0
    requires SysInv(Step(y, a)) && |Step(y, a).calls| == |y.k.tasks| && Run(Step(y, a), acts)
    requires 0 <= y.k.current < |y.k.tasks| && Asleep(Step(y, a), acts, y.k.current)
    ensures Count(Step(y, a), acts, IsTick) < WakesAfter(n)
    ensures var z := Exec(Step(y, a), acts);
      |z.k.tasks| == |y.k.tasks| == |Tick(z.k).tasks| &&
      (Tick(z.k).tasks[y.k.current].state != Blocked <==> Count(Step(y, a), acts, IsTick) + 1 == WakesAfter(n))
  {
    WaitBlocked(y, a, n);
    hide SysInv, KInv, Wf, Step, Act, Legal;
    ExactWake(Step(y, a), acts, y.k.current, n);
    SleepKeeps(Step(y, a), acts, y.k.current);
  }

  lemma WaitBlocked(y: Sys, a: Action, n: int)
    requires SysInv(y) && Legal(y, a) && Act(y, a).ret == Blocks && n < WAIT_FOREVER && (y.k.tick + n) % U32 != 0
    requires (a.DoWait? && n == a.wtimeout) || (a.DoLock? && n == a.ltimeout)
    ensures var x := Step(y, a);
      && |x.calls| == |x.k.tasks| == |y.k.tasks| && 0 < y.k.current < |x.calls| && x.k.tick == y.k.tick
      && FiniteBlock(x.k, y.k.current, n)
  {
    BlockedRecord(y, a);
    Constants(y, a);
    Ranges(y);
    hide SysInv, KInv, Wf, Act;
  }
}
