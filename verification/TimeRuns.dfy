/** Ticks, deadlines and timeouts over whole runs, with a 32-bit tick counter that wraps. */
module TimeRuns {
  import opened Types
  import opened Spec
  import opened Invariants
  import opened Preserve
  import opened Runs
  import opened Effects
  import opened Traces

  ghost predicate IsTick(y: Sys, a: Action) {
    a.TickIrq?
  }

  // ---------------------------------------------------------------- the wake-up test

  /** The number of ticks after which a task that blocks with `n` is woken if nothing releases it:
      `n` itself up to 2^31 + 1, but the very next tick for longer finite timeouts and for 0. */
  function WakesAfter(n: int): int {
    if 1 <= n <= HALF + 1 then n else 1
  }

  /** `k` ticks after a block with timeout `n` the wake-up test succeeds for the first time
      exactly at `WakesAfter(n)`. */
  lemma ElapsedFirst(tick: int, n: int, k: int)
    requires 0 <= tick < U32 && 0 <= n < U32 - 1 && 1 <= k <= WakesAfter(n)
    ensures Elapsed((tick + k) % U32, (tick + n) % U32) <==> k == WakesAfter(n)
  {
    assert ((tick + k) % U32 - (tick + n) % U32) % U32 == (k - n) % U32;
  }

  /** Seen from a fixed deadline the test of a queue call succeeds during the 2^31 ticks from the
      deadline on and fails during the 2^31 ticks before it. */
  lemma ElapsedIff(tick: int, n: int, k: int)
    requires 0 <= tick < U32 && 0 <= n <= HALF && 0 <= k
    ensures Elapsed((tick + k) % U32, (tick + n) % U32) <==> (k - n) % U32 < HALF
    ensures k < n ==> !Elapsed((tick + k) % U32, (tick + n) % U32)
    ensures n <= k < n + HALF ==> Elapsed((tick + k) % U32, (tick + n) % U32)
  {
    assert ((tick + k) % U32 - (tick + n) % U32) % U32 == (k - n) % U32;
  }

  // ---------------------------------------------------------------- blocked throughout

  /** `t` is blocked before and after every step of the run. */
  ghost predicate Asleep(y: Sys, acts: seq<Action>, t: int)
    requires SysInv(y) && Run(y, acts) && 0 <= t < |y.calls|
    decreases |acts|
  {
    && y.k.tasks[t].state == Blocked
    && (acts != [] ==> (StepKeeps(y, acts[0]); StepCall(y, acts[0], t); Asleep(Step(y, acts[0]), acts[1..], t)))
  }

  /** A task that stays blocked over a step keeps its wake-up tick. */
  lemma SleepStep(y: Sys, a: Action, t: int)
    requires SysInv(y) && Legal(y, a) && 0 < t < |y.calls| && y.k.tasks[t].state == Blocked
    ensures |Step(y, a).k.tasks| == |y.k.tasks| == |Step(y, a).calls|
    ensures Step(y, a).k.tick == if a.TickIrq? then (y.k.tick + 1) % U32 else y.k.tick
    ensures Step(y, a).k.tasks[t].state == Blocked ==>
      Step(y, a).k.tasks[t].wakeup == y.k.tasks[t].wakeup && Step(y, a).k.tasks[t].blockedOn == y.k.tasks[t].blockedOn
    ensures a.TickIrq? ==> Step(y, a).k == Tick(y.k)
    ensures a.TickIrq? ==> (Step(y, a).k.tasks[t].state == Blocked <==>
      !(y.k.tasks[t].wakeup != 0 && Elapsed((y.k.tick + 1) % U32, y.k.tasks[t].wakeup)))
  {
    hide SysInv, KInv, Wf;
    Ranges(y);
    if a.TickIrq? {
      TickEffect(y.k);
    } else {
      SleepThrough(y, a, t);
    }
  }

  lemma SleepThrough(y: Sys, a: Action, t: int)
    requires SysInv(y) && Legal(y, a) && !a.TickIrq? && 0 < t < |y.calls| && y.k.tasks[t].state == Blocked
    ensures var z := Step(y, a);
      |z.k.tasks| == |y.k.tasks| == |z.calls| && z.k.tick == y.k.tick &&
      (z.k.tasks[t].state == Blocked ==> SameWait(y.k.tasks[t], z.k.tasks[t]))
  {
    hide SysInv, KInv, Wf;
    Ranges(y);
    if a.Switch? {
      SwitchEffect(y.k);
    } else if !a.DoDelay? {
      ActEffect(y, a);
      SleeperIdle(y, a, t);
    }
  }

  lemma SleeperIdle(y: Sys, a: Action, t: int)
    requires SysInv(y) && Legal(y, a) && !a.TickIrq? && !a.Switch? && !a.DoDelay? && Effective(y, a)
    requires 0 < t < |y.calls| && y.k.tasks[t].state == Blocked
    ensures var r := Act(y, a).s;
      |r.tasks| == |y.k.tasks| && r.tick == y.k.tick &&
      (r.tasks[t].state == Blocked ==> SameWait(y.k.tasks[t], r.tasks[t]))
  {
    if Act(y, a).ret == Blocks {
      NeverBlocks(y, a);
    }
    hide SysInv, KInv, Wf;
  }

  lemma {:induction false} SleepKeeps(y: Sys, acts: seq<Action>, t: int)
    requires SysInv(y) && Run(y, acts) && 0 < t < |y.calls| && Asleep(y, acts, t)
    ensures var z := Exec(y, acts);
      |z.k.tasks| == |y.k.tasks| && z.k.tasks[t].state == Blocked
      && z.k.tasks[t].wakeup == y.k.tasks[t].wakeup && z.k.tasks[t].blockedOn == y.k.tasks[t].blockedOn
      && z.k.tick == (y.k.tick + Count(y, acts, IsTick)) % U32
    decreases |acts|
  {
    hide SysInv, KInv, Wf, Step;
    Ranges(y);
    if acts != [] {
      StepKeeps(y, acts[0]);
      SleepStep(y, acts[0], t);
      SleepKeeps(Step(y, acts[0]), acts[1..], t);
    }
  }

  /** The deadline of a finite block does not collide with the value that means no deadline. */
  predicate FiniteBlock(s: State, t: int, n: int)
    requires 0 <= t < |s.tasks| && 0 <= s.tick < U32
  {
    && s.tasks[t].state == Blocked && 0 <= n < WAIT_FOREVER
    && s.tasks[t].wakeup == (s.tick + n) % U32 && s.tasks[t].wakeup != 0
  }

  /** A task blocked with a finite timeout is not woken by any tick before `WakesAfter(n)`, and is
      woken by that one, whatever happens in between and wherever the 32-bit counter stands. */
  lemma ExactWake(y: Sys, acts: seq<Action>, t: int, n: int)
    requires SysInv(y) && 0 < t < |y.calls| && FiniteBlock(y.k, t, n)
    requires Run(y, acts) && Asleep(y, acts, t)
    ensures Count(y, acts, IsTick) < WakesAfter(n)
    ensures var z := Exec(y, acts);
      |z.k.tasks| == |y.k.tasks| && |Tick(z.k).tasks| == |z.k.tasks| &&
      (Count(y, acts, IsTick) + 1 == WakesAfter(n) <==> Tick(z.k).tasks[t].state != Blocked)
  {
    hide SysInv, KInv, Wf, Step;
    Ranges(y);
    SleepKeeps(y, acts, t);
    Ranges(Exec(y, acts));
    TicksBelow(y, acts, t, n, 0, y.k.tick);
    NextTickWakes(Exec(y, acts), t, n, Count(y, acts, IsTick), y.k.tick);
  }

  lemma NextTickWakes(z: Sys, t: int, n: int, k: int, start: int)
    requires SysInv(z) && 0 < t < |z.calls| && z.k.tasks[t].state == Blocked
    requires 0 <= start < U32 && 0 <= n < WAIT_FOREVER && 0 <= k < WakesAfter(n)
    requires z.k.tick == (start + k) % U32 && z.k.tasks[t].wakeup == (start + n) % U32 != 0
    ensures |Tick(z.k).tasks| == |z.k.tasks| && (k + 1 == WakesAfter(n) <==> Tick(z.k).tasks[t].state != Blocked)
  {
    hide SysInv, KInv, Wf, Step, Tick;
    Ranges(z);
    SleepStep(z, TickIrq, t);
    ElapsedFirst(start, n, k + 1);
  }

  /** Counting a tick on the wrapping counter. */
  lemma TickUp(start: int, k: int, tick: int)
    requires tick == (start + k) % U32
    ensures (tick + 1) % U32 == (start + (k + 1)) % U32
  {
  }

  /** As long as the task sleeps the number of ticks stays below `WakesAfter(n)`. */
  lemma {:induction false} TicksBelow(y: Sys, acts: seq<Action>, t: int, n: int, k: int, start: int)
    requires SysInv(y) && 0 < t < |y.calls| && Run(y, acts) && Asleep(y, acts, t)
    requires 0 <= start < U32 && 0 <= n < WAIT_FOREVER && 0 <= k < WakesAfter(n)
    requires y.k.tick == (start + k) % U32 && y.k.tasks[t].wakeup == (start + n) % U32 != 0
    ensures k + Count(y, acts, IsTick) < WakesAfter(n)
    decreases |acts|
  {
    hide SysInv, KInv, Wf, Step;
    Ranges(y);
    if acts != [] {
      StepKeeps(y, acts[0]);
      SleepStep(y, acts[0], t);
      if acts[0].TickIrq? {
        TickUp(start, k, y.k.tick);
        ElapsedFirst(start, n, k + 1);
        TicksBelow(Step(y, acts[0]), acts[1..], t, n, k + 1, start);
      } else {
        TicksBelow(Step(y, acts[0]), acts[1..], t, n, k, start);
      }
    }
  }

  // ---------------------------------------------------------------- what the woken task finds

  /** Task `t` has been woken but has not yet continued the call it blocked in. */
  predicate Woke(y: Sys, t: int)
    requires 0 <= t < |y.calls| && |y.calls| == |y.k.tasks|
  {
    y.calls[t] != NoCall && y.k.tasks[t].state != Blocked
  }

  /** How a blocked task wakes: by a tick with the timeout flag set, or as the one task that a
      release selects, with the flag clear. */
  lemma WakeCause(y: Sys, a: Action, t: int)
    requires SysInv(y) && Legal(y, a) && 0 < t < |y.calls| && y.k.tasks[t].blockedOn != NULL
    ensures var z := Step(y, a);
      |z.calls| == |z.k.tasks| == |y.calls| && z.calls[t] == y.calls[t] &&
      (z.k.tasks[t].state != Blocked ==>
        && Woke(z, t)
        && (z.k.tasks[t].timeout <==> a.TickIrq?)
        && (!a.TickIrq? ==> Released(y, a) == t && ReleaseList(y, a) == y.k.tasks[t].blockedOn))
  {
    hide SysInv, KInv, Wf;
    Ranges(y);
    SleeperFacts(y, t);
    if a.TickIrq? {
      TickEffect(y.k);
    } else if a.Switch? {
      SwitchEffect(y.k);
    } else if a.DoDelay? {
      SleeperDelay(y, a, t);
    } else {
      hide Step;
      ActEffect(y, a);
      BlockedApart(y, a, t);
      WakeByRelease(y, a, t);
    }
  }

  lemma SleeperFacts(y: Sys, t: int)
    requires SysInv(y) && 0 < t < |y.calls| && y.k.tasks[t].blockedOn != NULL
    ensures |y.calls| == |y.k.tasks| && y.k.tasks[t].state == Blocked && y.calls[t] != NoCall
  {
    assert CallOk(y, t) && AgreeTask(y.k, t);
  }

  lemma SleeperDelay(y: Sys, a: Action, t: int)
    requires SysInv(y) && Legal(y, a) && a.DoDelay? && 0 < t < |y.calls| && y.k.tasks[t].state == Blocked
    ensures var z := Step(y, a);
      |z.calls| == |z.k.tasks| == |y.calls| && z.calls[t] == y.calls[t] && z.k.tasks[t].state == Blocked
  {
    StepCall(y, a, t);
  }

  lemma BlockedApart(y: Sys, a: Action, t: int)
    requires SysInv(y) && Legal(y, a) && 0 < t < |y.calls| && y.k.tasks[t].state == Blocked
    requires !a.TickIrq? && !a.Switch? && !a.DoDelay?
    ensures Act(y, a).ret == Blocks ==> t != y.k.current
    ensures a.Resume? ==> t != y.k.current
    ensures Released(y, a) == t ==> ReleaseList(y, a) == y.k.tasks[t].blockedOn
  {
    if Act(y, a).ret == Blocks {
      NeverBlocks(y, a);
    }
    if Released(y, a) != NULL {
      FreedWaits(y, a);
    }
  }

  lemma FreedWaits(y: Sys, a: Action)
    requires SysInv(y) && Legal(y, a) && Released(y, a) != NULL
    ensures y.k.tasks[Released(y, a)].blockedOn == ReleaseList(y, a) && y.k.tasks[Released(y, a)].state == Blocked
  {
    var l := ReleaseList(y, a);
    assert AgreeList(y.k, l) && AgreeTask(y.k, Released(y, a));
  }

  lemma WakeByRelease(y: Sys, a: Action, t: int)
    requires SysInv(y) && Legal(y, a) && Effective(y, a) && 0 < t < |y.calls| && y.k.tasks[t].state == Blocked
    requires !a.TickIrq? && !a.Switch? && !a.DoDelay?
    requires Act(y, a).ret == Blocks ==> t != y.k.current
    requires a.Resume? ==> t != y.k.current
    requires y.calls[t] != NoCall
    ensures var z := Step(y, a);
      |z.calls| == |z.k.tasks| == |y.calls| && z.calls[t] == y.calls[t] &&
      (z.k.tasks[t].state != Blocked ==> Woke(z, t) && !z.k.tasks[t].timeout && Released(y, a) == t)
  {
    hide SysInv, KInv, Wf;
    Ranges(y);
  }

  /** Nothing but its own continuation changes what a woken task will find. */
  lemma WokeStays(y: Sys, a: Action, t: int)
    requires SysInv(y) && Legal(y, a) && 0 < t < |y.calls| && Woke(y, t) && !(a.Resume? && y.k.current == t)
    ensures var z := Step(y, a);
      |z.calls| == |z.k.tasks| == |y.calls| && Woke(z, t)
      && z.calls[t] == y.calls[t] && z.k.tasks[t].timeout == y.k.tasks[t].timeout
  {
    hide SysInv, KInv, Wf;
    Ranges(y);
    if a.TickIrq? {
      TickEffect(y.k);
    } else if a.Switch? {
      SwitchEffect(y.k);
    } else if a.DoDelay? {
      WokeDelay(y, a, t);
    } else {
      hide Step;
      ActEffect(y, a);
      AwakeApart(y, a, t);
      WokeApart(y, a, t);
    }
  }

  lemma WokeDelay(y: Sys, a: Action, t: int)
    requires SysInv(y) && Legal(y, a) && a.DoDelay? && 0 < t < |y.calls| == |y.k.tasks| && Woke(y, t)
    ensures var z := Step(y, a);
      |z.calls| == |z.k.tasks| == |y.calls| && Woke(z, t)
      && z.calls[t] == y.calls[t] && z.k.tasks[t].timeout == y.k.tasks[t].timeout
  {
    hide KInv, Wf;
    Ranges(y);
  }

  lemma AwakeApart(y: Sys, a: Action, t: int)
    requires SysInv(y) && Legal(y, a) && 0 < t < |y.calls| && Woke(y, t) && !(a.Resume? && y.k.current == t)
    requires !a.TickIrq? && !a.Switch? && !a.DoDelay?
    ensures Act(y, a).ret == Blocks ==> t != y.k.current
    ensures Released(y, a) != t
  {
    if Act(y, a).ret == Blocks {
      NeverBlocks(y, a);
    }
    if Released(y, a) != NULL {
      FreedWaits(y, a);
    }
  }

  lemma WokeApart(y: Sys, a: Action, t: int)
    requires SysInv(y) && Legal(y, a) && Effective(y, a) && 0 < t < |y.calls| && Woke(y, t)
    requires !a.TickIrq? && !a.Switch? && !a.DoDelay? && Released(y, a) != t
    requires Act(y, a).ret == Blocks ==> t != y.k.current
    requires a.Resume? ==> t != y.k.current
    ensures var z := Step(y, a);
      |z.calls| == |z.k.tasks| == |y.calls| && Woke(z, t)
      && z.calls[t] == y.calls[t] && z.k.tasks[t].timeout == y.k.tasks[t].timeout
  {
    hide SysInv, KInv, Wf;
    Ranges(y);
  }

  /** The run contains no continuation of `t`'s call. */
  ghost predicate NotResumed(y: Sys, acts: seq<Action>, t: int)
    requires SysInv(y) && Run(y, acts)
    decreases |acts|
  {
    acts == [] || (
      && !(acts[0].Resume? && y.k.current == t)
      && (StepKeeps(y, acts[0]); NotResumed(Step(y, acts[0]), acts[1..], t)))
  }

  lemma {:induction false} WokeLater(y: Sys, acts: seq<Action>, t: int)
    requires SysInv(y) && Run(y, acts) && 0 < t < |y.calls| == |y.k.tasks| && Woke(y, t) && NotResumed(y, acts, t)
    ensures var z := Exec(y, acts);
      |z.calls| == |z.k.tasks| == |y.calls| && Woke(z, t)
      && z.calls[t] == y.calls[t] && z.k.tasks[t].timeout == y.k.tasks[t].timeout
    decreases |acts|
  {
    hide SysInv, KInv, Wf, Step;
    if acts != [] {
      StepKeeps(y, acts[0]);
      WokeStays(y, acts[0], t);
      WokeLater(Step(y, acts[0]), acts[1..], t);
    }
  }

  /** A blocked semaphore or mutex wait fails exactly if the tick woke it; otherwise exactly one
      release chose it and it succeeds. However long the woken task has to wait for the processor
      does not matter. */
  lemma WaitVerdict(y: Sys, a: Action, acts: seq<Action>, t: int)
    requires SysInv(y) && Legal(y, a) && 0 < t < |y.calls| && y.k.tasks[t].blockedOn != NULL
    requires y.calls[t].WaitSem? || y.calls[t].WaitMutex?
    requires SysInv(Step(y, a)) && |Step(y, a).k.tasks| == |y.calls| && Step(y, a).k.tasks[t].state != Blocked
    requires Run(Step(y, a), acts) && NotResumed(Step(y, a), acts, t)
    requires var z := Exec(Step(y, a), acts); Legal(z, Resume) && z.k.current == t
    ensures var z := Exec(Step(y, a), acts);
      Act(z, Resume).ret == Returns(if a.TickIrq? then Unavailable else Ok)
    ensures !a.TickIrq? ==> Released(y, a) == t && ReleaseList(y, a) == y.k.tasks[t].blockedOn
  {
    hide SysInv, KInv, Wf, Step;
    WakeCause(y, a, t);
    WokeLater(Step(y, a), acts, t);
    ResumeEffect(Exec(Step(y, a), acts));
  }

  // ---------------------------------------------------------------- deadlines of queue calls

  /** A queue call on an unusable queue waits exactly if its timeout is 1 to 2^31 ticks or its
      deadline is the value that means none; a longer finite timeout fails at once. */
  lemma QueueBlocksIff(y: Sys, a: Action)
    requires SysInv(y) && Legal(y, a) && (a.DoSend? || a.DoRecv?) && ReleaseList(y, a) == NULL
    ensures var n := if a.DoSend? then a.dtimeout else a.vtimeout;
      && (Act(y, a).ret == Blocks || Act(y, a).ret == Returns(Unavailable))
      && (Act(y, a).ret == Blocks <==> 1 <= n <= HALF || (n != 0 && DeadlineOf(y.k.tick, n) == 0))
  {
    hide SysInv, KInv, Wf;
    Ranges(y);
    var n := if a.DoSend? then a.dtimeout else a.vtimeout;
    var d := DeadlineOf(y.k.tick, n);
    ElapsedAtOnce(y.k.tick, n);
    if a.DoSend? {
      SendEffect(y.k, a.dq, a.ditem, n, d);
      StallEffect(y.k, y.k.queues[a.dq].swl, n, d);
    } else {
      RecvEffect(y.k, a.vq, n, d);
      StallEffect(y.k, y.k.queues[a.vq].rwl, n, d);
    }
  }

  lemma ElapsedAtOnce(tick: int, n: int)
    requires 0 <= tick < U32 && 0 <= n < U32
    ensures Elapsed(tick, (tick + n) % U32) <==> n == 0 || n > HALF
  {
    assert (tick - (tick + n) % U32) % U32 == (-n) % U32;
  }

  predicate QueueCall(c: Call, d: int) {
    (c.Sending? && c.sdeadline == d) || (c.Receiving? && c.rdeadline == d)
  }

  /** `t` stays inside the call `c` throughout the run, however often it is woken and blocks again. */
  ghost predicate InCall(y: Sys, acts: seq<Action>, t: int, c: Call)
    requires SysInv(y) && Run(y, acts) && 0 <= t < |y.calls|
    decreases |acts|
  {
    && y.calls[t] == c
    && (acts != [] ==> (StepKeeps(y, acts[0]); StepCall(y, acts[0], t); InCall(Step(y, acts[0]), acts[1..], t, c)))
  }

  /** A tick has timed the call of `t` out. */
  predicate Expired(y: Sys, t: int)
    requires 0 <= t < |y.k.tasks|
  {
    y.k.tasks[t].state != Blocked && y.k.tasks[t].timeout
  }

  lemma ExpiryStep(y: Sys, a: Action, t: int, d: int)
    requires SysInv(y) && Legal(y, a) && 0 < t < |y.calls| == |y.k.tasks| && QueueCall(y.calls[t], d) && d != 0
    requires !Expired(y, t)
    ensures var z := Step(y, a);
      |z.calls| == |z.k.tasks| == |y.calls| &&
      (z.calls[t] == y.calls[t] && Expired(z, t) ==> a.TickIrq? && Elapsed((y.k.tick + 1) % U32, d))
    ensures Step(y, a).k.tick == if a.TickIrq? then (y.k.tick + 1) % U32 else y.k.tick
  {
    assert CallOk(y, t) && AgreeTask(y.k, t);
    TickCount(y, a);
    if y.k.tasks[t].state == Blocked {
      hide KInv, Wf, Step;
      SleepStep(y, a, t);
      WakeCause(y, a, t);
    } else if a.Resume? && y.k.current == t {
      ResumedQueue(y, t);
    } else {
      hide KInv, Wf, Step;
      WokeStays(y, a, t);
    }
  }

  lemma TickCount(y: Sys, a: Action)
    requires SysInv(y) && Legal(y, a)
    ensures Step(y, a).k.tick == if a.TickIrq? then (y.k.tick + 1) % U32 else y.k.tick
  {
    hide SysInv, KInv, Wf;
    Ranges(y);
    if a.TickIrq? {
      TickEffect(y.k);
    } else if !a.Switch? && !a.DoDelay? {
      ActEffect(y, a);
    }
  }

  lemma ResumedQueue(y: Sys, t: int)
    requires SysInv(y) && Legal(y, Resume) && y.k.current == t && 0 < t < |y.calls|
    requires y.calls[t].Sending? || y.calls[t].Receiving?
    ensures var z := Step(y, Resume);
      |z.calls| == |z.k.tasks| == |y.calls| &&
      (z.calls[t] == y.calls[t] ==> z.k.tasks[t].state == Blocked)
  {
    StepCall(y, Resume, t);
    ActEffect(y, Resume);
  }

  lemma {:induction false} CallClock(y: Sys, acts: seq<Action>, t: int, c: Call, n: int, k: int, start: int)
    requires SysInv(y) && 0 < t < |y.calls| == |y.k.tasks| && Run(y, acts) && InCall(y, acts, t, c)
    requires 0 <= start < U32 && 1 <= n <= HALF && (start + n) % U32 != 0 && QueueCall(c, (start + n) % U32)
    requires 0 <= k && y.k.tick == (start + k) % U32 && (k < n ==> !Expired(y, t))
    ensures var z := Exec(y, acts); var m := k + Count(y, acts, IsTick);
      |z.calls| == |z.k.tasks| == |y.calls| && z.calls[t] == c
      && z.k.tick == (start + m) % U32 && (m < n ==> !Expired(z, t))
    decreases |acts|
  {
    hide SysInv, KInv, Wf, Step, QueueCall, Expired;
    if acts != [] {
      StepKeeps(y, acts[0]);
      ClockStep(y, acts[0], t, n, k, start);
      CallClock(Step(y, acts[0]), acts[1..], t, c, n, if acts[0].TickIrq? then k + 1 else k, start);
    }
  }

  lemma ClockStep(y: Sys, a: Action, t: int, n: int, k: int, start: int)
    requires SysInv(y) && Legal(y, a) && 0 < t < |y.calls| == |y.k.tasks|
    requires 0 <= start < U32 && 1 <= n <= HALF && 0 <= k
    requires QueueCall(y.calls[t], (start + n) % U32) && (start + n) % U32 != 0
    requires y.k.tick == (start + k) % U32 && (k < n ==> !Expired(y, t))
    ensures var z := Step(y, a); var k' := if a.TickIrq? then k + 1 else k;
      |z.calls| == |z.k.tasks| == |y.calls| && z.k.tick == (start + k') % U32
      && (k' < n && z.calls[t] == y.calls[t] ==> !Expired(z, t))
  {
    hide SysInv, KInv, Wf, Step;
    StepCall(y, a, t);
    TickCount(y, a);
    TickUp(start, k, y.k.tick);
    if (if a.TickIrq? then k + 1 else k) < n {
      ExpiryStep(y, a, t, (start + n) % U32);
      ElapsedIff(start, n, if a.TickIrq? then k + 1 else k);
    }
  }

  /** What the continuation of a queue call does `ticks` ticks after it was made with timeout `n`. A
      call that a tick has timed out fails, and none fails before its timeout has passed. Any other
      call on an unusable queue fails in the 2^31 ticks that follow the deadline and outside them
      blocks again, to its original deadline. */
  ghost predicate MeetsDeadline(z: Sys, n: int, ticks: int, d: int)
    requires SysInv(z) && Legal(z, Resume)
  {
    Ranges(z);
    var r, late := Act(z, Resume), (ticks - n) % U32 < HALF;
    var expired, stuck := z.k.tasks[z.k.current].timeout, ReleaseList(z, Resume) == NULL;
    && (r.ret == Returns(Unavailable) <==> expired || (stuck && late))
    && (r.ret == Returns(Unavailable) ==> n <= ticks)
    && (r.ret == Blocks <==> !expired && stuck && !late)
    && (r.ret == Blocks ==> |r.s.tasks| == |z.k.tasks| && r.s.tasks[z.k.current].wakeup == d)
  }

  lemma ClockDecides(z: Sys, n: int, ticks: int, start: int)
    requires SysInv(z) && Legal(z, Resume) && 0 <= start < U32 && 1 <= n <= HALF && 0 <= ticks
    requires (start + n) % U32 != 0 && QueueCall(z.calls[z.k.current], (start + n) % U32)
    requires z.k.tick == (start + ticks) % U32 && (ticks < n ==> !Expired(z, z.k.current))
    ensures MeetsDeadline(z, n, ticks, (start + n) % U32)
  {
    hide SysInv, KInv, Wf, Act, ReleaseList;
    ResumeDecides(z, (start + n) % U32);
    ElapsedIff(start, n, ticks);
  }

  /** A queue call with a finite timeout of 1 to 2^31 ticks meets its deadline, no matter how often
      it is woken and robbed in between and wherever the counter wraps. */
  lemma QueueDeadline(y: Sys, a: Action, acts: seq<Action>, n: int)
    requires SysInv(y) && Legal(y, a) && (a.DoSend? || a.DoRecv?) && Act(y, a).ret == Blocks
    requires n == (if a.DoSend? then a.dtimeout else a.vtimeout) && 1 <= n <= HALF && (y.k.tick + n) % U32 != 0
    requires SysInv(Step(y, a)) && y.k.current < |Step(y, a).calls| && Run(Step(y, a), acts)
    requires InCall(Step(y, a), acts, y.k.current, CallOf(y, a))
    requires Legal(Exec(Step(y, a), acts), Resume) && Exec(Step(y, a), acts).k.current == y.k.current
    ensures MeetsDeadline(Exec(Step(y, a), acts), n, Count(Step(y, a), acts, IsTick), (y.k.tick + n) % U32)
  {
    hide SysInv, KInv, Wf, Step, Act, MeetsDeadline, Exec, Count;
    Ranges(y);
    FirstBlock(y, a);
    CallClock(Step(y, a), acts, y.k.current, CallOf(y, a), n, 0, y.k.tick);
    ClockDecides(Exec(Step(y, a), acts), n, Count(Step(y, a), acts, IsTick), y.k.tick);
  }

  lemma FirstBlock(y: Sys, a: Action)
    requires SysInv(y) && Legal(y, a) && (a.DoSend? || a.DoRecv?) && Act(y, a).ret == Blocks
    ensures var x := Step(y, a);
      |x.calls| == |x.k.tasks| == |y.calls| && 0 < y.k.current < |x.calls|
      && x.k.tasks[y.k.current].state == Blocked && x.k.tick == y.k.tick
  {
    StepCall(y, a, y.k.current);
    ActEffect(y, a);
  }

  /** What a resumed queue call does next. */
  lemma ResumeDecides(z: Sys, d: int)
    requires SysInv(z) && Legal(z, Resume) && QueueCall(z.calls[z.k.current], d) && d != 0
    ensures var r := Act(z, Resume); var late := Elapsed(z.k.tick, d); var expired := z.k.tasks[z.k.current].timeout;
      && (r.ret == Returns(Unavailable) <==> expired || (ReleaseList(z, Resume) == NULL && late))
      && (r.ret == Blocks <==> !expired && ReleaseList(z, Resume) == NULL && !late)
      && (r.ret == Blocks ==> |r.s.tasks| == |z.k.tasks| && r.s.tasks[z.k.current].wakeup == d)
  {
    hide SysInv, KInv, Wf;
    Ranges(z);
    var c := z.calls[z.k.current];
    if z.k.tasks[z.k.current].timeout {
      ResumeEffect(z);
    } else if c.Sending? {
      SendEffect(z.k, c.sq, c.item, c.stimeout, c.sdeadline);
      StallEffect(z.k, z.k.queues[c.sq].swl, c.stimeout, c.sdeadline);
    } else {
      RecvEffect(z.k, c.rq, c.rtimeout, c.rdeadline);
      StallEffect(z.k, z.k.queues[c.rq].rwl, c.rtimeout, c.rdeadline);
    }
  }

  // ---------------------------------------------------------------- no deadline

  /** A task that has no deadline and waits for no primitive is not woken by anything. */
  lemma HangStep(y: Sys, a: Action, t: int)
    requires SysInv(y) && Legal(y, a) && 0 < t < |y.calls| == |y.k.tasks| && Hung(y.k, t)
    ensures var z := Step(y, a); |z.calls| == |z.k.tasks| == |y.calls| && Hung(z.k, t)
  {
    hide SysInv, KInv, Wf;
    SleepStep(y, a, t);
    if !a.TickIrq? {
      DelayedStep(y, a, t);
    }
  }

  /** Nothing but a tick ends a delay. */
  lemma DelayedStep(y: Sys, a: Action, t: int)
    requires SysInv(y) && Legal(y, a) && !a.TickIrq? && 0 < t < |y.calls| == |y.k.tasks|
    requires y.k.tasks[t].state == Blocked && y.k.tasks[t].blockedOn == NULL
    ensures var z := Step(y, a); |z.k.tasks| == |y.calls| && z.k.tasks[t].state == Blocked
  {
    hide SysInv, KInv, Wf;
    Ranges(y);
    if a.Switch? {
      SwitchEffect(y.k);
    } else if a.DoDelay? {
      SleeperDelay(y, a, t);
    } else {
      hide Act;
      DelayedEffect(y, a, t);
    }
  }

  lemma DelayedEffect(y: Sys, a: Action, t: int)
    requires SysInv(y) && Legal(y, a) && 0 < t < |y.calls| == |y.k.tasks|
    requires y.k.tasks[t].state == Blocked && y.k.tasks[t].blockedOn == NULL
    requires !a.TickIrq? && !a.Switch? && !a.DoDelay?
    ensures |Act(y, a).s.tasks| == |y.k.tasks| && Act(y, a).s.tasks[t].state == Blocked
  {
    hide SysInv, KInv, Wf;
    Ranges(y);
    ActEffect(y, a);
    BlockedApart(y, a, t);
  }

  predicate Hung(s: State, t: int)
    requires 0 <= t < |s.tasks|
  {
    s.tasks[t].state == Blocked && s.tasks[t].blockedOn == NULL && s.tasks[t].wakeup == 0
  }

  /** A delay whose deadline is tick 0 never ends, whatever the rest of the system does. */
  lemma {:induction false} DelayHangs(y: Sys, acts: seq<Action>, t: int)
    requires SysInv(y) && Run(y, acts) && 0 < t < |y.calls| == |y.k.tasks| && Hung(y.k, t)
    ensures var z := Exec(y, acts); |z.k.tasks| == |y.k.tasks| && Hung(z.k, t)
    decreases |acts|
  {
    hide SysInv, KInv, Wf, Step, Hung;
    if acts != [] {
      StepKeeps(y, acts[0]);
      HangStep(y, acts[0], t);
      DelayHangs(Step(y, acts[0]), acts[1..], t);
    }
  }

  /** `t` waits in a primitive without a deadline, or a release has woken it from such a wait. */
  predicate Untimed(y: Sys, t: int)
    requires 0 <= t < |y.calls| == |y.k.tasks|
  {
    && y.calls[t] != NoCall
    && (if y.k.tasks[t].state == Blocked then y.k.tasks[t].blockedOn != NULL && y.k.tasks[t].wakeup == 0
        else !y.k.tasks[t].timeout)
    && (y.calls[t].Sending? ==> y.calls[t].sdeadline == 0)
    && (y.calls[t].Receiving? ==> y.calls[t].rdeadline == 0)
  }

  lemma UntimedStep(y: Sys, a: Action, t: int)
    requires SysInv(y) && Legal(y, a) && 0 < t < |y.calls| == |y.k.tasks| && Untimed(y, t)
    ensures var z := Step(y, a);
      |z.calls| == |z.k.tasks| == |y.calls| && (z.calls[t] == y.calls[t] ==> Untimed(z, t))
  {
    StepKeeps(y, a);
    BlockedInCall(Step(y, a), t);
    hide SysInv, KInv, Wf, Step;
    if y.k.tasks[t].state == Blocked {
      SleepStep(y, a, t);
      WakeCause(y, a, t);
    } else if a.Resume? && y.k.current == t {
      StepCall(y, a, t);
      if Step(y, a).calls[t] == y.calls[t] {
        SameCallQueue(y, t);
        ResumedQueue(y, t);
      }
    } else {
      WokeStays(y, a, t);
    }
  }

  /** A task blocked inside a call sits in a wait list, with the deadline of a queue call. */
  lemma BlockedInCall(z: Sys, t: int)
    requires SysInv(z) && 0 <= t < |z.calls| == |z.k.tasks|
    ensures z.calls[t] != NoCall && z.k.tasks[t].state == Blocked ==>
      z.k.tasks[t].blockedOn != NULL && CallDeadline(z.k.tasks[t], z.calls[t])
  {
    assert CallOk(z, t);
  }

  /** Only a queue call can go on after it has been resumed. */
  lemma SameCallQueue(y: Sys, t: int)
    requires SysInv(y) && Legal(y, Resume) && y.k.current == t && 0 < t < |Step(y, Resume).calls| == |y.calls|
    requires Step(y, Resume).calls[t] == y.calls[t]
    ensures y.calls[t].Sending? || y.calls[t].Receiving?
  {
  }

  lemma {:induction false} UntimedStays(y: Sys, acts: seq<Action>, t: int)
    requires SysInv(y) && Run(y, acts) && 0 < t < |y.calls| == |y.k.tasks| && Untimed(y, t)
    requires InCall(y, acts, t, y.calls[t])
    ensures var z := Exec(y, acts); |z.calls| == |z.k.tasks| == |y.calls| && Untimed(z, t)
    decreases |acts|
  {
    hide SysInv, KInv, Wf, Step, Untimed;
    if acts != [] {
      StepKeeps(y, acts[0]);
      UntimedStep(y, acts[0], t);
      UntimedStays(Step(y, acts[0]), acts[1..], t);
    }
  }

  lemma UntimedResume(z: Sys, t: int)
    requires SysInv(z) && Legal(z, Resume) && z.k.current == t && Untimed(z, t) && 0 < t
    ensures Act(z, Resume).ret != Returns(Unavailable)
  {
    hide SysInv, KInv, Wf;
    Ranges(z);
    var c := z.calls[t];
    if c.WaitSem? || c.WaitMutex? {
      ResumeEffect(z);
    } else if c.Sending? {
      SendEffect(z.k, c.sq, c.item, c.stimeout, c.sdeadline);
      StallEffect(z.k, z.k.queues[c.sq].swl, c.stimeout, c.sdeadline);
    } else {
      RecvEffect(z.k, c.rq, c.rtimeout, c.rdeadline);
      StallEffect(z.k, z.k.queues[c.rq].rwl, c.rtimeout, c.rdeadline);
    }
  }

  /** A block has no deadline exactly if it asks to wait forever or its deadline would be tick 0.
      Then a delay never ends, and a call on a primitive never reports a timeout. */
  lemma NeverTimesOut(y: Sys, acts: seq<Action>, t: int, n: int)
    requires SysInv(y) && 0 < t < |y.calls| == |y.k.tasks| && 0 <= n < U32 && 0 <= y.k.tick < U32 && Run(y, acts)
    requires y.k.tasks[t].state == Blocked && y.k.tasks[t].wakeup == DeadlineOf(y.k.tick, n)
    ensures y.k.tasks[t].wakeup == 0 <==> n == WAIT_FOREVER || y.k.tick + n == U32 || y.k.tick + n == 0
    ensures var z := Exec(y, acts);
      y.k.tasks[t].wakeup == 0 && y.k.tasks[t].blockedOn == NULL ==> |z.k.tasks| == |y.k.tasks| && Hung(z.k, t)
    ensures var z := Exec(y, acts);
      y.k.tasks[t].wakeup == 0 && y.k.tasks[t].blockedOn != NULL && InCall(y, acts, t, y.calls[t]) ==>
        && |z.calls| == |z.k.tasks| == |y.calls| && Untimed(z, t)
        && (Legal(z, Resume) && z.k.current == t ==> Act(z, Resume).ret != Returns(Unavailable))
  {
    BlockedOnCall(y, t);
    hide *;
    if DeadlineOf(y.k.tick, n) == 0 && y.k.tasks[t].blockedOn == NULL {
      HungNow(y.k, t);
      DelayHangs(y, acts, t);
    }
    if DeadlineOf(y.k.tick, n) == 0 && y.k.tasks[t].blockedOn != NULL && InCall(y, acts, t, y.calls[t]) {
      UntimedStays(y, acts, t);
      UntimedReturns(Exec(y, acts), t);
    }
    NoDeadline(y.k.tick, n);
  }

  lemma NoDeadline(tick: int, n: int)
    requires 0 <= tick < U32 && 0 <= n < U32
    ensures DeadlineOf(tick, n) == 0 <==> n == WAIT_FOREVER || tick + n == U32 || tick + n == 0
  {
  }

  lemma HungNow(s: State, t: int)
    requires 0 <= t < |s.tasks| && s.tasks[t].state == Blocked && s.tasks[t].blockedOn == NULL && s.tasks[t].wakeup == 0
    ensures Hung(s, t)
  {
  }

  lemma UntimedReturns(z: Sys, t: int)
    requires SysInv(z) && 0 < t < |z.calls| == |z.k.tasks| && Untimed(z, t)
    ensures Legal(z, Resume) && z.k.current == t ==> Act(z, Resume).ret != Returns(Unavailable)
  {
    hide *;
    if Legal(z, Resume) && z.k.current == t {
      UntimedResume(z, t);
    }
  }

  lemma BlockedOnCall(y: Sys, t: int)
    requires SysInv(y) && 0 <= t < |y.calls| == |y.k.tasks| && y.k.tasks[t].state == Blocked
    ensures y.k.tasks[t].wakeup == 0 && y.k.tasks[t].blockedOn != NULL ==> Untimed(y, t)
  {
    assert CallOk(y, t);
  }
}
