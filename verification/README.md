# KoRTOS kernel core: a verified model

This project models the portable core of the KoRTOS kernel (`kernel/kernel.c` with the data types of
`kernel/kortos.h`) and proves what the kernel's documentation promises about it: priority inheritance,
mutual exclusion, timeouts on a wrapping tick counter, message queues, semaphores and the scheduler.

## How it is built

* **Values and atomic regions.** `Types` holds the kernel's records as values; a pointer is an index into
  a table and the null pointer is `NULL`. `Spec` gives each region between `port_enter_critical` and
  `port_exit_critical` as a function on states; a blocking call is cut where `waitlist_block_current`
  gives up the processor. The step from a wait list to the mutex around it (an `offsetof` cast in the
  source) is a back-pointer `home` in the list.
* **The kernel in place.** `Blocks` and `Kernel` are the imperative kernel: wait lists as shifted arrays,
  queues as byte ring buffers with `head`, `tail` and `count`, `user_tasks` as an array of records updated
  in place, the loops of the source as loops. Each method is proved to do what its `Spec` function says.
  `Machine.PlayRun` shows that the tables, from power-up through any run, are what the run semantics says,
  so every theorem about runs is a theorem about them.
* **Runs.** `Runs` lets tasks, ticks, device interrupts and the pended context switch interleave freely. A
  task acts only while no switch is pended, because PendSV fires when a critical section is left. A blocked
  call is remembered per task and continued by `Resume`. `SysInv` is kept by every action (`Runs`,
  `Effects`); `Startup` shows that it holds at power-up.
* **Calls.** `Answers` says for every call what it returns and what it leaves behind, in the fields before the
  call; so the functions of `Spec` are not only computed right by the tables but do the right thing.
* **Theorems over runs.** `Inheritance`, `Handoff` and `PriorityRuns` (priorities, ownership), `Preemption`,
  `TimeRuns` and `DelayRuns` (ticks, deadlines), `CreatedRuns` (what the create calls' arguments mean),
  `LockRuns` (what a lock call's return means), `QueueRuns`, `SemRuns`, `OrderRuns` (wait-list order),
  `RoundRobin` (scheduler).
* **Runs that break a promise.** `StaleBoost`, `PriorityDrop`, `TimeScenes` and `SemScenes` start at power-up
  and end where the documentation is wrong; `Scenes` has their common steps.

`dafny verify dfyconfig.toml` checks the whole project.

`OS_MAX_TASKS`, `OS_MAX_MTX_PER_TASK` and `OS_PRIORITY_LOWEST` are symbolic within the ranges that the
8-bit fields allow. Smaller numbers are stronger priorities throughout.

## Hypotheses

* A call of `os_mutex_lock` that gets the mutex, at once or after waiting, is made by a task that owns fewer
  than `OS_MAX_MTX_PER_TASK` mutexes; the source does not check this (lines 184 and 271). A call that is
  refused needs no room. That the handoff at line 271 then never overflows the array is proved.
* The idle task makes no kernel calls. Primitives are created once, before the kernel starts.
* The recomputation at line 224, which runs outside the critical section, is one atomic step.
* That every priority is exactly the inherited one, and preemption with it, holds along all runs in which no
  tick times out a task waiting for a mutex, deadlocked or not. For runs with such time-outs the exact
  conditions are proved, for each action (`PriorityRuns.ExactAfterIff`) and for preemption over whole runs
  (`Preemption.RunTop`). None of this, nor that no owner is ever weaker than its waiters, needs the wait-for
  graph to be acyclic.

## Where the code differs from its documentation

* A boost is not always released. The interface says that a lock call that times out releases its boost
  (kernel/kortos.h:197-198) and the unlock path without waiters assumes that there is none left
  (kernel/kernel.c:286-287). The tick takes a timed-out waiter off the list, but the owner is recomputed
  only when that task runs; if the owner unlocks before, it keeps the boost. `StaleBoost.BoostOutlivesTimeout`
  is such a run from power-up. The exact conditions: `PriorityRuns.TickExactIff` says which tasks a tick
  leaves too strong, `PriorityRuns.TimeoutReleasesIff` when the return of the timed-out call puts that right,
  `PriorityRuns.UnlockUndoesBoostIff` when the unlock has, and `PriorityRuns.RunStaleIff` for how long a task
  stays too strong along a run.
* A stronger task can be ready with no switch pended (docs/kernel.md:27). The recomputation at line 224 can
  lower the running task itself, after a handoff whose strongest waiter has timed out since, and does not
  yield. `PriorityDrop.StrongerTaskLeftReady` is such a run from power-up, without any deadlock;
  `Preemption.TopKeptIff` and `Preemption.RunTop` are the exact condition.
* A delay of 0 at tick 0, and any finite timeout whose deadline is tick 0, never expires
  (`TimeScenes.ZeroDelayHangs` two actions after power-up, `TimeRuns.NeverTimesOut` in general).
* A delay, semaphore or lock timeout above 2^31 + 1 ticks expires on the next tick and a delay of 0 lasts
  until the next tick (`TimeRuns.ExactWake`); a queue timeout above 2^31 ticks fails at once
  (`TimeScenes.LongTimeoutFails`, `TimeRuns.QueueBlocksIff`).
* A queue call whose woken task runs again only 2^31 ticks or more after its deadline may block again
  (`TimeScenes.LateSecondBlock`; `TimeRuns.QueueDeadline` has the exact window).
* The 8-bit semaphore count wraps to 0 on a post at count 255 with nobody waiting: from a count of 0 on the
  256th post that nobody takes up (`SemScenes.PostsWrap`); conservation accounts for it (`SemRuns.RunConserves`).
* `OS_ERR_WAITLIST_FULL` is documented for every blocking call but cannot occur (`Runs.ActKeeps`).

## Model

| member | source | states |
|---|---|---|
| Inheritance.DonateReaches | kernel/kernel.c:725-747 | the local donation walk is transitive and the hop guard never cuts it short: with at least as many hops as tasks it strengthens exactly the tasks reachable along owner edges, cycles included, and those to at least the donated priority |
| Inheritance.EarlyVisit | kernel/kernel.c:729-730 | by pigeonhole every task on a chain of owners is met within as many hops as there are tasks |
| Inheritance.AcyclicEnds | kernel/kernel.c:756-757 | an acyclic chain of owners ends before the hop guard does |
| Inheritance.DonateCovers | kernel/kernel.c:212-214 | a donation followed by the new wait edge leaves no owner weaker than a waiter, also when the edge closes a cycle |
| Inheritance.RecomputeCovers | kernel/kernel.c:754-787 | a recomputation never makes an owner weaker than a waiter nor weaker than its base |
| Inheritance.DonateKeepsExact | kernel/kernel.c:725-747 | a donation keeps the equation (minimum of base and waiters) of every task that satisfies it |
| Inheritance.DonateExactIff | kernel/kernel.c:725-747 | after a donation and its wait edge a task satisfies its equation if and only if it did before, or the donation reaches it and it is not stronger than the donor |
| Inheritance.RecomputeClears | kernel/kernel.c:749-787 | after a recomputation whose walk reaches the end of its chain or a cycle a task satisfies its equation if and only if it did before or lies on the chain; nobody off the chain is touched |
| Inheritance.EndsOrLoops | kernel/kernel.c:756-757 | by pigeonhole the hop guard stops the walk only past the end of a chain or on a cycle |
| Inheritance.CycleExact | kernel/kernel.c:756-757 | every task of a deadlock cycle satisfies its equation, so the walk that the guard cuts off there has nothing left to do |
| Inheritance.RecomputeBacked | kernel/kernel.c:754-787 | the task at the end of the chain is left at least as strong as p if and only if some task on the chain has a base, or a waiter from outside the chain, at least as strong as p |
| Inheritance.RecomputeNoOp | kernel/kernel.c:754-787 | where every equation holds a recomputation changes nothing, cycles included |
| Inheritance.ExactIsTransitive | kernel/kernel.c:749-753 | in an acyclic graph the local equations hold for all tasks if and only if each priority is the strongest base priority among the task and all tasks transitively blocked on it: the solution is unique |
| Inheritance.DonateAttains | kernel/kernel.c:725-747 | a donation and its wait edge leave every priority the base priority of a task that depends on it, also when the edge closes a cycle |
| Inheritance.EdgeAcyclic | kernel/kernel.c:722-724 | a new wait edge keeps the graph acyclic if and only if its target does not already depend on its source |
| Invariants.AgreementIff | kernel/kernel.c:638-646 | a task is in a wait list, exactly once, if and only if it is blocked and names that list as `blocked_waitlist` |
| Invariants.OwnershipIff | kernel/kernel.c:181-196 | a task owns a mutex if and only if the mutex is, exactly once, in its owned array; locked means owned; nobody waits for a free mutex and no owner for its own |
| Invariants.ListHasRoom | kernel/kernel.c:631-636 | a wait list always has room, so the full-list error is unreachable |
| Invariants.GraphConsistent | kernel/kernel.c:762-774 | the wait-for graph read off the owners' mutexes equals the one read off the waiters' records |
| Invariants.EdgeOf | kernel/kernel.c:741-743 | the wait list of a task blocked on a mutex lies inside that mutex, so the cast from list to mutex is sound where it is used |
| Invariants.AlwaysPickable | kernel/kernel.c:667-689 | a release of a non-empty list always finds an index |
| Preserve.LockBlockKeeps | kernel/kernel.c:211-214 | donate-then-block keeps agreement, ownership, priority ranges and never-under-boosted |
| Preserve.TickKeeps | kernel/kernel.c:487-494 | a tick, with any number of time-outs, keeps the kernel invariant |
| Preserve.DispatchKeeps | kernel/kernel.c:509-539 | a dispatch keeps the kernel invariant and leaves the wait-for graph and all priorities alone |
| Handoff.HandoffShape | kernel/kernel.c:262-283 | everything a handoff changes besides priorities: the chosen waiter is off the list, ready and owner, the caller is not, all else is as before |
| Handoff.HandoffExact | kernel/kernel.c:262-280 | after a handoff both parties satisfy their equations and no other priority has moved |
| Handoff.HandoffKeeps | kernel/kernel.c:236-294 | a handoff keeps the kernel invariant |
| Handoff.HandoffAcyclic | kernel/kernel.c:262-280 | a handoff keeps the wait-for graph acyclic |
| Handoff.HandoffKeepsNewOwner | kernel/kernel.c:276-279 | if the new owner was not stale its priority does not move although it inherits all remaining waiters |
| Handoff.ChosenStrongest | kernel/kernel.c:674-687 | a PRIORITY release selects a waiter at least as strong as every other and the first of the equally strong |
| Runs.ActKeeps | kernel/kernel.c:74-539 | every action of a task, a device, the tick or PendSV keeps the kernel invariant, and none returns the full-list error |
| Effects.StepKeeps | kernel/kernel.c:629-656 | every action keeps the run invariant: each blocked task sits in the list of the call it made, with that call's original deadline |
| Effects.StallEffect | kernel/kernel.c:333-355 | a queue call on an unusable queue gives up exactly if it may not wait or its deadline has passed; otherwise it blocks with exactly its original deadline |
| Answers.PendsIff | kernel/kernel.c:74-482 | apart from the tick and the switch itself an action asks for a switch if and only if it puts its caller to sleep or wakes somebody; a call that succeeds or is refused at once lets its caller go on |
| Answers.DelayAnswer | kernel/kernel.c:74-92 | a delay puts its caller and nobody else to sleep, with no deadline if and only if it asks for none by OS_WAIT_FOREVER, otherwise with the tick n on |
| Answers.WaitAnswer | kernel/kernel.c:105-133 | a semaphore wait succeeds if and only if there is a unit, which is all it takes; without one it is refused, leaving no trace, if and only if its timeout is 0, and blocks otherwise |
| Answers.PostAnswer | kernel/kernel.c:143-162 | a post always succeeds: it wakes one of the waiters and leaves the count, or counts up on eight bits and touches nothing else |
| Answers.LockAnswer | kernel/kernel.c:174-221 | a lock call returns OS_OK if and only if the mutex is free, the recursive-lock error if and only if its caller owns it, OS_ERR_UNAVAILABLE if and only if another task does and the timeout is 0, and blocks otherwise; both refusals leave no trace |
| Answers.UnlockAnswer | kernel/kernel.c:236-294 | an unlock is refused, leaving no trace, if and only if its caller is not the owner; the mutex goes to a waiter, still locked, or is free if there is none and then nothing else changes |
| Answers.SendAnswer | kernel/kernel.c:317-391 | a send succeeds if and only if there is room, and on a full queue is refused, leaving no trace, if and only if its timeout is 0 or out of reach of the deadline test; it blocks otherwise |
| Answers.RecvAnswer | kernel/kernel.c:403-477 | a receive hands out the oldest item if there is one, and on an empty queue is refused, leaving no trace, if and only if its timeout is 0 or out of reach of the deadline test; it blocks otherwise |
| Answers.IsrPutAnswer | kernel/kernel.c:393-401 | a send from an interrupt answers OS_OK if and only if there is room; otherwise OS_ERR_UNAVAILABLE, and all that changes is the drop counter, by one on 32 bits |
| Answers.IsrGetAnswer | kernel/kernel.c:479-482 | a receive from an interrupt hands out the oldest item, or answers OS_ERR_UNAVAILABLE for an empty queue and leaves no trace |
| Answers.ResumedWait | kernel/kernel.c:223-233 | a semaphore or lock call that has blocked answers by the timeout flag and changes nothing but, for a mutex, priorities |
| Answers.ResumedSend | kernel/kernel.c:357-373 | a send that has blocked is refused without a trace if it was timed out; otherwise it succeeds if and only if there is room, is refused if its deadline has passed, and blocks again if not |
| Answers.ResumedRecv | kernel/kernel.c:443-459 | a receive that has blocked, likewise |
| Answers.BlockedRecord | kernel/kernel.c:638-656 | a call that blocks leaves its caller at the end of the primitive's list, with the tick n on as its deadline or none for OS_WAIT_FOREVER; a queue call that blocks again keeps its first deadline |
| Answers.BlockedTables | kernel/kernel.c:629-656 | a call that blocks takes and gives nothing: counts, contents, owners and owned mutexes are as before |
| Answers.ReleasedRecord | kernel/kernel.c:690-701 | a woken task is ready, waits for nothing, has no deadline and is not marked as timed out, and exactly its entry has left the list; everybody else waits as before |
| Answers.TickRecord | kernel/kernel.c:487-494 | a tick counts up on 32 bits, asks for a switch and wakes exactly the tasks at or at most 2^31 ticks past their deadline; those leave their lists and are marked as timed out unless they were delayed; nothing else changes |
| Answers.SwitchRecord | kernel/kernel.c:509-539 | a dispatch takes the running task off the processor, puts one on it that is able to run, and changes no other field of any task |
| Answers.Constants | kernel/kernel.c:38-539 | no action changes configuration, base priorities, wiring, capacities, item sizes or policies; only the tick moves the counter, only a dispatch the processor, and only lock and unlock calls owners, owned mutexes and effective priorities |
| Answers.OwnCallsOnly | kernel/kernel.c:105-482 | semaphore counts change by waits and posts only, queues by sends and receives only |
| PriorityRuns.StaleOnlyByTick | kernel/kernel.c:583-612 | a task that satisfied its equation stops doing so only by a tick that times out a task waiting on one of its mutexes |
| PriorityRuns.LockExactIff | kernel/kernel.c:208-214 | after a blocking lock call a task satisfies its equation if and only if it did before, or it is on the owner's chain and not stronger than the caller |
| PriorityRuns.RecomputeExact | kernel/kernel.c:749-787 | on states: after a recomputation a task satisfies its equation if and only if it did before or lies on the chain of owners, cycles included |
| PriorityRuns.ResumeExactIff | kernel/kernel.c:223-225 | after a lock call has been resumed a task satisfies its equation if and only if it did before, or the mutex has an owner by then whose chain leads to it |
| PriorityRuns.TickExactIff | kernel/kernel.c:583-612 | after a tick a task satisfies its equation if and only if it runs at its base or a waiter of its priority is not timed out by that tick |
| PriorityRuns.ExactAfterIff | kernel/kernel.c:74-539 | for every action: a tick leaves exact precisely the tasks of which something survives, every other action those that were exact and those that it clears |
| PriorityRuns.TimeoutReleasesIff | kernel/kortos.h:197-198 | when a timed-out lock call returns, a task is as strong as it should be if and only if its base or a waiter stood behind its priority already, or the mutex has an owner by then whose chain leads to it |
| PriorityRuns.RunStaleIff | kernel/kernel.c:286-290 | along a run a task that is too strong stays so throughout if and only if no action of the run clears it |
| PriorityRuns.UnlockExact | kernel/kernel.c:250-283 | after a handoff a task satisfies its equation if and only if it is one of the two parties or did before |
| PriorityRuns.UnlockUndoesBoostIff | kernel/kernel.c:262-290 | an unlock leaves its caller exactly as strong as it should be if and only if somebody waited for the mutex, or the caller ran at its base priority, or a task of its priority waits for another of its mutexes |
| PriorityRuns.AcyclicKept | kernel/kernel.c:195-214 | an action keeps the wait-for graph acyclic if and only if it is not a blocking lock call on a mutex whose owner already depends on the caller |
| PriorityRuns.RunAcyclicIff | kernel/kernel.c:195-214 | a run stays free of deadlock throughout if and only if none of its lock calls closes a cycle |
| PriorityRuns.RunStaysExact | kernel/kernel.c:725-787 | along runs without timed-out lock calls, deadlocked or not, every task keeps satisfying its equation |
| PriorityRuns.ExactIffTransitive | kernel/kernel.c:722-753 | in an acyclic state nobody is stale if and only if every effective priority is the strongest base priority among the task and all tasks transitively blocked on mutexes it owns |
| PriorityRuns.InheritExact | kernel/kernel.c:749-753 | in any state, cyclic or not, transitive inheritance implies that nobody is stale |
| PriorityRuns.RunInheritance | kernel/kernel.c:722-787 | transitive inheritance is kept along every run without timed-out lock calls, through deadlocks too |
| Preemption.SwitchStrongest | kernel/kernel.c:515-538 | a dispatch never selects a task weaker than one that is able to run, nor the idle task while there is one |
| Preemption.BoundedInversion | kernel/kernel.c:509-539 | while a task waits along a chain of owners that ends in a task able to run, no dispatch selects a task weaker than the waiting one |
| Preemption.ResumeStrength | kernel/kernel.c:223-225 | the recomputation on resume leaves the running task at least as strong as p if and only if it does not reach that task or finds a claim of that strength on the way, cycles included |
| Preemption.ResumeKeepsCurrent | kernel/kernel.c:223-225 | it leaves the running task's priority alone if and only if that priority is backed, and after a handoff leaves every priority alone if and only if the new owner's base or a waiter still stands behind its own |
| Preemption.TopKeptIff | kernel/kernel.c:223-225 | from a state in which the running task is top or a switch is pended, an action leads to such a state if and only if it is no resumed lock call that leaves the running task weaker than a ready one |
| Preemption.RunPreempts | docs/kernel.md:24-27 | after every action of a run without timed-out lock calls, deadlocked or not, the running task is at least as strong as every ready one or a switch is pended |
| Preemption.RunTop | docs/kernel.md:24-27 | in any run, that is so after every action if and only if no resumed lock call of the run leaves the running task weaker than a ready one |
| PriorityRuns.OwnerChanges | kernel/kernel.c:181-193 | ownership changes only by the running task taking a free mutex nobody waits for, or by the owner unlocking, to nobody or to the selected waiter: no third task can barge in |
| LockRuns.RunGranted | docs/kernel.md:167-167 | in every state of a run a task woken inside a lock call owns the mutex if and only if no tick woke it: what a handoff gives nobody takes before the new owner runs |
| LockRuns.ResumeOwns | docs/api.md:44-44 | a lock call that has blocked returns OS_OK if and only if its caller owns the mutex then, OS_ERR_UNAVAILABLE otherwise |
| LockRuns.LockOwns | docs/api.md:44-44 | a lock call that returns at once leaves its caller the owner if and only if it returns OS_OK or the recursive-lock error, and the latter if and only if the caller was the owner before |
| TimeRuns.ElapsedFirst | kernel/kernel.c:583-585 | counting ticks from a block, the signed 32-bit comparison succeeds for the first time at `WakesAfter(n)`, for every start of the counter |
| TimeRuns.ExactWake | kernel/kernel.c:575-614 | a task blocked with finite timeout n and not released is woken by the tick numbered n (1 to 2^31 + 1; the next tick otherwise), not earlier and not later, wherever the counter wraps |
| DelayRuns.DelayEnds | kernel/kernel.c:74-92 | from the call on: a finite delay whose deadline is not tick 0 lasts until the tick numbered `WakesAfter(n)` and ends with it, whatever else happens |
| DelayRuns.ForeverDelays | kernel/kernel.c:82-82 | a delay of OS_WAIT_FOREVER never ends, in any run |
| DelayRuns.WaitTimesOut | kernel/kernel.c:642-642 | from the call on: a semaphore wait or lock call that blocks with a finite timeout and is not released is timed out by the tick numbered `WakesAfter(n)` and by none before it |
| TimeRuns.DelayHangs | kernel/kernel.c:74-92 | a delay whose deadline is tick 0 never ends, in any run |
| TimeRuns.NeverTimesOut | kernel/kernel.c:642-642 | a block has no deadline if and only if it waits forever or its deadline is tick 0; then, in any run, a delay never ends and a call on a primitive is never woken by a tick and never returns OS_ERR_UNAVAILABLE |
| TimeRuns.WakeCause | kernel/kernel.c:588-607 | a blocked waiter becomes ready either by a tick with the timeout flag set, or as the one task that a release of its own list selects with the flag clear |
| TimeRuns.WaitVerdict | kernel/kernel.c:135-140 | a blocked semaphore or mutex wait returns OS_ERR_UNAVAILABLE exactly if the tick woke it and OS_OK exactly if one release chose it, however long it then waits for the processor |
| TimeRuns.QueueDeadline | kernel/kernel.c:323-372 | a queue call of 1 to 2^31 ticks, however often woken and robbed, fails if and only if a tick timed it out or the queue is unusable in the 2^31 ticks after its deadline, never before its timeout has passed; on an unusable queue outside that window it blocks again, to its original deadline |
| TimeRuns.QueueBlocksIff | kernel/kernel.c:333-355 | a queue call on an unusable queue blocks if and only if its timeout is 1 to 2^31 ticks or its deadline is the value that means none; otherwise it fails at once |
| Wakeups.WokenCount | kernel/kernel.c:326-329 | how the number of woken tasks that have not run yet changes: plus one for a release, minus one for a continuation, nothing else |
| QueueRuns.EachMoved | kernel/kernel.c:375-387 | per action and queue: contents grow by exactly what a send put in or shrink by exactly what a receive handed out, and a receiver is released exactly when an item is added, a sender exactly when one is taken |
| QueueRuns.RunFifo | kernel/kernel.c:317-482 | along every run, what is sent to a queue is what is received from it followed by its contents, in order |
| QueueRuns.RunNoLostWakeup | kernel/kernel.c:330-387 | in every state of a run, if receivers wait there are at most as many items as woken receivers that have not run, and if senders wait at most as many free slots as woken senders |
| QueueRuns.NeverBothStranded | kernel/kernel.c:416-473 | if tasks wait on both sides of a queue, somebody woken is about to use it |
| SemRuns.RunConserves | kernel/kernel.c:105-162 | along every run, count plus grants under way plus posts equals the same at the end plus grants, plus 256 for each wrap of the 8-bit count |
| SemRuns.RunCountOrWaiters | kernel/kernel.c:111-118 | a positive count means that nobody waits, along every run |
| OrderRuns.ListEvolves | kernel/kernel.c:644-646 | all that can happen to a wait list: a blocker joins at the end, the selected entry leaves, timed-out entries leave; the order of the others stays |
| OrderRuns.RunNoOvertaking | kernel/kernel.c:703-720 | while a task waits, nobody that was behind it or not there gets in front of it, whatever times out, is released or comes back |
| OrderRuns.RunFifoBound | kernel/kernel.c:669-673 | a waiter at position k of a FIFO list is released within k + 1 releases |
| OrderRuns.ReleaseOrder | kernel/kernel.c:667-687 | FIFO releases the longest waiting task, PRIORITY the longest waiting of those with the strongest effective priority |
| OrderRuns.HandoffToStrongest | kernel/kernel.c:262-276 | after an unlock with waiters the new owner is the longest waiting of the strongest waiters |
| RoundRobin.NextTaskIff | kernel/kernel.c:515-534 | the two scan loops return a task if and only if it is the first of the strongest ready user tasks in cyclic order after the current one, idle if there is none |
| RoundRobin.SwitchIdleIff | kernel/kernel.c:536-538 | a dispatch selects the idle task if and only if every user task is blocked |
| RoundRobin.SwitchSucc | kernel/kernel.c:518-538 | a dispatch selects the cyclic successor of the current task within the class of strongest tasks able to run |
| RoundRobin.RunFair | kernel/kernel.c:509-539 | while that class stays the same k tasks, any k consecutive dispatches select each of them exactly once and nobody else |
| Startup.BootHolds | kernel/kernel.c:50-72 | the tables that the create calls leave behind satisfy every invariant that the run theorems start from |
| CreatedRuns.BootMade | kernel/kernel.c:50-72 | at power-up every task, semaphore, mutex, queue and list is as its create call names it, and nothing is owned, stored or waited for |
| CreatedRuns.ReachableMade | kernel/kernel.c:94-103 | in every reachable state priorities, capacities, item sizes and policies are those that the create calls named |
| CreatedRuns.ReachableCapacity | kernel/kernel.c:296-315 | in every reachable state a queue stores at most as many items as it was created for, all of the created size, and a send finds room if and only if it stores fewer |
| CreatedRuns.ReachablePost | kernel/kernel.c:94-103 | in every reachable state a post wakes the longest waiting task of a semaphore created FIFO, the longest waiting of the strongest of one created PRIORITY |
| Startup.ReachableSafe | kernel/kernel.c:38-48 | every state reachable from power-up satisfies the run invariant, loses no queue wake-up and has no positive semaphore count with waiters |
| Startup.ReachableLocks | docs/api.md:44-44 | in every reachable state a lock call that has blocked returns OS_OK if and only if its caller owns the mutex |
| Startup.ReachableBoosted | kernel/kernel.c:722-787 | never under-boosted: in every reachable state each task along a chain of owners is at least as strong as the task at its start, and no weaker than its base, after timeouts and inside deadlock cycles too |
| Startup.BootFifo | kernel/kernel.c:296-315 | from power-up everything sent to a queue is what was received followed by what is stored |
| Startup.BootConserves | kernel/kernel.c:94-103 | initial count plus posts equals count, grants under way, grants, and 256 per wrap |
| Startup.BootInheritance | docs/kernel.md:125-127 | transitive inheritance and preemption from power-up on, in every run without timed-out lock calls |
| Startup.BootPreempts | docs/kernel.md:24-27 | the exact condition for preemption in every run from power-up |
| StaleBoost.BoostOutlivesTimeout | kernel/kortos.h:197-198 | a run from power-up after which the lower task owns nothing, the timed-out caller has returned, nobody waits, and the lower task still competes at the caller's priority |
| PriorityDrop.StrongerTaskLeftReady | docs/kernel.md:27-27 | a deadlock-free run from power-up after which a task of priority 5 runs, a task of priority 1 is ready, nobody waits for a mutex and no switch is pended |
| TimeScenes.ZeroDelayHangs | kernel/kortos.h:127-133 | a run from power-up after which a task that asked for a delay of 0 is blocked in every continuation |
| TimeScenes.LongTimeoutFails | kernel/kernel.c:333-355 | a run from power-up after which a receive with a timeout of 2^31 + 1 ticks fails at once |
| TimeScenes.LateSecondBlock | kernel/kernel.c:430-441 | a run from power-up after which a receive of two ticks, resumed 2^31 ticks after its deadline, blocks again |
| SemScenes.PostsWrap | kernel/kernel.c:155-158 | a run from power-up: n posts that nobody takes up leave a count of n modulo 256, and the next post wraps exactly at 255 |
| Blocks.Waitlist.Remove | kernel/kernel.c:704-720 | the shifting loop removes exactly one entry, keeps the order of the others and leaves NULL behind the used part |
| Blocks.SlotsApart | kernel/kernel.c:376-376 | slots at index times item size lie inside the buffer and never overlap |
| Blocks.HeadFree | kernel/kernel.c:376-378 | the slot at `head` holds none of the queued items |
| Blocks.SlotNext | kernel/kernel.c:378-378 | advancing `head` or `tail` modulo the ring size is moving one place on, so `head` stays `tail` plus `count` |
| Blocks.Memcpy | kernel/kernel.c:376-376 | a byte-for-byte copy that touches nothing outside its target range |
| Blocks.RingQueue.Push | kernel/kernel.c:375-378 | the ring buffer as a sequence: a send appends the item's bytes and keeps `head` equal to `tail` plus `count` modulo the size |
| Blocks.RingQueue.Pop | kernel/kernel.c:461-464 | a receive takes the oldest item's bytes off the front |
| Kernel.Core.PickEntry | kernel/kernel.c:667-687 | the selection loop returns the entry that `Spec.Pick` defines |
| Kernel.Core.Unblock | kernel/kernel.c:660-700 | waitlist_unblock in place refines `Spec.Unblock` |
| Kernel.Core.BlockCurrent | kernel/kernel.c:629-656 | waitlist_block_current in place refines `Spec.BlockOn` |
| Kernel.Core.MutexOf | kernel/kernel.c:789-794 | the cast from a wait list to its mutex, applied only to lists that lie inside one |
| Kernel.Core.DonatePriority | kernel/kernel.c:725-747 | the donation loop over the tables computes the walk `Inheritance.Donate` |
| Kernel.Core.Strongest | kernel/kernel.c:759-774 | the nested loops over owned mutexes and their waiters compute the local equation's right side |
| Kernel.Core.RecomputePriority | kernel/kernel.c:754-787 | the recomputation loop over the tables computes the walk `Inheritance.Recompute` |
| Kernel.Core.WakeIfDue | kernel/kernel.c:583-612 | one round of the wake-up loop, with its search in the wait list, refines `Spec.WakeIfDue` |
| Kernel.Core.UnblockTasks | kernel/kernel.c:575-614 | the wake-up loop refines the sweep over all tasks but the idle one |
| Kernel.Core.TickIrq | kernel/kernel.c:487-494 | os_tick refines `Spec.Tick` and keeps the kernel invariant |
| Kernel.Core.ScanTasks | kernel/kernel.c:519-534 | a scan loop computes `Spec.Scan` |
| Kernel.Core.ScheduleNext | kernel/kernel.c:509-539 | os_schedule_next_task refines `Spec.Dispatch` and keeps the kernel invariant |
| Kernel.Core.TaskDelay | kernel/kernel.c:74-92 | os_task_delay refines `Spec.Delay`, of which `Answers.DelayAnswer` says what it does, and keeps the kernel invariant |
| Kernel.Core.SemWait | kernel/kernel.c:105-133 | os_sem_wait up to its return or block refines `Spec.SemWait`, of which `Answers.WaitAnswer` and `Answers.PendsIff` say what it does, and keeps the kernel invariant |
| Kernel.Core.SemPost | kernel/kernel.c:143-162 | os_sem_post refines `Spec.SemPost` and keeps the kernel invariant |
| Kernel.Core.MutexLock | kernel/kernel.c:174-221 | os_mutex_lock up to its return or block refines `Spec.MutexLock`, of which `Answers.LockAnswer` says what it does, and keeps the kernel invariant |
| Kernel.Core.MutexResume | kernel/kernel.c:223-233 | os_mutex_lock after its block refines `Spec.MutexResume` and keeps the kernel invariant |
| Kernel.Core.Disown | kernel/kernel.c:250-261 | the swap-with-last loop refines `Spec.Disown` |
| Kernel.Core.MutexUnlock | kernel/kernel.c:236-294 | os_mutex_unlock refines `Spec.MutexUnlock`, keeps the kernel invariant and never writes past the new owner's array of mutexes |
| Kernel.Core.SendFromTask | kernel/kernel.c:317-391 | os_queue_send_from_task up to its return or first block refines `Spec.QueueSend` with the deadline computed on entry |
| Kernel.Core.ResumeSend | kernel/kernel.c:357-373 | after a block: give up if the tick woke the task, otherwise recheck with the original deadline |
| Kernel.Core.RecvFromTask | kernel/kernel.c:403-477 | os_queue_recv_from_task up to its return or first block refines `Spec.QueueRecv`; the caller's buffer changes exactly if an item was received, and then to that item |
| Kernel.Core.ResumeRecv | kernel/kernel.c:443-459 | the same after a block |
| Kernel.Core.IsrSend | kernel/kernel.c:393-401 | os_queue_send_from_isr refines `Spec.IsrSend`: it never blocks and counts what it drops |
| Kernel.Core.IsrRecv | kernel/kernel.c:479-482 | os_queue_recv_from_isr refines `Spec.IsrRecv`, of which `Answers.IsrGetAnswer` says what it does |
| Kernel.Core.Perform | kernel/kernel.c:74-539 | any action performed on the tables leads where `Runs.Step` leads and returns what `Runs.Act` returns |
| Machine.PowerUp | kernel/kernel.c:38-103 | the create calls build valid tables in which priorities, capacities, item sizes and policies are those of their arguments; their abstract state is `Startup.Start` |
| Machine.PlayRun | kernel/kernel.c:38-539 | from power-up through any run the tables stand for exactly the state that the run semantics reaches |

## Left out

- The architecture port: stacks, stack frames, registers, SysTick and PendSV set-up, saved stack pointers. Only atomic regions and the pending-switch bit remain.
- os_kernel_start beyond its first dispatch, the idle loop and its hook.
- Peripheral drivers, board support, linker script, makefile, sample applications and measurements.
- NULL, range and policy checks of the public calls: their success is a precondition; `Startup.Accepted` collects those of the create calls, which are modelled together and not one error at a time.
- Preemption inside the recomputation at line 224, and the increment of the drop counter outside the critical section: both are part of one atomic step.
- Freedom from deadlock: the kernel rejects only recursive locks; `PriorityRuns.RunAcyclicIff` says exactly which runs stay free of it.
- Kernel calls by the idle hook: the idle task performs no action in a run.
- TimeRuns.QueueDeadline: stated for timeouts of 1 to 2^31 ticks; longer finite ones never block, as `TimeRuns.QueueBlocksIff` shows, unless their deadline is the value that means none.
- The bytes of an item are fixed when the send is called; the source reads the caller's buffer at the copy (kernel/kernel.c:376), possibly after a block in which the caller's memory could have changed.
- Blocks.RingQueue.Pop: the buffers of caller and queue are distinct objects; overlapping memory is not modelled.
- User tasks' own records are an array of values indexed by task number, as in the source; the task handler and stack fields are left out.
