/** The kernel itself (kernel/kernel.c): global tables updated in place, one method for each
    function, each proved against its counterpart in `Spec`.

    A method runs from port_enter_critical to port_exit_critical, or to the point where a blocked
    call gives up the processor. */
module Kernel {
  import opened Types
  import opened Inheritance
  import opened Spec
  import opened Invariants
  import opened Preserve
  import opened Runs
  import opened Effects
  import opened Startup
  import opened Blocks
  import opened Creation
  import opened Unfold

  class Core {
    const cfg: Config
    const tasks: array<Task>
    const lists: seq<Waitlist>
    const mutexes: seq<MutexBlock>
    const sems: seq<Semaphore>
    const queues: seq<RingQueue>
    var taskCount: int
    var tick: int
    var current: int
    var pending: bool

    /** The abstract state that the tables stand for. */
    ghost var model: State

    // -------------------------------------------------------------- representation

    /** No two control blocks share storage. */
    ghost predicate Apart() {
      && tasks.Length == cfg.maxTasks
      && (forall l :: 0 <= l < |lists| ==> lists[l].slots.Length == cfg.maxTasks)
      && (forall k, l :: 0 <= k < l < |lists| ==> lists[k] != lists[l] && lists[k].slots != lists[l].slots)
      && (forall l :: 0 <= l < |lists| ==> lists[l].slots as object != tasks)
      && (forall q :: 0 <= q < |queues| ==> queues[q].buffer as object != tasks)
      && (forall l, q :: 0 <= l < |lists| && 0 <= q < |queues| ==> lists[l].slots as object != queues[q].buffer)
      && (forall k, m :: 0 <= k < m < |mutexes| ==> mutexes[k] != mutexes[m])
      && (forall k, i :: 0 <= k < i < |sems| ==> sems[k] != sems[i])
      && (forall k, q :: 0 <= k < q < |queues| ==> queues[k] != queues[q] && queues[k].buffer != queues[q].buffer)
    }

    /** List `l` of the kernel is the value `x`. */
    ghost predicate ListIs(l: int, x: List)
      requires 0 <= l < |lists|
      reads lists[l], lists[l].slots
    {
      lists[l].Valid() && x == List(lists[l].policy, lists[l].home, lists[l].Contents())
    }

    ghost predicate ListsAre(ls: seq<List>)
      reads lists, set l | l in lists :: l.slots
    {
      |lists| == |ls| && forall l :: 0 <= l < |lists| ==> ListIs(l, ls[l])
    }

    ghost predicate MutexesAre(ms: seq<Mutex>)
      reads mutexes
    {
      |mutexes| == |ms| &&
      forall m :: 0 <= m < |mutexes| ==> ms[m] == Mutex(mutexes[m].owner, mutexes[m].locked, mutexes[m].wl)
    }

    ghost predicate SemsAre(ss: seq<Sem>)
      reads sems
    {
      |sems| == |ss| && forall i :: 0 <= i < |sems| ==> ss[i] == Sem(sems[i].count, sems[i].wl)
    }

    ghost predicate QueueIs(q: int, x: Queue)
      requires 0 <= q < |queues|
      reads queues[q], queues[q].buffer
    {
      var y := queues[q];
      y.Valid() && x == Queue(y.maxItems, y.itemSize, y.Contents(), y.dropped, y.swl, y.rwl)
    }

    ghost predicate QueuesAre(qs: seq<Queue>)
      reads queues, set q | q in queues :: q.buffer
    {
      |queues| == |qs| && forall q :: 0 <= q < |queues| ==> QueueIs(q, qs[q])
    }

    ghost predicate TasksAre(ts: seq<Task>)
      reads this`taskCount, tasks
    {
      0 <= taskCount <= tasks.Length && tasks[..taskCount] == ts
    }

    ghost predicate Registers()
      reads this
    {
      model.cfg == cfg && tick == model.tick && current == model.current && pending == model.pending
    }

    ghost predicate Valid()
      reads this, tasks, lists, (set l | l in lists :: l.slots), mutexes, sems
      reads queues, (set q | q in queues :: q.buffer)
    {
      && Apart() && Wf(model) && Registers()
      && TasksAre(model.tasks) && ListsAre(model.lists) && MutexesAre(model.mutexes)
      && SemsAre(model.sems) && QueuesAre(model.queues)
    }

    // -------------------------------------------------------------- creation

    /** The tables after the create calls of `u`; everything is ready for os_kernel_start. */
    constructor (u: Setup, ts: array<Task>, ls: seq<Waitlist>,
                 ms: seq<MutexBlock>, ss: seq<Semaphore>, qs: seq<RingQueue>)
      requires Accepted(u) && TasksMade(u, ts)
      requires ListsMade(u, ls) && MutexesMade(u, ms) && SemsMade(u, ss) && QueuesMade(u, qs)
      ensures Valid() && model == Start(u) && KInv(model)
      ensures tasks == ts && lists == ls && mutexes == ms && sems == ss && queues == qs
    {
      cfg, tasks, lists, mutexes, sems, queues := u.cfg, ts, ls, ms, ss, qs;
      taskCount, tick, current, pending := 1 + |u.priorities|, 0, 0, true;
      model := Start(u);
      new;
      hide Valid, KInv, Start, TasksMade, ListsMade, MutexesMade, SemsMade, QueuesMade;
      AllFits(u);
    }

    lemma AllFits(u: Setup)
      requires Accepted(u) && cfg == u.cfg && taskCount == 1 + |u.priorities| && tick == current == 0 && pending
      requires model == Start(u) && TasksMade(u, tasks)
      requires ListsMade(u, lists) && MutexesMade(u, mutexes) && SemsMade(u, sems) && QueuesMade(u, queues)
      ensures Valid() && KInv(model)
    {
      StartShape(u);
      AllApart(u);
      TasksFit(u);
      TablesFit(u);
      hide KInv, Wf, Apart, Start, TasksAre, ListsAre, MutexesAre, SemsAre, QueuesAre;
      hide TasksMade, ListsMade, MutexesMade, SemsMade, QueuesMade;
    }

    lemma AllApart(u: Setup)
      requires Accepted(u) && cfg == u.cfg && TasksMade(u, tasks)
      requires ListsMade(u, lists) && MutexesMade(u, mutexes) && SemsMade(u, sems) && QueuesMade(u, queues)
      ensures Apart()
    {
    }

    lemma TasksFit(u: Setup)
      requires Accepted(u) && taskCount == 1 + |u.priorities| && TasksMade(u, tasks)
      ensures TasksAre(Start(u).tasks)
    {
      StartShape(u);
      hide KInv, Wf, Start;
      assert tasks[..taskCount] == Start(u).tasks;
    }

    lemma TablesFit(u: Setup)
      requires Accepted(u)
      requires ListsMade(u, lists) && MutexesMade(u, mutexes) && SemsMade(u, sems) && QueuesMade(u, queues)
      ensures ListsAre(Start(u).lists) && MutexesAre(Start(u).mutexes)
      ensures SemsAre(Start(u).sems) && QueuesAre(Start(u).queues)
    {
      StartShape(u);
      hide KInv, Wf, Start;
      forall q | 0 <= q < |queues|
        ensures QueueIs(q, Start(u).queues[q])
      {
        assert Created(queues[q], NewQueue(u, q));
        assert queues[q].Contents() == [];
      }
    }

    // -------------------------------------------------------------- single stores

    lemma ListFacts(w: int)
      requires Valid() && 0 <= w < |lists|
      ensures |lists| == |model.lists| && ListIs(w, model.lists[w]) && lists[w].slots.Length == cfg.maxTasks
      ensures forall k :: 0 <= k < lists[w].count ==> 0 <= lists[w].slots[k] < taskCount
    {
      assert ListIs(w, model.lists[w]) && WfList(model, model.lists[w]);
      forall k | 0 <= k < lists[w].count
        ensures 0 <= lists[w].slots[k] < taskCount
      {
        assert model.lists[w].waiters[k] in model.lists[w].waiters;
      }
    }

    lemma TaskFacts(t: int)
      requires Valid() && 0 <= t < taskCount
      ensures taskCount == |model.tasks| <= tasks.Length && tasks[t] == model.tasks[t] && WfTask(model, tasks[t])
      ensures 0 <= current < taskCount
    {
      assert model.tasks[t] == tasks[..taskCount][t];
    }

    /** Stores to fields of a task record. */
    method SetTask(t: int, x: Task)
      requires Valid() && 0 <= t < taskCount && WfTask(model, x)
      modifies this`model, tasks
      ensures Valid() && model == old(model).(tasks := old(model).tasks[t := x])
    {
      TaskFacts(t);
      ghost var r := model.(tasks := model.tasks[t := x]);
      WfStep(model, r);
      hide Wf, ListsAre, MutexesAre, SemsAre, QueuesAre;
      tasks[t] := x;
      model := r;
    }

    /** waitlist_remove_task. */
    method DropEntry(w: int, i: int)
      requires Valid() && 0 <= w < |lists| && 0 <= i < lists[w].count
      modifies this`model, lists[w], lists[w].slots
      ensures Valid() && |old(model).lists| == |lists| && 0 <= i < |old(model).lists[w].waiters|
      ensures model == old(model).(lists :=
        old(model).lists[w := old(model).lists[w].(waiters := RemoveAt(old(model).lists[w].waiters, i))])
    {
      hide Wf, TasksAre, MutexesAre, SemsAre, QueuesAre;
      ListFacts(w);
      ghost var l := model.lists[w];
      ghost var r := model.(lists := model.lists[w := l.(waiters := RemoveAt(l.waiters, i))]);
      WaitersWf(model, w, RemoveAt(l.waiters, i));
      lists[w].Remove(i);
      model := r;
    }

    /** Entry at the end of a wait list. */
    method AddEntry(w: int, t: int)
      requires Valid() && 0 <= w < |lists| && 0 <= t < taskCount && lists[w].count < cfg.maxTasks
      modifies this`model, lists[w], lists[w].slots
      ensures Valid() && |old(model).lists| == |lists|
      ensures model == old(model).(lists :=
        old(model).lists[w := old(model).lists[w].(waiters := old(model).lists[w].waiters + [t])])
    {
      hide Wf, TasksAre, MutexesAre, SemsAre, QueuesAre;
      ListFacts(w);
      TaskFacts(t);
      ghost var l := model.lists[w];
      ghost var r := model.(lists := model.lists[w := l.(waiters := l.waiters + [t])]);
      WaitersWf(model, w, l.waiters + [t]);
      lists[w].Append(t);
      model := r;
    }

    method SetMutex(m: int, owner: int, locked: bool)
      requires Valid() && 0 <= m < |mutexes| && (owner == NULL || 0 <= owner < taskCount)
      modifies this`model, mutexes[m]
      ensures Valid() && |old(model).mutexes| == |mutexes|
      ensures model ==
        old(model).(mutexes := old(model).mutexes[m := old(model).mutexes[m].(owner := owner, locked := locked)])
    {
      ghost var r := model.(mutexes := model.mutexes[m := model.mutexes[m].(owner := owner, locked := locked)]);
      assert WfMutex(model, model.mutexes[m]);
      WfStep(model, r);
      hide Wf, TasksAre, ListsAre, SemsAre, QueuesAre;
      mutexes[m].owner := owner;
      mutexes[m].locked := locked;
      model := r;
    }

    method SetSem(i: int, count: int)
      requires Valid() && 0 <= i < |sems| && 0 <= count < 256
      modifies this`model, sems[i]
      ensures Valid() && |old(model).sems| == |sems|
      ensures model == old(model).(sems := old(model).sems[i := old(model).sems[i].(count := count)])
    {
      ghost var r := model.(sems := model.sems[i := model.sems[i].(count := count)]);
      WfStep(model, r);
      hide Wf, TasksAre, ListsAre, MutexesAre, QueuesAre;
      sems[i].count := count;
      model := r;
    }

    /** port_yield: the context switch is pended. */
    method Yield()
      requires Valid()
      modifies this`model, this`pending
      ensures Valid() && model == old(model).(pending := true)
    {
      ghost var r := model.(pending := true);
      WfStep(model, r);
      hide Wf, TasksAre, ListsAre, MutexesAre, SemsAre, QueuesAre;
      pending := true;
      model := r;
    }

    method SetTick(n: int)
      requires Valid() && 0 <= n < U32
      modifies this`model, this`tick
      ensures Valid() && model == old(model).(tick := n)
    {
      ghost var r := model.(tick := n);
      WfStep(model, r);
      hide Wf, TasksAre, ListsAre, MutexesAre, SemsAre, QueuesAre;
      tick := n;
      model := r;
    }

    /** PendSV makes `t` the current task and clears the pending bit. */
    method SetCurrent(t: int)
      requires Valid() && 0 <= t < taskCount
      modifies this`model, this`current, this`pending
      ensures Valid() && model == old(model).(current := t, pending := false)
    {
      ghost var r := model.(current := t, pending := false);
      assert TasksAre(model.tasks);
      WfStep(model, r);
      hide Wf, TasksAre, ListsAre, MutexesAre, SemsAre, QueuesAre;
      current := t;
      pending := false;
      model := r;
    }

    // -------------------------------------------------------------- wait lists

    /** The selection of waitlist_unblock. */
    method PickEntry(w: int) returns (i: int)
      requires Valid() && 0 <= w < |lists| && lists[w].count > 0
      ensures i == Pick(model, w)
    {
      hide Wf, Apart, SemsAre, QueuesAre, MutexesAre, ListsAre;
      ListFacts(w);
      var l := lists[w];
      i := NULL;
      if l.policy == Fifo {
        i := 0;
      } else {
        ghost var ws := l.Contents();
        var strongest := cfg.lowest + 1;
        for k := 0 to l.count
          invariant i == Best(Effs(model), ws, cfg.lowest + 1, k)
          invariant strongest == if i == NULL then cfg.lowest + 1 else Effs(model)[ws[i]]
        {
          if l.slots[k] != NULL && tasks[l.slots[k]].eff < strongest {
            strongest := tasks[l.slots[k]].eff;
            i := k;
          }
        }
      }
    }

    /** waitlist_unblock. */
    method Unblock(w: int) returns (t: int)
      requires Valid() && 0 <= w < |lists| && Pickable(model, w)
      modifies this`model, tasks, lists[w], lists[w].slots
      ensures Valid() && model == Spec.Unblock(old(model), w) && t == Chosen(old(model), w)
    {
      hide Wf, Apart, TasksAre, ListsAre, SemsAre, QueuesAre, MutexesAre;
      ListFacts(w);
      if lists[w].count == 0 {
        return NULL;
      }
      var i := PickEntry(w);
      t := lists[w].slots[i];
      TaskFacts(t);
      SetTask(t, tasks[t].(wakeup := 0, state := Ready, reason := NoReason, blockedOn := NULL, timeout := false));
      ListFacts(w);
      DropEntry(w, i);
    }

    /** waitlist_block_current, up to the point where the processor is given up. */
    method BlockCurrent(w: int, timeout: int, reason: Reason) returns (r: Ret)
      requires Valid() && 0 <= w < |lists| && 0 <= timeout < U32 && reason == ReasonOf(lists[w].home)
      modifies this`model, this`pending, tasks, lists[w], lists[w].slots
      ensures Valid() && Outcome(model, r) == BlockOn(old(model), w, timeout)
    {
      hide Wf, Apart, TasksAre, ListsAre, SemsAre, QueuesAre, MutexesAre;
      ListFacts(w);
      RegisterFacts();
      if lists[w].count >= cfg.maxTasks {
        return Returns(WaitlistFull);
      }
      TaskFacts(current);
      SetTask(current, tasks[current].(state := Blocked, reason := reason, blockedOn := w,
                                       wakeup := if timeout == WAIT_FOREVER then 0 else (tick + timeout) % U32));
      ListFacts(w);
      AddEntry(w, current);
      Yield();
      return Blocks;
    }

    lemma RegisterFacts()
      requires Valid()
      ensures 0 <= current < taskCount == |model.tasks| <= tasks.Length == cfg.maxTasks && 0 <= tick < U32
      ensures 1 <= cfg.maxTasks <= 255
      ensures Wf(model) && Registers() && Apart()
      ensures |lists| == |model.lists| && |mutexes| == |model.mutexes|
      ensures |sems| == |model.sems| && |queues| == |model.queues|
    {
    }

    /** Every wait list is wired to its primitive and, if not empty, has an entry to select. */
    lemma InvFacts()
      requires Valid() && KInv(model)
      ensures |lists| == |model.lists| && forall w :: 0 <= w < |lists| ==> Pickable(model, w)
      ensures forall i :: 0 <= i < |sems| ==> 0 <= sems[i].wl < |lists| && lists[sems[i].wl].home == InSem(i)
      ensures forall m :: 0 <= m < |mutexes| ==> 0 <= mutexes[m].wl < |lists| && lists[mutexes[m].wl].home == InMutex(m)
      ensures forall q :: 0 <= q < |queues| ==>
        && 0 <= queues[q].swl < |lists| && lists[queues[q].swl].home == InSend(q)
        && 0 <= queues[q].rwl < |lists| && lists[queues[q].rwl].home == InRecv(q)
    {
      forall w | 0 <= w < |lists|
        ensures Pickable(model, w) && model.lists[w].home == lists[w].home
      {
        AlwaysPickable(model, w);
        ListFacts(w);
      }
      forall m | 0 <= m < |mutexes|
        ensures 0 <= mutexes[m].wl < |lists| && lists[mutexes[m].wl].home == InMutex(m)
      {
        MutexFacts(m);
        assert OwnMutex(model, m);
      }
      forall i | 0 <= i < |sems|
        ensures 0 <= sems[i].wl < |lists| && lists[sems[i].wl].home == InSem(i)
      {
        SemFacts(i);
      }
      forall q | 0 <= q < |queues|
        ensures 0 <= queues[q].swl < |lists| && lists[queues[q].swl].home == InSend(q)
        ensures 0 <= queues[q].rwl < |lists| && lists[queues[q].rwl].home == InRecv(q)
      {
        QueueFacts(q);
      }
    }

    // -------------------------------------------------------------- priority inheritance

    /** cast_waitlist_to_mutex, which is applied only to wait lists that lie inside a mutex. */
    method MutexOf(w: int) returns (m: int)
      requires Valid() && (w == NULL || (0 <= w < |lists| && lists[w].home.InMutex?))
      ensures w == NULL ==> m == NULL
      ensures w != NULL ==> 0 <= m < |mutexes| && lists[w].home == InMutex(m)
    {
      if w == NULL {
        return NULL;
      }
      assert ListIs(w, model.lists[w]) && WfList(model, model.lists[w]);
      return lists[w].home.mutex;
    }

    lemma MutexFacts(m: int)
      requires Valid() && 0 <= m < |mutexes|
      ensures |mutexes| == |model.mutexes|
      ensures model.mutexes[m] == Mutex(mutexes[m].owner, mutexes[m].locked, mutexes[m].wl)
      ensures mutexes[m].owner == NULL || 0 <= mutexes[m].owner < taskCount
      ensures 0 <= mutexes[m].wl < |lists|
    {
      assert WfMutex(model, model.mutexes[m]);
    }

    /** Who owns the mutex that `t` is blocked on, for a task that is blocked on one. */
    method OwnerAhead(t: int) returns (o: int)
      requires Valid() && 0 <= t < taskCount && tasks[t].reason == OnMutex
      ensures |model.tasks| == taskCount && o == Next(model, t)
    {
      hide Apart, SemsAre, QueuesAre;
      TaskFacts(t);
      ListFacts(tasks[t].blockedOn);
      var m := MutexOf(tasks[t].blockedOn);
      MutexFacts(m);
      return if m != NULL then mutexes[m].owner else NULL;
    }

    /** A store to an effective priority. */
    method SetEff(t: int, p: int)
      requires Valid() && 0 <= t < taskCount
      modifies this`model, tasks
      ensures Valid() && |model.tasks| == |old(model).tasks| == taskCount
      ensures OnlyEffs(old(model), model) && GraphOf(model) == GraphOf(old(model))
      ensures Effs(model) == Effs(old(model))[t := p]
    {
      hide Wf, Apart, TasksAre, ListsAre, SemsAre, QueuesAre, MutexesAre, GraphOf, Effs;
      TaskFacts(t);
      SetTask(t, tasks[t].(eff := p));
      StoreEff(old(model), model, t, p);
    }

    /** The comparison in mutex_donate_priority. */
    method Boost(t: int, p: int)
      requires Valid() && 0 <= t < taskCount
      modifies this`model, tasks
      ensures Valid() && |model.tasks| == |old(model).tasks| == taskCount
      ensures OnlyEffs(old(model), model) && GraphOf(model) == GraphOf(old(model))
      ensures Effs(model) == if Effs(old(model))[t] > p then Effs(old(model))[t := p] else Effs(old(model))
    {
      hide Valid, Wf, GraphOf, Effs;
      RegisterFacts();
      TaskFacts(t);
      if tasks[t].eff > p {
        SetEff(t, p);
      }
    }

    /** mutex_donate_priority. */
    method DonatePriority(o: int)
      requires Valid() && (o == NULL || 0 <= o < taskCount)
      modifies this`model, tasks
      ensures |old(model).tasks| == taskCount && Valid() && model == Spec.DonatePriority(old(model), o)
    {
      hide Valid, Wf, Donate, GraphOf, Effs, OnlyEffs, Next;
      RegisterFacts();
      TaskFacts(current);
      var priority := tasks[current].eff;
      var owner, hops := o, 0;
      ghost var g := GraphOf(model);
      ghost var result := Donate(g.next, Effs(model), o, priority, cfg.maxTasks);
      SameEffs(model);
      while owner != NULL && hops < cfg.maxTasks
        modifies this`model, tasks
        invariant Valid() && Wf(model) && OnlyEffs(old(model), model)
        invariant taskCount == |model.tasks| && GraphOf(model) == g
        invariant (owner == NULL || 0 <= owner < taskCount) && 0 <= hops <= cfg.maxTasks
        invariant Donate(g.next, Effs(model), owner, priority, cfg.maxTasks - hops) == result
        decreases cfg.maxTasks - hops
      {
        ghost var before := model;
        DonateOnce(g.next, Effs(model), owner, priority, cfg.maxTasks - hops);
        Boost(owner, priority);
        EffsChain(old(model), before, model);
        RegisterFacts();
        TaskFacts(owner);
        if tasks[owner].reason != OnMutex {
          NoEdge(model, owner);
          DonateEnd(g.next, Effs(model), NULL, priority, cfg.maxTasks - hops - 1);
          break;
        }
        owner := OwnerAhead(owner);
        hops := hops + 1;
      }
      if owner == NULL || hops == cfg.maxTasks {
        DonateEnd(g.next, Effs(model), owner, priority, cfg.maxTasks - hops);
      }
      EffsDecide(old(model), model, result);
      DonateUnfolds(old(model), o);
    }

    /** The strongest of `p0` and the priorities of the tasks waiting on list `w`. */
    method StrongestWaiter(w: int, p0: int) returns (p: int)
      requires Valid() && 0 <= w < |lists|
      ensures |lists| == |model.lists| && InTable(model.lists[w].waiters, |Effs(model)|)
      ensures p == MinEff(Effs(model), model.lists[w].waiters, p0)
    {
      hide Valid, Effs, MinEff;
      ListFacts(w);
      RegisterFacts();
      var l := lists[w];
      ghost var ws := l.Contents();
      p := p0;
      MinEffEmpty(Effs(model), p0);
      for j := 0 to l.count
        invariant InTable(ws[..j], taskCount) && p == MinEff(Effs(model), ws[..j], p0)
      {
        TaskFacts(l.slots[j]);
        MinEffNext(Effs(model), ws, j, p0);
        if p > tasks[l.slots[j]].eff {
          p := tasks[l.slots[j]].eff;
        }
      }
      assert ws[..l.count] == ws;
    }

    /** The strongest priority among a task's own and those of all waiters on all mutexes it owns. */
    method Strongest(t: int) returns (p: int)
      requires Valid() && 0 <= t < taskCount
      ensures taskCount == |model.tasks| && p == Local(GraphOf(model), Effs(model), t)
    {
      hide Valid, Wf, GraphOf, Effs, MinEff, WaitersOn, WaitersOf;
      RegisterFacts();
      TaskFacts(t);
      var owned := tasks[t].owned;
      p := tasks[t].base;
      StrongestStart(model, t);
      for i := 0 to |owned|
        invariant p == MinEff(Effs(model), WaitersOf(model, owned[..i]), tasks[t].base)
      {
        OwnedFacts(t, i);
        p := StrongestWaiter(mutexes[owned[i]].wl, p);
        StrongestList(model, owned, i, tasks[t].base);
      }
      StrongestEnd(model, t);
    }

    lemma OwnedFacts(t: int, i: int)
      requires Valid() && 0 <= t < taskCount && 0 <= i < |tasks[t].owned|
      ensures 0 <= tasks[t].owned[i] < |mutexes| == |model.mutexes| && 0 <= mutexes[tasks[t].owned[i]].wl < |lists|
      ensures model.mutexes[tasks[t].owned[i]].wl == mutexes[tasks[t].owned[i]].wl
    {
      TaskFacts(t);
      assert tasks[t].owned[i] in tasks[t].owned;
      MutexFacts(tasks[t].owned[i]);
    }

    /** mutex_recompute_owner_priority. */
    method RecomputePriority(o: int)
      requires Valid() && (o == NULL || 0 <= o < taskCount)
      modifies this`model, tasks
      ensures |old(model).tasks| == taskCount && Valid() && model == Spec.RecomputePriority(old(model), o)
    {
      hide Valid, Wf, Recompute, GraphOf, Effs, OnlyEffs, Next, Local;
      RegisterFacts();
      var owner, hops := o, 0;
      ghost var g := GraphOf(model);
      ghost var result := Recompute(g, Effs(model), o, cfg.maxTasks);
      SameEffs(model);
      while owner != NULL && hops < cfg.maxTasks
        modifies this`model, tasks
        invariant Valid() && Wf(model) && OnlyEffs(old(model), model)
        invariant taskCount == |model.tasks| && GraphOf(model) == g
        invariant (owner == NULL || 0 <= owner < taskCount) && 0 <= hops <= cfg.maxTasks
        invariant Recompute(g, Effs(model), owner, cfg.maxTasks - hops) == result
        decreases cfg.maxTasks - hops
      {
        ghost var before := model;
        RecomputeOnce(g, Effs(model), owner, cfg.maxTasks - hops);
        var strongest := Strongest(owner);
        SetEff(owner, strongest);
        EffsChain(old(model), before, model);
        RegisterFacts();
        TaskFacts(owner);
        if tasks[owner].reason != OnMutex {
          NoEdge(model, owner);
          RecomputeEnd(g, Effs(model), NULL, cfg.maxTasks - hops - 1);
          break;
        }
        owner := OwnerAhead(owner);
        hops := hops + 1;
      }
      if owner == NULL || hops == cfg.maxTasks {
        RecomputeEnd(g, Effs(model), owner, cfg.maxTasks - hops);
      }
      EffsDecide(old(model), model, result);
      RecomputeUnfolds(old(model), o);
    }

    // -------------------------------------------------------------- ticks

    /** The search loop of unblock_tasks: `t` is taken off list `w` if it is there. */
    method RemoveWaiter(w: int, t: int) returns (found: bool)
      requires Valid() && 0 <= w < |lists| && 0 <= t < taskCount
      modifies this`model, lists[w], lists[w].slots
      ensures |old(model).lists| == |lists| && Valid()
      ensures var l := old(model).lists[w]; var i := IndexOf(l.waiters, t);
        && (found <==> i < |l.waiters|)
        && (found ==> model == old(model).(lists := old(model).lists[w := l.(waiters := RemoveAt(l.waiters, i))]))
        && (!found ==> model == old(model))
    {
      hide Valid, Wf;
      ListFacts(w);
      var i := 0;
      while i < lists[w].count && lists[w].slots[i] != t
        invariant 0 <= i <= lists[w].count
        invariant forall j :: 0 <= j < i ==> lists[w].Contents()[j] != t
      {
        i := i + 1;
      }
      found := i < lists[w].count;
      if found {
        DropEntry(w, i);
      }
    }

    /** The body of the loop of unblock_tasks. */
    method WakeIfDue(t: int)
      requires Valid() && 0 <= t < taskCount
      modifies this`model, tasks, lists, set l | l in lists :: l.slots
      ensures |old(model).tasks| == taskCount && Valid() && model == Spec.WakeIfDue(old(model), t)
    {
      hide Valid, Wf;
      RegisterFacts();
      TaskFacts(t);
      var since := (tick - tasks[t].wakeup) % U32;
      if tasks[t].state == Blocked && tasks[t].wakeup != 0 && since < HALF {
        var removed := false;
        if tasks[t].blockedOn != NULL {
          SetTask(t, tasks[t].(timeout := true));
          TaskFacts(t);
          removed := RemoveWaiter(tasks[t].blockedOn, t);
        } else {
          SetTask(t, tasks[t].(timeout := false));
        }
        RegisterFacts();
        TaskFacts(t);
        SetTask(t, tasks[t].(blockedOn := if removed then NULL else tasks[t].blockedOn,
                             state := Ready, reason := NoReason, wakeup := 0));
      }
    }

    /** unblock_tasks: every task but the idle one is looked at in turn. */
    method UnblockTasks()
      requires Valid()
      modifies this`model, tasks, lists, set l | l in lists :: l.slots
      ensures |old(model).tasks| == taskCount && Valid() && model == WakeBelow(old(model), taskCount)
    {
      hide Valid, Wf, Spec.WakeIfDue;
      RegisterFacts();
      if taskCount <= 1 {
        return;
      }
      for t := 1 to taskCount
        invariant Valid() && model == WakeBelow(old(model), t)
      {
        WakeIfDue(t);
      }
    }

    /** os_tick. */
    method TickIrq()
      requires Valid() && KInv(model)
      modifies this`model, this`tick, this`pending, tasks, lists, set l | l in lists :: l.slots
      ensures Valid() && model == Tick(old(model))
      ensures KInv(model)
    {
      hide Valid, Wf, KInv, WakeBelow;
      RegisterFacts();
      TickKeeps(model);
      SetTick((tick + 1) % U32);
      UnblockTasks();
      Yield();
    }

    // -------------------------------------------------------------- scheduling

    /** One scan loop of os_schedule_next_task over the tasks from `first` up to `end`. */
    method ScanTasks(first: int, end: int, best: int, pick: int) returns (strongest: int, next: int)
      requires Valid() && 0 <= first <= end <= taskCount && 0 <= pick < taskCount
      ensures taskCount == |model.tasks| && 0 <= next < taskCount
      ensures (strongest, next) == Scan(model.tasks, first, end, best, pick)
    {
      hide Valid, Scan;
      RegisterFacts();
      strongest, next := best, pick;
      for i := first to end
        invariant 0 <= next < taskCount
        invariant Scan(model.tasks, i, end, strongest, next) == Scan(model.tasks, first, end, best, pick)
      {
        TaskFacts(i);
        ScanOnce(model.tasks, i, end, strongest, next);
        if tasks[i].state == Ready && tasks[i].eff < strongest {
          strongest := tasks[i].eff;
          next := i;
        }
      }
      ScanEnd(model.tasks, end, end, strongest, next);
    }

    /** The task that was running goes back to ready. */
    method PreemptCurrent()
      requires Valid()
      modifies this`model, tasks
      ensures Valid() && 0 <= old(model).current < |old(model).tasks|
      ensures model == old(model).(tasks := Preempted(old(model)))
    {
      hide Valid, Wf;
      RegisterFacts();
      TaskFacts(current);
      if tasks[current].state == Running {
        SetTask(current, tasks[current].(state := Ready));
      }
    }

    /** os_schedule_next_task. */
    method ScheduleNext()
      requires Valid() && KInv(model)
      modifies this`model, this`current, this`pending, tasks
      ensures Valid() && model == Dispatch(old(model))
      ensures KInv(model)
    {
      hide Valid, Wf, KInv, Scan, Dispatch, NextTask, Preempted;
      RegisterFacts();
      DispatchKeeps(model);
      DispatchUnfolds(model);
      PreemptCurrent();
      RegisterFacts();
      if taskCount <= 1 {
        SetCurrent(current);
        return;
      }
      var strongest, next := ScanTasks(current + 1, taskCount, cfg.lowest + 1, 0);
      strongest, next := ScanTasks(1, current + 1, strongest, next);
      SetCurrent(next);
      TaskFacts(next);
      SetTask(next, tasks[next].(state := Running));
    }

    /** os_task_delay. */
    method TaskDelay(ticks: int)
      requires Valid() && KInv(model) && Word(ticks) && (current != 0 ==> tasks[current].state == Running)
      modifies this`model, this`pending, tasks
      ensures Valid() && model == Delay(old(model), ticks)
      ensures KInv(model)
    {
      hide Valid, Wf, KInv;
      RegisterFacts();
      TaskFacts(current);
      DelayKeeps(model, ticks);
      TaskFacts(current);
      if current != 0 {
        SetTask(current, tasks[current].(wakeup := if ticks == WAIT_FOREVER then 0 else (tick + ticks) % U32,
                                         reason := OnDelay, state := Blocked));
        Yield();
      }
    }

    // -------------------------------------------------------------- semaphores

    lemma SemFacts(i: int)
      requires Valid() && 0 <= i < |sems|
      ensures |sems| == |model.sems| && model.sems[i] == Sem(sems[i].count, sems[i].wl)
      ensures 0 <= sems[i].count < 256 && 0 <= sems[i].wl < |lists|
    {
      assert model.sems[i] == Sem(sems[i].count, sems[i].wl);
    }

    /** os_sem_wait, up to its return or its block. */
    method SemWait(i: int, timeout: int) returns (r: Ret)
      requires Valid() && KInv(model) && MayBlock(model) && 0 <= i < |sems| && Word(timeout)
      modifies this`model, this`pending, tasks, sems[i], lists, set l | l in lists :: l.slots
      ensures Valid() && |sems| == |old(model).sems|
      ensures Outcome(model, r) == Spec.SemWait(old(model), i, timeout)
      ensures KInv(model)
    {
      hide Valid, Wf, KInv, BlockOn;
      SemFacts(i);
      RegisterFacts();
      InvFacts();
      SemWaitKeeps(model, i, timeout);
      if sems[i].count > 0 {
        SetSem(i, sems[i].count - 1);
        return Returns(Ok);
      }
      if timeout == 0 {
        return Returns(Unavailable);
      }
      r := BlockCurrent(sems[i].wl, timeout, OnSem);
    }

    /** What os_sem_wait and os_mutex_lock return when their caller runs again. */
    method WaitResult() returns (e: Err)
      requires Valid()
      ensures 0 <= model.current < |model.tasks| && e == Verdict(model)
    {
      RegisterFacts();
      TaskFacts(current);
      return if tasks[current].timeout then Unavailable else Ok;
    }

    /** os_sem_post. */
    method SemPost(i: int)
      requires Valid() && KInv(model) && 0 <= i < |sems|
      modifies this`model, this`pending, tasks, sems[i], lists, set l | l in lists :: l.slots
      ensures Valid() && |sems| == |old(model).sems| && Pickable(old(model), old(model).sems[i].wl)
      ensures model == Spec.SemPost(old(model), i)
      ensures KInv(model)
    {
      hide Valid, Wf, KInv, Pick;
      SemFacts(i);
      RegisterFacts();
      InvFacts();
      SemPostKeeps(model, i);
      var woken := Unblock(sems[i].wl);
      if woken != NULL {
        Yield();
      } else {
        SemFacts(i);
        SetSem(i, (sems[i].count + 1) % 256);
      }
    }

    // -------------------------------------------------------------- mutexes

    /** The running task becomes the owner; its array of owned mutexes has a free place. */
    method TakeMutex(m: int)
      requires Valid() && 0 <= m < |mutexes| && |tasks[current].owned| < cfg.maxOwned
      modifies this`model, tasks, mutexes[m]
      ensures |mutexes| == |old(model).mutexes| && Valid() && model == Spec.TakeMutex(old(model), m)
    {
      hide Valid, Wf;
      RegisterFacts();
      TaskFacts(current);
      SetTask(current, tasks[current].(owned := tasks[current].owned + [m]));
      RegisterFacts();
      SetMutex(m, current, true);
    }

    /** os_mutex_lock, up to its return or its block. */
    method MutexLock(m: int, timeout: int) returns (r: Ret)
      requires Valid() && KInv(model) && MayBlock(model) && 0 <= m < |mutexes| && Word(timeout)
      requires HasRoom(model, m, timeout)
      modifies this`model, this`pending, tasks, mutexes[m], lists, set l | l in lists :: l.slots
      ensures Valid() && |mutexes| == |old(model).mutexes|
      ensures Outcome(model, r) == Spec.MutexLock(old(model), m, timeout)
      ensures KInv(model)
    {
      hide Valid, Wf, KInv, BlockOn, Spec.TakeMutex, Spec.DonatePriority, Spec.RecomputePriority;
      RegisterFacts();
      TaskFacts(current);
      MutexFacts(m);
      InvFacts();
      LockKeeps(model, m, timeout);
      if !mutexes[m].locked {
        TakeMutex(m);
        return Returns(Ok);
      }
      if mutexes[m].owner == current {
        return Returns(RecursiveLock);
      }
      if timeout == 0 {
        return Returns(Unavailable);
      }
      DonatePriority(mutexes[m].owner);
      r := BlockCurrent(mutexes[m].wl, timeout, OnMutex);
      if r != Blocks {
        RegisterFacts();
        RecomputePriority(mutexes[m].owner);
      }
    }

    /** os_mutex_lock after its blocked caller is dispatched again. */
    method MutexResume(m: int) returns (r: Ret)
      requires Valid() && KInv(model) && 0 <= m < |mutexes|
      modifies this`model, tasks
      ensures Valid() && |mutexes| == |old(model).mutexes|
      ensures Outcome(model, r) == Spec.MutexResume(old(model), m)
      ensures KInv(model)
    {
      hide Valid, Wf, KInv, Spec.RecomputePriority;
      RegisterFacts();
      MutexFacts(m);
      RecomputeKeeps(model, mutexes[m].owner);
      RecomputeKeepsFlags(model, mutexes[m].owner);
      RecomputePriority(mutexes[m].owner);
      var e := WaitResult();
      return Returns(e);
    }

    /** The removal loop of os_mutex_unlock: the last owned mutex takes the place of `m`. */
    method Disown(m: int)
      requires Valid()
      modifies this`model, tasks
      ensures Valid() && model == Spec.Disown(old(model), m)
    {
      hide Valid, Wf;
      RegisterFacts();
      TaskFacts(current);
      var owned := tasks[current].owned;
      var i := 0;
      while i < |owned| && owned[i] != m
        invariant 0 <= i <= |owned| && forall j :: 0 <= j < i ==> owned[j] != m
      {
        i := i + 1;
      }
      assert i == IndexOf(owned, m);
      if i < |owned| {
        ghost var rest := SwapRemove(owned, m);
        assert forall k :: k in rest ==> k in owned;
        SetTask(current, tasks[current].(owned := owned[i := owned[|owned| - 1]][..|owned| - 1]));
      }
    }

    /** os_mutex_unlock. The new owner's array of owned mutexes has a free place. */
    method MutexUnlock(m: int) returns (r: Ret)
      requires Valid() && KInv(model) && MayBlock(model) && 0 <= m < |mutexes|
      modifies this`model, this`pending, tasks, mutexes[m], lists, set l | l in lists :: l.slots
      ensures Valid() && |mutexes| == |old(model).mutexes|
      ensures Pickable(Spec.Disown(old(model), m), old(model).mutexes[m].wl)
      ensures Outcome(model, r) == Spec.MutexUnlock(old(model), m)
      ensures KInv(model)
    {
      hide Valid, Wf, KInv, Spec.Disown, Spec.Unblock, Spec.RecomputePriority, Pickable, Chosen;
      RegisterFacts();
      MutexFacts(m);
      UnlockKeeps(model, m);
      if mutexes[m].owner != current {
        return Returns(NotOwner);
      }
      Disown(m);
      UnlockRoom(old(model), m);
      var next := Unblock(mutexes[m].wl);
      if next != NULL {
        RecomputePriority(mutexes[m].owner);
        ghost var s2 := model;
        RegisterFacts();
        TaskFacts(next);
        assert |tasks[next].owned| < cfg.maxOwned;
        SetTask(next, tasks[next].(owned := tasks[next].owned + [m]));
        RegisterFacts();
        MutexFacts(m);
        SetMutex(m, next, mutexes[m].locked);
        RegisterFacts();
        MutexFacts(m);
        TransferPends(s2, model, m, next);
        RecomputePriority(mutexes[m].owner);
        Yield();
      } else {
        SetMutex(m, NULL, false);
      }
      return Returns(Ok);
    }

    // -------------------------------------------------------------- queues

    /** `item` is application memory, apart from everything the kernel writes. */
    ghost predicate Outside(item: array<Byte>) {
      && item as object != tasks
      && (forall q :: 0 <= q < |queues| ==> queues[q].buffer != item)
      && (forall l :: 0 <= l < |lists| ==> lists[l].slots as object != item)
    }

    lemma QueueFacts(q: int)
      requires Valid() && 0 <= q < |queues|
      ensures |queues| == |model.queues| && QueueIs(q, model.queues[q]) && WfQueue(model, model.queues[q])
      ensures |model.queues[q].items| == queues[q].count && 0 <= queues[q].swl < |lists| && 0 <= queues[q].rwl < |lists|
    {
      assert QueueIs(q, model.queues[q]);
    }

    /** Stores to one queue leave the others alone. */
    method PushInto(q: int, item: array<Byte>, ghost qs: seq<Queue>)
      requires Apart() && QueuesAre(qs) && 0 <= q < |queues| && queues[q].count < queues[q].maxItems
      requires item != queues[q].buffer && item.Length == queues[q].itemSize
      modifies queues[q], queues[q].buffer
      ensures QueuesAre(qs[q := qs[q].(items := qs[q].items + [item[..]])])
    {
      assert QueueIs(q, qs[q]);
      queues[q].Push(item);
    }

    method PopFrom(q: int, item: array<Byte>, ghost qs: seq<Queue>)
      requires Apart() && QueuesAre(qs) && 0 <= q < |queues| && queues[q].count > 0
      requires item.Length == queues[q].itemSize && forall p :: 0 <= p < |queues| ==> queues[p].buffer != item
      modifies queues[q], item
      ensures qs[q].items != [] && item[..] == qs[q].items[0]
      ensures QueuesAre(qs[q := qs[q].(items := qs[q].items[1..])])
    {
      assert QueueIs(q, qs[q]);
      queues[q].Pop(item);
    }

    method DropAt(q: int, ghost qs: seq<Queue>)
      requires Apart() && QueuesAre(qs) && 0 <= q < |queues|
      modifies queues[q]
      ensures QueuesAre(qs[q := qs[q].(dropped := (qs[q].dropped + 1) % U32)])
    {
      assert QueueIs(q, qs[q]);
      queues[q].CountDrop();
    }

    /** The copy into the buffer of os_queue_send_from_task. */
    method PutItem(q: int, item: array<Byte>)
      requires Valid() && 0 <= q < |queues| && queues[q].count < queues[q].maxItems
      requires Outside(item) && item.Length == queues[q].itemSize
      modifies this`model, queues[q], queues[q].buffer
      ensures |old(model).queues| == |queues| && Valid() && model == Spec.PutItem(old(model), q, item[..])
    {
      hide Wf, TasksAre, ListsAre, MutexesAre, SemsAre, QueuesAre;
      QueueFacts(q);
      ghost var r := Spec.PutItem(model, q, item[..]);
      PushInto(q, item, model.queues);
      model := r;
    }

    /** The copy out of the buffer of os_queue_recv_from_task. */
    method TakeItem(q: int, item: array<Byte>)
      requires Valid() && 0 <= q < |queues| && queues[q].count > 0
      requires Outside(item) && item.Length == queues[q].itemSize
      modifies this`model, queues[q], item
      ensures |old(model).queues| == |queues| && Valid() && model == Spec.TakeItem(old(model), q)
      ensures item[..] == old(model).queues[q].items[0]
    {
      hide Wf, TasksAre, ListsAre, MutexesAre, SemsAre, QueuesAre;
      QueueFacts(q);
      ghost var r := Spec.TakeItem(model, q);
      PopFrom(q, item, model.queues);
      model := r;
    }

    /** The diagnosis counter of os_queue_send_from_isr. */
    method CountDrop(q: int)
      requires Valid() && 0 <= q < |queues|
      modifies this`model, queues[q]
      ensures Valid() && |old(model).queues| == |queues|
      ensures model == old(model).(queues :=
        old(model).queues[q := old(model).queues[q].(dropped := (old(model).queues[q].dropped + 1) % U32)])
    {
      hide Wf, TasksAre, ListsAre, MutexesAre, SemsAre, QueuesAre;
      QueueFacts(q);
      ghost var r :=
        model.(queues := model.queues[q := model.queues[q].(dropped := (model.queues[q].dropped + 1) % U32)]);
      DropWf(model, q, r);
      DropAt(q, model.queues);
      model := r;
    }

    /** An unusable queue: give up, or block until its original deadline. */
    method QueueStall(w: int, timeout: int, deadline: int, reason: Reason) returns (r: Ret)
      requires Valid() && 0 <= w < |lists| && 0 <= timeout < U32 && 0 <= deadline < U32
      requires reason == ReasonOf(lists[w].home)
      modifies this`model, this`pending, tasks, lists[w], lists[w].slots
      ensures Valid() && Outcome(model, r) == Spec.QueueStall(old(model), w, timeout, deadline)
    {
      hide Valid, Wf, BlockOn;
      RegisterFacts();
      if timeout == 0 {
        return Returns(Unavailable);
      }
      var remaining := WAIT_FOREVER;
      if deadline != 0 {
        if (tick - deadline) % U32 < HALF {
          return Returns(Unavailable);
        }
        remaining := (deadline - tick) % U32;
      }
      r := BlockCurrent(w, remaining, reason);
    }

    /** One pass of os_queue_send_from_task from its recheck to its return or block. */
    method QueueSend(q: int, item: array<Byte>, timeout: int, deadline: int) returns (r: Ret)
      requires Valid() && KInv(model) && (timeout == 0 || MayBlock(model)) && Word(timeout) && Word(deadline)
      requires 0 <= q < |queues| && Outside(item) && item.Length == queues[q].itemSize
      modifies this`model, this`pending, tasks, queues[q], queues[q].buffer, lists, set l | l in lists :: l.slots
      ensures Valid() && |old(model).queues| == |queues|
      ensures |item[..]| == old(model).queues[q].itemSize && Pickable(old(model), old(model).queues[q].rwl)
      ensures Outcome(model, r) == Spec.QueueSend(old(model), q, item[..], timeout, deadline)
      ensures KInv(model)
    {
      hide Valid, Wf, KInv, Spec.QueueStall, Spec.Release, Spec.PutItem, Pick, Pickable;
      RegisterFacts();
      QueueFacts(q);
      InvFacts();
      ghost var after := Spec.QueueSend(model, q, item[..], timeout, deadline);
      QueueSendKeeps(model, q, item[..], timeout, deadline);
      if queues[q].count >= queues[q].maxItems {
        r := QueueStall(queues[q].swl, timeout, deadline, OnSend);
        assert Outcome(model, r) == after;
        return;
      }
      PutItem(q, item);
      PutPickable(old(model), q, item[..], queues[q].rwl);
      Release(queues[q].rwl);
      r := Returns(Ok);
      assert Outcome(model, r) == after;
    }

    /** One pass of os_queue_recv_from_task from its recheck to its return or block. */
    method QueueRecv(q: int, item: array<Byte>, timeout: int, deadline: int) returns (r: Ret)
      requires Valid() && KInv(model) && (timeout == 0 || MayBlock(model)) && Word(timeout) && Word(deadline)
      requires 0 <= q < |queues| && Outside(item) && item.Length == queues[q].itemSize
      modifies this`model, this`pending, tasks, queues[q], item, lists, set l | l in lists :: l.slots
      ensures Valid() && |old(model).queues| == |queues| && Pickable(old(model), old(model).queues[q].swl)
      ensures Outcome(model, r) == Spec.QueueRecv(old(model), q, timeout, deadline)
      ensures r.Gives? ==> item[..] == r.item
      ensures !r.Gives? ==> item[..] == old(item[..])
      ensures KInv(model)
    {
      hide Valid, Wf, KInv, Spec.QueueStall, Spec.Release, Spec.TakeItem, Pick, Pickable;
      RegisterFacts();
      QueueFacts(q);
      InvFacts();
      QueueRecvKeeps(model, q, timeout, deadline);
      if queues[q].count == 0 {
        StallGivesNothing(model, queues[q].rwl, timeout, deadline);
        r := QueueStall(queues[q].rwl, timeout, deadline, OnRecv);
        return;
      }
      TakeItem(q, item);
      TakePickable(old(model), q, queues[q].swl);
      Release(queues[q].swl);
      return Gives(item[..]);
    }

    /** The deadline that a queue call computes on entry. */
    method DeadlineFor(timeout: int) returns (deadline: int)
      requires Valid() && Word(timeout)
      ensures Word(deadline) && deadline == DeadlineOf(model.tick, timeout)
    {
      RegisterFacts();
      return if timeout == WAIT_FOREVER then 0 else (tick + timeout) % U32;
    }

    /** os_queue_send_from_task, up to its return or its first block. */
    method SendFromTask(q: int, item: array<Byte>, timeout: int) returns (r: Ret)
      requires Valid() && KInv(model) && MayBlock(model) && Word(timeout)
      requires 0 <= q < |queues| && Outside(item) && item.Length == queues[q].itemSize
      modifies this`model, this`pending, tasks, queues[q], queues[q].buffer, lists, set l | l in lists :: l.slots
      ensures Valid() && |old(model).queues| == |queues|
      ensures |item[..]| == old(model).queues[q].itemSize && Pickable(old(model), old(model).queues[q].rwl)
      ensures Word(DeadlineOf(old(model).tick, timeout))
      ensures Outcome(model, r) ==
        Spec.QueueSend(old(model), q, item[..], timeout, DeadlineOf(old(model).tick, timeout))
      ensures KInv(model)
    {
      hide Valid, Wf, KInv, Spec.QueueSend, Outside;
      var deadline := DeadlineFor(timeout);
      r := QueueSend(q, item, timeout, deadline);
    }

    /** os_queue_send_from_task after it was blocked: it gives up if the tick woke it, otherwise it
        checks the queue again. */
    method ResumeSend(q: int, item: array<Byte>, timeout: int, deadline: int) returns (r: Ret)
      requires Valid() && KInv(model) && MayBlock(model) && Word(timeout) && Word(deadline)
      requires 0 <= q < |queues| && Outside(item) && item.Length == queues[q].itemSize
      modifies this`model, this`pending, tasks, queues[q], queues[q].buffer, lists, set l | l in lists :: l.slots
      ensures Valid() && |old(model).queues| == |queues|
      ensures |item[..]| == old(model).queues[q].itemSize && Pickable(old(model), old(model).queues[q].rwl)
      ensures Outcome(model, r) ==
        if old(model).tasks[old(model).current].timeout then Outcome(old(model), Returns(Unavailable))
        else Spec.QueueSend(old(model), q, item[..], timeout, deadline)
      ensures KInv(model)
    {
      hide Valid, Wf, KInv, Spec.QueueSend, Outside;
      RegisterFacts();
      TaskFacts(current);
      QueueFacts(q);
      QueueSendKeeps(model, q, item[..], timeout, deadline);
      if tasks[current].timeout {
        return Returns(Unavailable);
      }
      r := QueueSend(q, item, timeout, deadline);
    }

    /** os_queue_recv_from_task, up to its return or its first block. */
    method RecvFromTask(q: int, item: array<Byte>, timeout: int) returns (r: Ret)
      requires Valid() && KInv(model) && MayBlock(model) && Word(timeout)
      requires 0 <= q < |queues| && Outside(item) && item.Length == queues[q].itemSize
      modifies this`model, this`pending, tasks, queues[q], item, lists, set l | l in lists :: l.slots
      ensures Valid() && |old(model).queues| == |queues| && Pickable(old(model), old(model).queues[q].swl)
      ensures Word(DeadlineOf(old(model).tick, timeout))
      ensures Outcome(model, r) == Spec.QueueRecv(old(model), q, timeout, DeadlineOf(old(model).tick, timeout))
      ensures r.Gives? ==> item[..] == r.item
      ensures !r.Gives? ==> item[..] == old(item[..])
      ensures KInv(model)
    {
      hide Valid, Wf, KInv, Spec.QueueRecv, Outside;
      var deadline := DeadlineFor(timeout);
      r := QueueRecv(q, item, timeout, deadline);
    }

    /** os_queue_recv_from_task after it was blocked. */
    method ResumeRecv(q: int, item: array<Byte>, timeout: int, deadline: int) returns (r: Ret)
      requires Valid() && KInv(model) && MayBlock(model) && Word(timeout) && Word(deadline)
      requires 0 <= q < |queues| && Outside(item) && item.Length == queues[q].itemSize
      modifies this`model, this`pending, tasks, queues[q], item, lists, set l | l in lists :: l.slots
      ensures Valid() && |old(model).queues| == |queues| && Pickable(old(model), old(model).queues[q].swl)
      ensures Outcome(model, r) ==
        if old(model).tasks[old(model).current].timeout then Outcome(old(model), Returns(Unavailable))
        else Spec.QueueRecv(old(model), q, timeout, deadline)
      ensures r.Gives? ==> item[..] == r.item
      ensures !r.Gives? ==> item[..] == old(item[..])
      ensures KInv(model)
    {
      hide Valid, Wf, KInv, Spec.QueueRecv, Outside;
      RegisterFacts();
      TaskFacts(current);
      QueueFacts(q);
      QueueRecvKeeps(model, q, timeout, deadline);
      if tasks[current].timeout {
        return Returns(Unavailable);
      }
      r := QueueRecv(q, item, timeout, deadline);
    }

    /** waitlist_unblock, and port_yield if it woke somebody. */
    method Release(w: int)
      requires Valid() && 0 <= w < |lists| && Pickable(model, w)
      modifies this`model, this`pending, tasks, lists[w], lists[w].slots
      ensures |lists| == |old(model).lists| && Pickable(old(model), w)
      ensures Valid() && model == Spec.Release(old(model), w)
    {
      hide Valid, Wf, Pick;
      RegisterFacts();
      var woken := Unblock(w);
      if woken != NULL {
        Yield();
      }
    }

    /** os_queue_send_from_isr. */
    method IsrSend(q: int, item: array<Byte>) returns (r: Ret)
      requires Valid() && KInv(model) && 0 <= q < |queues| && Outside(item) && item.Length == queues[q].itemSize
      modifies this`model, this`pending, tasks, queues[q], queues[q].buffer, lists, set l | l in lists :: l.slots
      ensures Valid() && |old(model).queues| == |queues|
      ensures |item[..]| == old(model).queues[q].itemSize && Pickable(old(model), old(model).queues[q].rwl)
      ensures Outcome(model, r) == Spec.IsrSend(old(model), q, item[..])
      ensures KInv(model)
    {
      hide Valid, Wf, KInv, Spec.QueueSend, Pickable;
      RegisterFacts();
      QueueFacts(q);
      IsrSendKeeps(model, q, item[..]);
      ghost var after := Spec.IsrSend(model, q, item[..]);
      r := QueueSend(q, item, 0, tick);
      if r == Returns(Unavailable) {
        CountDrop(q);
      }
      assert Outcome(model, r) == after;
    }

    /** os_queue_recv_from_isr. */
    method IsrRecv(q: int, item: array<Byte>) returns (r: Ret)
      requires Valid() && KInv(model) && 0 <= q < |queues| && Outside(item) && item.Length == queues[q].itemSize
      modifies this`model, this`pending, tasks, queues[q], item, lists, set l | l in lists :: l.slots
      ensures Valid() && |old(model).queues| == |queues| && Pickable(old(model), old(model).queues[q].swl)
      ensures Outcome(model, r) == Spec.IsrRecv(old(model), q)
      ensures r.Gives? ==> item[..] == r.item
      ensures !r.Gives? ==> item[..] == old(item[..])
      ensures KInv(model)
    {
      hide Valid, Wf, KInv, Spec.QueueRecv, Pickable;
      RegisterFacts();
      QueueFacts(q);
      r := QueueRecv(q, item, 0, tick);
    }

    // -------------------------------------------------------------- actions

    /** An application's buffer with the given bytes. */
    method Buffer(x: Item) returns (b: array<Byte>)
      requires Valid()
      ensures fresh(b) && b[..] == x && Outside(b)
    {
      b := new Byte[|x|](i requires 0 <= i < |x| => x[i]);
      assert b[..] == x;
      hide Valid;
    }

    method PerformIrq(ghost calls: seq<Call>, a: Action) returns (r: Ret)
      requires Valid() && SysInv(Sys(model, calls)) && Legal(Sys(model, calls), a)
      requires a.TickIrq? || a.Switch? || a.IsrPut? || a.IsrGet?
      modifies this, tasks, lists, set l | l in lists :: l.slots
      modifies queues, set q | q in queues :: q.buffer
      ensures Valid() && Outcome(model, r) == Act(old(Sys(model, calls)), a)
    {
      hide Valid, SysInv, KInv, Wf;
      Ranges(Sys(model, calls));
      RegisterFacts();
      if a.TickIrq? {
        TickIrq();
        return Returns(Ok);
      } else if a.Switch? {
        ScheduleNext();
        return Returns(Ok);
      } else if a.IsrPut? {
        QueueFacts(a.iq);
        var b := Buffer(a.iitem);
        r := IsrSend(a.iq, b);
      } else {
        QueueFacts(a.gq);
        var b := new Byte[queues[a.gq].itemSize];
        r := IsrRecv(a.gq, b);
      }
    }

    method PerformSem(ghost calls: seq<Call>, a: Action) returns (r: Ret)
      requires Valid() && SysInv(Sys(model, calls)) && Legal(Sys(model, calls), a)
      requires a.DoDelay? || a.DoWait? || a.DoPost?
      modifies this, tasks, lists, (set l | l in lists :: l.slots), sems
      ensures Valid() && Outcome(model, r) == Act(old(Sys(model, calls)), a)
    {
      hide Valid, SysInv, KInv, Wf;
      Ranges(Sys(model, calls));
      RegisterFacts();
      TaskFacts(current);
      if a.DoDelay? {
        TaskDelay(a.ticks);
        return Returns(Ok);
      } else if a.DoWait? {
        r := SemWait(a.wsem, a.wtimeout);
      } else {
        SemPost(a.psem);
        return Returns(Ok);
      }
    }

    method PerformMutex(ghost calls: seq<Call>, a: Action) returns (r: Ret)
      requires Valid() && SysInv(Sys(model, calls)) && Legal(Sys(model, calls), a) && (a.DoLock? || a.DoUnlock?)
      modifies this, tasks, lists, (set l | l in lists :: l.slots), mutexes
      ensures Valid() && Outcome(model, r) == Act(old(Sys(model, calls)), a)
    {
      hide Valid, SysInv, KInv, Wf, Spec.MutexLock, Spec.MutexUnlock;
      Ranges(Sys(model, calls));
      RegisterFacts();
      TaskFacts(current);
      if a.DoLock? {
        r := MutexLock(a.lmutex, a.ltimeout);
      } else {
        r := MutexUnlock(a.umutex);
      }
    }

    method PerformQueue(ghost calls: seq<Call>, a: Action) returns (r: Ret)
      requires Valid() && SysInv(Sys(model, calls)) && Legal(Sys(model, calls), a) && (a.DoSend? || a.DoRecv?)
      modifies this, tasks, lists, set l | l in lists :: l.slots
      modifies queues, set q | q in queues :: q.buffer
      ensures Valid() && Outcome(model, r) == Act(old(Sys(model, calls)), a)
    {
      hide Valid, SysInv, KInv, Wf, Spec.QueueSend, Spec.QueueRecv;
      Ranges(Sys(model, calls));
      RegisterFacts();
      if a.DoSend? {
        QueueFacts(a.dq);
        var b := Buffer(a.ditem);
        r := SendFromTask(a.dq, b, a.dtimeout);
      } else {
        QueueFacts(a.vq);
        var b := new Byte[queues[a.vq].itemSize];
        r := RecvFromTask(a.vq, b, a.vtimeout);
      }
    }

    method PerformResume(calls: seq<Call>) returns (r: Ret)
      requires Valid() && SysInv(Sys(model, calls)) && Legal(Sys(model, calls), Resume)
      modifies this, tasks, lists, set l | l in lists :: l.slots
      modifies queues, set q | q in queues :: q.buffer
      ensures Valid() && Outcome(model, r) == Act(old(Sys(model, calls)), Resume)
    {
      hide Valid, SysInv, KInv, Wf, Spec.QueueSend, Spec.QueueRecv, Spec.MutexResume;
      Ranges(Sys(model, calls));
      RegisterFacts();
      match calls[current]
      case WaitSem(i) =>
        var e := WaitResult();
        return Returns(e);
      case WaitMutex(m) =>
        r := MutexResume(m);
      case Sending(q, x, n, d) =>
        QueueFacts(q);
        var b := Buffer(x);
        r := ResumeSend(q, b, n, d);
      case Receiving(q, n, d) =>
        QueueFacts(q);
        var b := new Byte[queues[q].itemSize];
        r := ResumeRecv(q, b, n, d);
    }

    /** One action of the system on the tables: they go where `Step` goes, and the caller is told
        what `Act` says. `calls` holds what each task's stack remembers of a blocked call. */
    method Perform(calls: seq<Call>, a: Action) returns (r: Ret, after: seq<Call>)
      requires Valid() && SysInv(Sys(model, calls)) && Legal(Sys(model, calls), a)
      modifies this, tasks, lists, (set l | l in lists :: l.slots), mutexes, sems
      modifies queues, set q | q in queues :: q.buffer
      ensures Valid() && r == Act(old(Sys(model, calls)), a).ret
      ensures Sys(model, after) == Step(old(Sys(model, calls)), a) && SysInv(Sys(model, after))
    {
      hide Valid, SysInv, KInv, Wf, Act, Legal;
      ghost var y := Sys(model, calls);
      RegisterFacts();
      Ranges(y);
      StepKeeps(y, a);
      var caller, now := current, tick;
      if a.TickIrq? || a.Switch? || a.IsrPut? || a.IsrGet? {
        r := PerformIrq(calls, a);
      } else if a.DoDelay? || a.DoWait? || a.DoPost? {
        r := PerformSem(calls, a);
      } else if a.DoLock? || a.DoUnlock? {
        r := PerformMutex(calls, a);
      } else if a.DoSend? || a.DoRecv? {
        r := PerformQueue(calls, a);
      } else {
        r := PerformResume(calls);
      }
      after := calls;
      if r == Blocks {
        after := calls[caller := CallMade(calls[caller], a, now)];
      } else if a == Resume {
        after := calls[caller := NoCall];
      }
      assert CallOf(y, a) == CallMade(calls[caller], a, now);
    }
  }
}
