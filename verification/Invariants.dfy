/** What every atomic region keeps: agreement between task records and wait lists, mutex
    ownership, and the priority discipline. */
module Invariants {
  import opened Types
  import opened Inheritance
  import opened Spec

  // ---------------------------------------------------------------- the invariants

  ghost predicate AgreeTask(s: State, t: int)
    requires Wf(s) && 0 <= t < |s.tasks|
  {
    var x := s.tasks[t];
    && WfTask(s, x)
    && (x.blockedOn != NULL ==>
        t in s.lists[x.blockedOn].waiters && x.state == Blocked && x.reason == ReasonOf(s.lists[x.blockedOn].home))
    && (x.state == Blocked && x.blockedOn == NULL ==> x.reason == OnDelay)
    && (x.state != Blocked ==> x.blockedOn == NULL && x.reason == NoReason)
    && (x.state == Running ==> t == s.current)
  }

  ghost predicate AgreeList(s: State, l: int)
    requires Wf(s) && 0 <= l < |s.lists|
  {
    && WfList(s, s.lists[l])
    && NoDup(s.lists[l].waiters)
    && (forall t :: t in s.lists[l].waiters ==> 0 < t < |s.tasks| && s.tasks[t].blockedOn == l)
  }

  /** Task records and wait lists tell the same story. */
  ghost predicate Agree(s: State) {
    && Wf(s)
    && (forall t :: 0 <= t < |s.tasks| ==> AgreeTask(s, t))
    && (forall l :: 0 <= l < |s.lists| ==> AgreeList(s, l))
    && s.tasks[0].state != Blocked
  }

  ghost predicate OwnMutex(s: State, m: int)
    requires Wf(s) && 0 <= m < |s.mutexes|
  {
    var x := s.mutexes[m];
    && WfMutex(s, x)
    && s.lists[x.wl].home == InMutex(m) && s.lists[x.wl].policy == Priority
    && (x.locked <==> x.owner != NULL)
    && (x.owner == NULL ==> s.lists[x.wl].waiters == [])
    && (x.owner != NULL ==>
        0 < x.owner < |s.tasks| && m in s.tasks[x.owner].owned && s.tasks[x.owner].blockedOn != x.wl)
  }

  ghost predicate OwnTask(s: State, t: int)
    requires Wf(s) && 0 <= t < |s.tasks|
  {
    var x := s.tasks[t];
    && WfTask(s, x)
    && NoDup(x.owned)
    && (forall m :: m in x.owned ==> s.mutexes[m].owner == t)
    && |x.owned| <= s.cfg.maxOwned
    && (x.reason == OnMutex ==> |x.owned| < s.cfg.maxOwned)
  }

  ghost predicate Wiring(s: State)
    requires Wf(s)
  {
    && (forall l :: 0 <= l < |s.lists| && s.lists[l].home.InMutex? ==>
        WfList(s, s.lists[l]) && s.mutexes[s.lists[l].home.mutex].wl == l)
    && (forall i :: 0 <= i < |s.sems| ==> s.lists[s.sems[i].wl].home == InSem(i))
    && (forall q :: 0 <= q < |s.queues| ==>
        && WfQueue(s, s.queues[q])
        && s.lists[s.queues[q].swl].home == InSend(q) && s.lists[s.queues[q].rwl].home == InRecv(q))
  }

  /** Owners, owned-mutex arrays and mutex states tell the same story. */
  ghost predicate Own(s: State) {
    && Wf(s) && Wiring(s)
    && (forall m :: 0 <= m < |s.mutexes| ==> OwnMutex(s, m))
    && (forall t :: 0 <= t < |s.tasks| ==> OwnTask(s, t))
  }

  /** Effective priorities are never weaker than base priorities; the idle task is weakest. */
  ghost predicate Prio(s: State) {
    && Wf(s)
    && s.tasks[0].base == s.tasks[0].eff == s.cfg.lowest + 1
    && (forall t :: 0 < t < |s.tasks| ==> s.tasks[t].eff <= s.tasks[t].base <= s.cfg.lowest)
  }

  /** No owner is weaker than a task waiting on one of its mutexes. */
  ghost predicate NotUnderBoosted(s: State) {
    Wf(s) && Covered(GraphOf(s).next, Effs(s))
  }

  ghost predicate KInv(s: State) {
    Agree(s) && Own(s) && Prio(s) && NotUnderBoosted(s)
  }

  // ---------------------------------------------------------------- consequences

  /** A task is blocked on a list exactly when it is in it, and then exactly once. */
  lemma AgreementIff(s: State, t: int, l: int)
    requires Agree(s) && 0 <= t < |s.tasks| && 0 <= l < |s.lists|
    ensures t in s.lists[l].waiters <==> s.tasks[t].state == Blocked && s.tasks[t].blockedOn == l
    ensures t in s.lists[l].waiters ==> multiset(s.lists[l].waiters)[t] == 1
  {
    assert AgreeTask(s, t) && AgreeList(s, l);
    if t in s.lists[l].waiters {
      NoDupCount(s.lists[l].waiters, t);
    }
  }

  /** A task owns a mutex exactly when the mutex is in its owned array, and then exactly once; a
      mutex is locked exactly when it is owned; nobody waits for a free one and no owner waits for
      its own. */
  lemma OwnershipIff(s: State, t: int, m: int)
    requires Agree(s) && Own(s) && 0 <= t < |s.tasks| && 0 <= m < |s.mutexes|
    ensures s.mutexes[m].owner == t <==> m in s.tasks[t].owned
    ensures m in s.tasks[t].owned ==> multiset(s.tasks[t].owned)[m] == 1
    ensures s.mutexes[m].locked <==> s.mutexes[m].owner != NULL
    ensures WfMutex(s, s.mutexes[m])
    ensures !s.mutexes[m].locked ==> s.lists[s.mutexes[m].wl].waiters == []
    ensures s.mutexes[m].owner == t ==> t !in s.lists[s.mutexes[m].wl].waiters
  {
    assert OwnTask(s, t) && OwnMutex(s, m) && AgreeList(s, s.mutexes[m].wl);
    if m in s.tasks[t].owned {
      NoDupCount(s.tasks[t].owned, m);
    }
  }

  lemma {:induction false} NoDupCount(ws: seq<int>, t: int)
    requires NoDup(ws)
    ensures multiset(ws)[t] == if t in ws then 1 else 0
  {
    if ws != [] {
      var k := |ws| - 1;
      assert ws == ws[..k] + [ws[k]];
      NoDupCount(ws[..k], t);
    }
  }

  /** OS_ERR_WAITLIST_FULL cannot be returned: a list never holds the idle task nor the running
      one, so it always has room. */
  lemma {:induction false} ListHasRoom(s: State, l: int)
    requires Agree(s) && 0 <= l < |s.lists|
    ensures |s.lists[l].waiters| < |s.tasks|
  {
    var ws := s.lists[l].waiters;
    assert AgreeList(s, l);
    DistinctCount(ws);
    var below := (set x | x in ws) + {0};
    assert 0 !in ws;
    CountBelow(below, |s.tasks|);
  }

  /** The wait-for graph recorded at owners and the one recorded at waiters coincide. */
  lemma GraphConsistent(s: State)
    requires Agree(s) && Own(s)
    ensures Consistent(GraphOf(s))
  {
    var g := GraphOf(s);
    forall t, w | 0 <= t < |s.tasks| && 0 <= w < |s.tasks|
      ensures w in g.waiters[t] <==> g.next[w] == t
    {
      EdgeIff(s, w, t);
    }
    forall t | 0 <= t < |s.tasks|
      ensures g.next[t] != t
    {
      EdgeOf(s, t);
    }
  }

  /** Where the edge of a blocked task leads. */
  lemma EdgeOf(s: State, w: int)
    requires Agree(s) && Own(s) && 0 <= w < |s.tasks|
    ensures s.tasks[w].reason != OnMutex ==> Next(s, w) == NULL
    ensures s.tasks[w].reason == OnMutex ==>
      var m := s.lists[s.tasks[w].blockedOn].home.mutex;
      && 0 <= m < |s.mutexes| && s.mutexes[m].wl == s.tasks[w].blockedOn
      && Next(s, w) == s.mutexes[m].owner && 0 < Next(s, w) < |s.tasks| && Next(s, w) != w
      && m in s.tasks[Next(s, w)].owned && w in s.lists[s.mutexes[m].wl].waiters
  {
    assert AgreeTask(s, w) && OwnTask(s, w);
    if s.tasks[w].reason == OnMutex {
      var l := s.tasks[w].blockedOn;
      assert WfList(s, s.lists[l]);
      var m := s.lists[l].home.mutex;
      assert OwnMutex(s, m);
    }
  }

  lemma EdgeIff(s: State, w: int, t: int)
    requires Agree(s) && Own(s) && 0 <= w < |s.tasks| && 0 <= t < |s.tasks|
    ensures w in GraphOf(s).waiters[t] <==> Next(s, w) == t
  {
    assert OwnTask(s, t) && AgreeTask(s, w);
    EdgeOf(s, w);
    WaitersOnMembers(s, s.tasks[t].owned, w);
    if m :| m in s.tasks[t].owned && w in s.lists[s.mutexes[m].wl].waiters {
      assert OwnMutex(s, m) && AgreeList(s, s.mutexes[m].wl);
    }
  }

  /** waitlist_unblock always finds an entry in a non-empty list. */
  lemma AlwaysPickable(s: State, w: int)
    requires Agree(s) && Prio(s) && 0 <= w < |s.lists|
    ensures Pickable(s, w)
  {
    if s.lists[w].waiters != [] {
      assert AgreeList(s, w);
      var t := s.lists[w].waiters[0];
      assert t in s.lists[w].waiters && Effs(s)[t] == s.tasks[t].eff;
    }
  }

  // ---------------------------------------------------------------- frames

  /** The part of a state the invariants speak of is unchanged. */
  ghost predicate SameCore(s: State, r: State) {
    && r.cfg == s.cfg && r.tasks == s.tasks && r.lists == s.lists && r.mutexes == s.mutexes
    && (r.current == s.current || forall t :: 0 <= t < |s.tasks| ==> s.tasks[t].state != Running)
    && |r.sems| == |s.sems| && (forall i :: 0 <= i < |s.sems| ==> r.sems[i].wl == s.sems[i].wl)
    && |r.queues| == |s.queues|
    && (forall q :: 0 <= q < |s.queues| ==> r.queues[q].swl == s.queues[q].swl && r.queues[q].rwl == s.queues[q].rwl)
  }

  lemma CoreFrame(s: State, r: State)
    requires KInv(s) && Wf(r) && SameCore(s, r)
    ensures KInv(r)
  {
    forall t | 0 <= t < |r.tasks|
      ensures AgreeTask(r, t) && OwnTask(r, t) && Next(r, t) == Next(s, t)
    {
      assert AgreeTask(s, t) && OwnTask(s, t);
    }
    forall l | 0 <= l < |r.lists|
      ensures AgreeList(r, l)
    {
      assert AgreeList(s, l);
    }
    forall m | 0 <= m < |r.mutexes|
      ensures OwnMutex(r, m)
    {
      assert OwnMutex(s, m);
    }
    assert forall q :: 0 <= q < |r.queues| ==> WfQueue(r, r.queues[q]);
    assert forall l :: 0 <= l < |r.lists| ==> WfList(r, r.lists[l]);
    assert Effs(r) == Effs(s);
  }

  /** Only effective priorities differ. */
  ghost predicate OnlyEffs(s: State, r: State) {
    && r == s.(tasks := r.tasks) && |r.tasks| == |s.tasks|
    && (forall t :: 0 <= t < |s.tasks| ==> r.tasks[t] == s.tasks[t].(eff := r.tasks[t].eff))
  }

  lemma EffsFrame(s: State, r: State)
    requires Agree(s) && Own(s) && Wf(r) && OnlyEffs(s, r)
    ensures Agree(r) && Own(r) && GraphOf(r) == GraphOf(s)
  {
    forall t | 0 <= t < |r.tasks|
      ensures AgreeTask(r, t) && OwnTask(r, t)
    {
      assert AgreeTask(s, t) && OwnTask(s, t);
    }
    forall l | 0 <= l < |r.lists|
      ensures AgreeList(r, l)
    {
      assert AgreeList(s, l);
    }
    forall m | 0 <= m < |r.mutexes|
      ensures OwnMutex(r, m)
    {
      assert OwnMutex(s, m);
    }
    GraphEffs(s, r);
  }

  /** Effective priorities are no part of the wait-for graph. */
  lemma GraphEffs(s: State, r: State)
    requires Wf(s) && Wf(r) && OnlyEffs(s, r)
    ensures GraphOf(r) == GraphOf(s)
  {
    forall t | 0 <= t < |r.tasks|
      ensures Next(r, t) == Next(s, t) && GraphOf(r).waiters[t] == GraphOf(s).waiters[t]
    {
      assert WfTask(s, s.tasks[t]);
      WaitersSame(s, r, s.tasks[t].owned);
    }
    assert GraphOf(r).next == GraphOf(s).next;
    assert GraphOf(r).base == GraphOf(s).base;
    assert GraphOf(r).waiters == GraphOf(s).waiters;
  }

  lemma {:induction false} WaitersSame(s: State, r: State, ms: seq<int>)
    requires Wf(s) && Wf(r) && |r.mutexes| == |s.mutexes| && |r.lists| == |s.lists|
    requires forall m :: m in ms ==> 0 <= m < |s.mutexes| && r.mutexes[m].wl == s.mutexes[m].wl
    requires forall m :: m in ms ==> r.lists[s.mutexes[m].wl].waiters == s.lists[s.mutexes[m].wl].waiters
    ensures WaitersOn(r, ms) == WaitersOn(s, ms)
  {
    if ms != [] {
      var k := |ms| - 1;
      assert ms[k] in ms;
      assert forall m :: m in ms[..k] ==> m in ms;
      WaitersSame(s, r, ms[..k]);
    }
  }
}
