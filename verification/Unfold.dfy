/** The specification functions one step at a time, as the loops of the kernel need them. */
module Unfold {
  import opened Types
  import opened Inheritance
  import opened Spec
  import opened Invariants
  import opened Preserve
  import opened Runs

  /** The blocking call that an action is, `c` being the one that its task is in already. */
  function CallMade(c: Call, a: Action, tick: int): Call {
    match a
    case DoWait(i, _) => WaitSem(i)
    case DoLock(m, _) => WaitMutex(m)
    case DoSend(q, x, n) => Sending(q, x, n, DeadlineOf(tick, n))
    case DoRecv(q, n) => Receiving(q, n, DeadlineOf(tick, n))
    case _ => c
  }

  // ---------------------------------------------------------------- the walks, hop by hop

  lemma DonateOnce(next: seq<int>, e: seq<int>, o: int, p: int, fuel: nat)
    requires WfNext(next) && |e| == |next| && InRange(o, |e|) && fuel > 0
    ensures Donate(next, e, o, p, fuel) == Donate(next, if e[o] > p then e[o := p] else e, next[o], p, fuel - 1)
  {
  }

  lemma DonateEnd(next: seq<int>, e: seq<int>, o: int, p: int, fuel: nat)
    requires WfNext(next) && |e| == |next| && (o == NULL || InRange(o, |e|)) && (o == NULL || fuel == 0)
    ensures Donate(next, e, o, p, fuel) == e
  {
  }

  lemma RecomputeOnce(g: Graph, e: seq<int>, o: int, fuel: nat)
    requires WfGraph(g) && |e| == |g.next| && InRange(o, |e|) && fuel > 0
    ensures Recompute(g, e, o, fuel) == Recompute(g, e[o := Local(g, e, o)], g.next[o], fuel - 1)
  {
  }

  lemma RecomputeEnd(g: Graph, e: seq<int>, o: int, fuel: nat)
    requires WfGraph(g) && |e| == |g.next| && (o == NULL || InRange(o, |e|)) && (o == NULL || fuel == 0)
    ensures Recompute(g, e, o, fuel) == e
  {
  }

  lemma NoEdge(s: State, t: int)
    requires Wf(s) && 0 <= t < |s.tasks| && s.tasks[t].reason != OnMutex
    ensures GraphOf(s).next[t] == NULL
  {
  }

  lemma SameEffs(s: State)
    ensures OnlyEffs(s, s)
  {
  }

  /** A stored priority changes neither the graph nor any other priority. */
  lemma StoreEff(s: State, r: State, o: int, p: int)
    requires Wf(s) && Wf(r) && 0 <= o < |s.tasks|
    requires r == s.(tasks := s.tasks[o := s.tasks[o].(eff := p)])
    ensures OnlyEffs(s, r) && GraphOf(r) == GraphOf(s) && Effs(r) == Effs(s)[o := p]
  {
    GraphEffs(s, r);
  }

  lemma EffsChain(s0: State, s: State, r: State)
    requires OnlyEffs(s0, s) && OnlyEffs(s, r)
    ensures OnlyEffs(s0, r)
  {
  }

  /** States that differ in priorities only are told apart by them. */
  lemma EffsDecide(s: State, r: State, e: seq<int>)
    requires OnlyEffs(s, r) && Effs(r) == e
    ensures |e| == |s.tasks| && r == SetEffs(s, e)
  {
    assert forall t :: 0 <= t < |e| ==> r.tasks[t] == SetEffs(s, e).tasks[t];
    assert r.tasks == SetEffs(s, e).tasks;
  }

  lemma DonateUnfolds(s: State, o: int)
    requires Wf(s) && (o == NULL || 0 <= o < |s.tasks|)
    ensures Spec.DonatePriority(s, o) ==
      SetEffs(s, Donate(GraphOf(s).next, Effs(s), o, s.tasks[s.current].eff, s.cfg.maxTasks))
  {
  }

  lemma RecomputeUnfolds(s: State, o: int)
    requires Wf(s) && (o == NULL || 0 <= o < |s.tasks|)
    ensures Spec.RecomputePriority(s, o) == SetEffs(s, Recompute(GraphOf(s), Effs(s), o, s.cfg.maxTasks))
  {
  }

  lemma RecomputeKeepsFlags(s: State, o: int)
    requires Wf(s) && (o == NULL || 0 <= o < |s.tasks|)
    ensures Verdict(Spec.RecomputePriority(s, o)) == Verdict(s)
  {
  }

  /** The pending bit plays no part in a recomputation. */
  lemma RecomputePending(s: State, o: int)
    requires Wf(s) && (o == NULL || 0 <= o < |s.tasks|)
    ensures Wf(s.(pending := true))
    ensures Spec.RecomputePriority(s.(pending := true), o) == Spec.RecomputePriority(s, o).(pending := true)
  {
    var r := s.(pending := true);
    WfStep(s, r);
    forall t | 0 <= t < |s.tasks|
      ensures Next(r, t) == Next(s, t) && Dependants(r, t) == Dependants(s, t)
    {
      assert WfTask(s, s.tasks[t]);
      WaitersSame(s, r, s.tasks[t].owned);
    }
    assert GraphOf(r).next == GraphOf(s).next && GraphOf(r).base == GraphOf(s).base;
    assert GraphOf(r).waiters == GraphOf(s).waiters && Effs(r) == Effs(s);
    assert Spec.RecomputePriority(r, o).tasks == Spec.RecomputePriority(s, o).tasks;
  }

  /** Yielding after the transfer of `m` or within it makes no difference. */
  lemma TransferPends(s: State, r: State, m: int, b: int)
    requires Wf(s) && Wf(r) && 0 <= m < |s.mutexes| && 0 <= b < |s.tasks|
    requires r == s.(tasks := s.tasks[b := s.tasks[b].(owned := s.tasks[b].owned + [m])],
                     mutexes := s.mutexes[m := s.mutexes[m].(owner := b)])
    ensures Spec.RecomputePriority(Transfer(s, m, b), b) == Spec.RecomputePriority(r, b).(pending := true)
  {
    RecomputePending(r, b);
    assert Transfer(s, m, b) == r.(pending := true);
  }

  /** An unlock stage by stage; the task that it selects has room for one more mutex. */
  lemma UnlockRoom(s: State, m: int)
    requires KInv(s) && 0 <= m < |s.mutexes| && s.mutexes[m].owner == s.current
    ensures WfMutex(s, s.mutexes[m]) && Pickable(Spec.Disown(s, m), s.mutexes[m].wl)
    ensures Spec.Disown(s, m) == s.(tasks := Spec.Disown(s, m).tasks)
    ensures var l := s.mutexes[m].wl; var b := Chosen(Spec.Disown(s, m), l);
      && (b == NULL ==>
          && Spec.Unblock(Spec.Disown(s, m), l) == Spec.Disown(s, m)
          && Spec.MutexUnlock(s, m) == Outcome(Vacate(Spec.Disown(s, m), m), Returns(Ok)))
      && (b != NULL ==>
          var s2 := Spec.RecomputePriority(Spec.Unblock(Spec.Disown(s, m), l), s.current);
          && 0 <= b < |s2.tasks| && |s2.tasks[b].owned| < s.cfg.maxOwned && |s2.mutexes| == |s.mutexes|
          && Spec.MutexUnlock(s, m) == Outcome(Spec.RecomputePriority(Transfer(s2, m, b), b), Returns(Ok)))
  {
    UnlockReady(s, m);
    var l := s.mutexes[m].wl;
    var b := Chosen(Spec.Disown(s, m), l);
    if b != NULL {
      assert OwnMutex(s, m) && AgreeList(s, l) && AgreeTask(s, b) && OwnTask(s, b);
    }
  }

  lemma WaitersWf(s: State, w: int, ws: seq<int>)
    requires Wf(s) && 0 <= w < |s.lists| && forall t :: t in ws ==> t in s.lists[w].waiters || 0 <= t < |s.tasks|
    ensures Wf(s.(lists := s.lists[w := s.lists[w].(waiters := ws)]))
  {
    assert WfList(s, s.lists[w]);
    WfStep(s, s.(lists := s.lists[w := s.lists[w].(waiters := ws)]));
  }

  lemma DropWf(s: State, q: int, r: State)
    requires Wf(s) && 0 <= q < |s.queues| == |r.queues|
    requires r == s.(queues := s.queues[q := s.queues[q].(dropped := r.queues[q].dropped)])
    ensures Wf(r)
  {
    assert WfQueue(s, s.queues[q]);
    WfStep(s, r);
  }

  lemma PutPickable(s: State, q: int, item: Item, w: int)
    requires Wf(s) && 0 <= q < |s.queues| && |s.queues[q].items| < s.queues[q].maxItems
    requires |item| == s.queues[q].itemSize && 0 <= w < |s.lists| && Pickable(s, w)
    ensures var r := Spec.PutItem(s, q, item); |r.lists| == |s.lists| && Pickable(r, w)
  {
    PickFrame(s, Spec.PutItem(s, q, item), w);
  }

  lemma TakePickable(s: State, q: int, w: int)
    requires Wf(s) && 0 <= q < |s.queues| && s.queues[q].items != [] && 0 <= w < |s.lists| && Pickable(s, w)
    ensures var r := Spec.TakeItem(s, q); |r.lists| == |s.lists| && Pickable(r, w)
  {
    PickFrame(s, Spec.TakeItem(s, q), w);
  }

  lemma StallGivesNothing(s: State, w: int, timeout: int, deadline: int)
    requires Wf(s) && 0 <= w < |s.lists| && Word(timeout) && Word(deadline)
    ensures !Spec.QueueStall(s, w, timeout, deadline).ret.Gives?
  {
  }

  lemma DispatchUnfolds(s: State)
    requires Wf(s)
    ensures var ts := Preempted(s);
      && (|ts| <= 1 ==> Dispatch(s) == s.(tasks := ts, pending := false))
      && (|ts| > 1 ==>
          var (b, p) := Scan(ts, s.current + 1, |ts|, s.cfg.lowest + 1, 0);
          var c := Scan(ts, 1, s.current + 1, b, p).1;
          && 0 <= c < |ts|
          && Dispatch(s) == s.(tasks := ts[c := ts[c].(state := Running)], current := c, pending := false))
  {
    DispatchPick(s);
  }

  lemma ScanOnce(ts: seq<Task>, i: int, end: int, best: int, pick: int)
    requires 0 <= i < end <= |ts|
    ensures Scan(ts, i, end, best, pick) ==
      if ts[i].state == Ready && ts[i].eff < best then Scan(ts, i + 1, end, ts[i].eff, i)
      else Scan(ts, i + 1, end, best, pick)
  {
  }

  lemma ScanEnd(ts: seq<Task>, i: int, end: int, best: int, pick: int)
    requires 0 <= i && i >= end && end <= |ts|
    ensures Scan(ts, i, end, best, pick) == (best, pick)
  {
  }

  // ---------------------------------------------------------------- the nested scan, entry by entry

  /** `WaitersOn` without its obligation on the mutexes. */
  ghost function WaitersOf(s: State, ms: seq<int>): (r: seq<int>)
    requires Wf(s)
    ensures forall w :: w in r ==> 0 <= w < |s.tasks|
  {
    if forall m :: m in ms ==> 0 <= m < |s.mutexes| then WaitersOn(s, ms) else []
  }

  lemma StrongestStart(s: State, t: int)
    requires Wf(s) && 0 <= t < |s.tasks|
    ensures forall w :: w in WaitersOf(s, []) ==> 0 <= w < |Effs(s)|
    ensures MinEff(Effs(s), WaitersOf(s, s.tasks[t].owned[..0]), s.tasks[t].base) == s.tasks[t].base
  {
  }

  predicate InTable(ws: seq<int>, n: int) {
    forall w :: w in ws ==> 0 <= w < n
  }

  lemma MinEffEmpty(e: seq<int>, b: int)
    ensures MinEff(e, [], b) == b
  {
  }

  lemma MinEffNext(e: seq<int>, ws: seq<int>, j: nat, b: int)
    requires j < |ws| && 0 <= ws[j] < |e| && InTable(ws[..j], |e|)
    ensures InTable(ws[..j + 1], |e|) && MinEff(e, ws[..j + 1], b) == Min(MinEff(e, ws[..j], b), e[ws[j]])
  {
    assert ws[..j + 1] == ws[..j] + [ws[j]];
    assert ws[..j + 1][..j] == ws[..j];
  }

  lemma {:induction false} MinEffConcat(e: seq<int>, a: seq<int>, c: seq<int>, b: int)
    requires InTable(a, |e|) && InTable(c, |e|)
    ensures InTable(a + c, |e|) && MinEff(e, a + c, b) == MinEff(e, c, MinEff(e, a, b))
  {
    if c == [] {
      assert a + c == a;
    } else {
      var k := |c| - 1;
      assert (a + c)[..|a| + k] == a + c[..k] && (a + c)[|a| + k] == c[k] && c[k] in c;
      assert forall x :: x in c[..k] ==> x in c;
      MinEffConcat(e, a, c[..k], b);
    }
  }

  lemma WaitersNext(s: State, ms: seq<int>, i: nat)
    requires Wf(s) && i < |ms| && forall m :: m in ms ==> 0 <= m < |s.mutexes|
    ensures 0 <= ms[i] < |s.mutexes| && 0 <= s.mutexes[ms[i]].wl < |s.lists|
    ensures WaitersOf(s, ms[..i + 1]) == WaitersOf(s, ms[..i]) + s.lists[s.mutexes[ms[i]].wl].waiters
  {
    var part := ms[..i + 1];
    assert part[..i] == ms[..i] && part[i] == ms[i] && part[i] in part;
    assert forall m :: m in part ==> m in ms;
    assert forall m :: m in ms[..i] ==> m in ms;
    assert WfMutex(s, s.mutexes[ms[i]]);
  }

  lemma StrongestList(s: State, ms: seq<int>, i: nat, b: int)
    requires Wf(s) && i < |ms| && forall m :: m in ms ==> 0 <= m < |s.mutexes|
    ensures 0 <= ms[i] < |s.mutexes| && 0 <= s.mutexes[ms[i]].wl < |s.lists|
    ensures InTable(s.lists[s.mutexes[ms[i]].wl].waiters, |Effs(s)|)
    ensures MinEff(Effs(s), WaitersOf(s, ms[..i + 1]), b) ==
      MinEff(Effs(s), s.lists[s.mutexes[ms[i]].wl].waiters, MinEff(Effs(s), WaitersOf(s, ms[..i]), b))
  {
    assert ms[i] in ms;
    assert WfMutex(s, s.mutexes[ms[i]]) && WfList(s, s.lists[s.mutexes[ms[i]].wl]);
    WaitersNext(s, ms, i);
    hide Wf, WaitersOf, MinEff;
    MinEffConcat(Effs(s), WaitersOf(s, ms[..i]), s.lists[s.mutexes[ms[i]].wl].waiters, b);
  }

  lemma StrongestEnd(s: State, t: int)
    requires Wf(s) && 0 <= t < |s.tasks|
    ensures MinEff(Effs(s), WaitersOf(s, s.tasks[t].owned[..|s.tasks[t].owned|]), s.tasks[t].base) ==
      Local(GraphOf(s), Effs(s), t)
  {
    assert WfTask(s, s.tasks[t]);
    assert s.tasks[t].owned[..|s.tasks[t].owned|] == s.tasks[t].owned;
  }
}
