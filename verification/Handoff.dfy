/** Direct handoff of a mutex to its strongest waiter (os_mutex_unlock). */
module Handoff {
  import opened Types
  import opened Inheritance
  import opened Spec
  import opened Invariants
  import opened Preserve

  predicate IsMutex(s: State, m: int) {
    Wf(s) && 0 <= m < |s.mutexes| && WfMutex(s, s.mutexes[m])
  }

  /** The current task owns `m` and somebody waits for it. */
  ghost predicate HandsOff(s: State, m: int) {
    && IsMutex(s, m) && KInv(s) && MayBlock(s) && s.mutexes[m].owner == s.current
    && s.lists[s.mutexes[m].wl].waiters != []
  }

  /** The state in which the old owner's priority is recomputed. */
  function Unhooked(s: State, m: int): State
    requires Wf(s) && 0 <= m < |s.mutexes| && WfMutex(s, s.mutexes[m]) && Pickable(Disown(s, m), s.mutexes[m].wl)
  {
    Unblock(Disown(s, m), s.mutexes[m].wl)
  }

  lemma DisownAgree(s: State, m: int)
    requires HandsOff(s, m)
    ensures var s1 := Disown(s, m); var l := s.mutexes[m].wl;
      && Agree(s1) && Pickable(s1, l) && Pick(s1, l) == Pick(s, l) && Chosen(s1, l) == Chosen(s, l)
  {
    var s1 := Disown(s, m);
    forall t | 0 <= t < |s1.tasks|
      ensures AgreeTask(s1, t)
    {
      assert AgreeTask(s, t) && WfTask(s1, s1.tasks[t]);
    }
    SameLists(s, s1);
    AlwaysPickable(s, s.mutexes[m].wl);
    assert Effs(s1) == Effs(s);
  }

  lemma UnhookedAgree(s: State, m: int)
    requires HandsOff(s, m)
    ensures Pickable(Disown(s, m), s.mutexes[m].wl)
    ensures var l := s.mutexes[m].wl; var b := Chosen(s, l); var s2 := Unhooked(s, m);
      && Agree(s2) && 0 < b < |s.tasks| && b != s.current
      && s.tasks[b].reason == OnMutex && s.tasks[b].blockedOn == l
      && s2.tasks[b] == Woken(s.tasks[b], false)
      && s2.tasks[s.current] == s.tasks[s.current].(owned := SwapRemove(s.tasks[s.current].owned, m))
      && (forall t :: 0 <= t < |s.tasks| && t != b && t != s.current ==> s2.tasks[t] == s.tasks[t])
      && s2.lists == s.lists[l := s.lists[l].(waiters := RemoveAt(s.lists[l].waiters, Pick(s, l)))]
      && (forall t :: t in s2.lists[l].waiters <==> t in s.lists[l].waiters && t != b)
  {
    DisownAgree(s, m);
    assert OwnMutex(s, m);
    UnblockAgree(Disown(s, m), s.mutexes[m].wl);
    assert AgreeTask(s, s.current);
  }

  /** Recomputing a task that is blocked on no mutex is one assignment. */
  lemma RecomputeOne(s: State, o: int)
    requires Wf(s) && 0 <= o < |s.tasks| && Next(s, o) == NULL
    ensures Effs(RecomputePriority(s, o)) == Effs(s)[o := Local(GraphOf(s), Effs(s), o)]
    ensures OnlyEffs(s, RecomputePriority(s, o))
  {
    assert Recompute(GraphOf(s), Effs(s), o, s.cfg.maxTasks) == Effs(s)[o := Local(GraphOf(s), Effs(s), o)];
  }

  /** `m` has been taken from the current task and its chosen waiter `b` woken (`s2`), the old
      owner recomputed (`s3`), `m` transferred (`s4`) and the new owner recomputed (`r`). */
  ghost predicate Stages(s: State, m: int, b: int, s2: State, s3: State, s4: State, r: State)
    requires IsMutex(s, m)
  {
    && Wf(s2) && Wf(s3) && Wf(s4) && Wf(r)
    && |s.tasks| == |s2.tasks| == |s3.tasks| == |s4.tasks| && s3.mutexes == s.mutexes
    && b == Chosen(s, s.mutexes[m].wl) && 0 < b < |s.tasks| && b != s.current
    && Effs(s2) == Effs(s) && OnlyEffs(s2, s3)
    && Effs(s3) == Effs(s)[s.current := Local(GraphOf(s2), Effs(s), s.current)]
    && s4 == s3.(tasks := s3.tasks[b := s3.tasks[b].(owned := s3.tasks[b].owned + [m])],
                 mutexes := s3.mutexes[m := s3.mutexes[m].(owner := b)], pending := true)
    && Effs(s4) == Effs(s3) && OnlyEffs(s4, r) && Effs(r) == Effs(s4)[b := Local(GraphOf(s4), Effs(s4), b)]
  }

  lemma HandoffStages(s: State, m: int) returns (b: int, s2: State, s3: State, s4: State, r: State)
    requires HandsOff(s, m)
    ensures Pickable(Disown(s, m), s.mutexes[m].wl) && s2 == Unhooked(s, m)
    ensures r == MutexUnlock(s, m).s && MutexUnlock(s, m).ret == Returns(Ok)
    ensures Stages(s, m, b, s2, s3, s4, r)
  {
    UnlockUnfold(s, m);
    UnhookedAgree(s, m);
    b := Chosen(s, s.mutexes[m].wl);
    s2 := Unhooked(s, m);
    UnhookedFree(s, m, s2);
    s3, s4, r := StagesFrom(s, m, b, s2);
  }

  lemma UnhookedFree(s: State, m: int, s2: State)
    requires HandsOff(s, m) && Pickable(Disown(s, m), s.mutexes[m].wl) && s2 == Unhooked(s, m)
    ensures Next(s2, s.current) == NULL && Effs(s2) == Effs(s)
  {
    UnhookedAgree(s, m);
    assert AgreeTask(s, s.current);
    assert Effs(s2) == Effs(s);
  }

  lemma StagesFrom(s: State, m: int, b: int, s2: State) returns (s3: State, s4: State, r: State)
    requires IsMutex(s, m) && Wf(s2) && s2.mutexes == s.mutexes && |s2.tasks| == |s.tasks| && s2.current == s.current
    requires b == Chosen(s, s.mutexes[m].wl) && 0 < b < |s.tasks| && b != s.current && s2.tasks[b].reason == NoReason
    requires Next(s2, s.current) == NULL && Effs(s2) == Effs(s)
    ensures Stages(s, m, b, s2, s3, s4, r)
    ensures s3 == RecomputePriority(s2, s.current) && s4 == Transfer(s3, m, b) && r == RecomputePriority(s4, b)
  {
    s3 := RecomputePriority(s2, s.current);
    RecomputeOne(s2, s.current);
    s4 := Transfer(s3, m, b);
    assert Effs(s4) == Effs(s3);
    r := RecomputePriority(s4, b);
    assert s4.tasks[b].reason == NoReason;
    RecomputeOne(s4, b);
  }

  lemma UnlockUnfold(s: State, m: int)
    requires HandsOff(s, m)
    ensures Pickable(Disown(s, m), s.mutexes[m].wl) && 0 < Chosen(s, s.mutexes[m].wl) < |s.tasks|
    ensures var b := Chosen(s, s.mutexes[m].wl);
      MutexUnlock(s, m) ==
        Outcome(RecomputePriority(Transfer(RecomputePriority(Unhooked(s, m), s.current), m, b), b), Returns(Ok))
  {
    DisownAgree(s, m);
    UnhookedAgree(s, m);
  }

  /** Everything but priorities after a handoff. */
  ghost predicate Handed(s: State, r: State, m: int, b: int)
    requires IsMutex(s, m)
  {
    var c := s.current; var l := s.mutexes[m].wl;
    && Wf(r) && |r.tasks| == |s.tasks| && 0 < b < |s.tasks| && b != c && b == Chosen(s, l)
    && Pick(s, l) != NULL
    && r.cfg == s.cfg && r.current == c && r.sems == s.sems && r.queues == s.queues
    && (forall t :: 0 <= t < |s.tasks| && t != b && t != c ==> r.tasks[t] == s.tasks[t])
    && r.tasks[c] == s.tasks[c].(eff := r.tasks[c].eff, owned := SwapRemove(s.tasks[c].owned, m))
    && r.tasks[b] == Woken(s.tasks[b], false).(eff := r.tasks[b].eff, owned := s.tasks[b].owned + [m])
    && r.lists == s.lists[l := s.lists[l].(waiters := RemoveAt(s.lists[l].waiters, Pick(s, l)))]
    && (forall t :: t in r.lists[l].waiters <==> t in s.lists[l].waiters && t != b)
    && r.mutexes == s.mutexes[m := s.mutexes[m].(owner := b)]
    && s.tasks[b].reason == OnMutex && s.tasks[b].blockedOn == l
  }

  lemma StagesTasks(s: State, m: int, b: int, s2: State, s3: State, s4: State, r: State, t: int)
    requires HandsOff(s, m) && Pickable(Disown(s, m), s.mutexes[m].wl) && s2 == Unhooked(s, m)
    requires Stages(s, m, b, s2, s3, s4, r) && 0 <= t < |s.tasks|
    ensures t == b ==> r.tasks[b] == Woken(s.tasks[b], false).(eff := r.tasks[b].eff, owned := s.tasks[b].owned + [m])
    ensures t == s.current ==>
      r.tasks[t] == s.tasks[t].(eff := r.tasks[t].eff, owned := SwapRemove(s.tasks[t].owned, m))
    ensures t != b && t != s.current ==> r.tasks[t] == s.tasks[t]
  {
    UnhookedAgree(s, m);
    assert r.tasks[t] == s4.tasks[t].(eff := Effs(r)[t]);
    assert s3.tasks[t] == s2.tasks[t].(eff := Effs(s3)[t]);
  }

  lemma StagesHanded(s: State, m: int, b: int, s2: State, s3: State, s4: State, r: State)
    requires HandsOff(s, m) && Pickable(Disown(s, m), s.mutexes[m].wl) && s2 == Unhooked(s, m)
    requires Stages(s, m, b, s2, s3, s4, r)
    ensures Handed(s, r, m, b) && r.pending
  {
    UnhookedAgree(s, m);
    DisownAgree(s, m);
    forall t | 0 <= t < |s.tasks|
      ensures t == b ==> r.tasks[b] == Woken(s.tasks[b], false).(eff := r.tasks[b].eff, owned := s.tasks[b].owned + [m])
      ensures t == s.current ==>
        r.tasks[t] == s.tasks[t].(eff := r.tasks[t].eff, owned := SwapRemove(s.tasks[t].owned, m))
      ensures t != b && t != s.current ==> r.tasks[t] == s.tasks[t]
    {
      StagesTasks(s, m, b, s2, s3, s4, r, t);
    }
    StagesRest(s, m, b, s2, s3, s4, r);
  }

  lemma StagesRest(s: State, m: int, b: int, s2: State, s3: State, s4: State, r: State)
    requires HandsOff(s, m) && Pickable(Disown(s, m), s.mutexes[m].wl) && s2 == Unhooked(s, m)
    requires Stages(s, m, b, s2, s3, s4, r)
    ensures |r.tasks| == |s.tasks| && r.pending && r.lists == s2.lists
    ensures r.cfg == s.cfg && r.current == s.current && r.sems == s.sems && r.queues == s.queues
    ensures r.mutexes == s.mutexes[m := s.mutexes[m].(owner := b)]
  {
    UnhookedAgree(s, m);
  }

  lemma HandoffShape(s: State, m: int)
    requires HandsOff(s, m)
    ensures Pickable(Disown(s, m), s.mutexes[m].wl)
    ensures Handed(s, MutexUnlock(s, m).s, m, Chosen(s, s.mutexes[m].wl))
    ensures MutexUnlock(s, m).ret == Returns(Ok) && MutexUnlock(s, m).s.pending
  {
    var b, s2, s3, s4, r := HandoffStages(s, m);
    StagesHanded(s, m, b, s2, s3, s4, r);
  }

  lemma HandedAgree(s: State, r: State, m: int, b: int)
    requires HandsOff(s, m) && Handed(s, r, m, b)
    ensures Agree(r)
  {
    var l := s.mutexes[m].wl;
    assert AgreeList(s, l) && AgreeTask(s, b) && AgreeTask(s, s.current);
    RemoveAtMembers(s.lists[l].waiters, Pick(s, l));
    forall t | 0 <= t < |r.tasks|
      ensures AgreeTask(r, t)
    {
      assert AgreeTask(s, t) && WfTask(r, r.tasks[t]);
    }
    forall k | 0 <= k < |r.lists|
      ensures AgreeList(r, k)
    {
      assert AgreeList(s, k) && WfList(r, r.lists[k]);
    }
  }

  lemma HandedOwn(s: State, r: State, m: int, b: int)
    requires HandsOff(s, m) && Handed(s, r, m, b)
    ensures Own(r)
  {
    var c := s.current;
    var l := s.mutexes[m].wl;
    assert OwnMutex(s, m) && OwnTask(s, c) && OwnTask(s, b) && AgreeList(s, l);
    assert m in s.tasks[c].owned && m !in s.tasks[b].owned;
    SwapRemoveMembers(s.tasks[c].owned, m);
    forall t | 0 <= t < |r.tasks|
      ensures OwnTask(r, t)
    {
      assert OwnTask(s, t) && WfTask(r, r.tasks[t]);
    }
    forall k | 0 <= k < |r.mutexes|
      ensures OwnMutex(r, k)
    {
      HandedMutex(s, r, m, b, k);
    }
    WiringFrame(s, r);
  }

  lemma HandedMutex(s: State, r: State, m: int, b: int, k: int)
    requires HandsOff(s, m) && Handed(s, r, m, b) && 0 <= k < |r.mutexes|
    requires forall x :: x in r.tasks[s.current].owned <==> x in s.tasks[s.current].owned && x != m
    ensures OwnMutex(r, k)
  {
    assert OwnMutex(s, k) && OwnMutex(s, m) && WfMutex(r, r.mutexes[k]);
    assert m in r.tasks[b].owned;
    EmptyStays(s.lists[s.mutexes[k].wl].waiters, r.lists[s.mutexes[k].wl].waiters);
    if k != m {
      assert s.mutexes[k].wl != s.mutexes[m].wl;
    }
  }

  /** A handoff redirects the remaining waiters to the new owner, who waits for nobody. */
  lemma HandedNext(s: State, r: State, m: int, b: int, w: int)
    requires HandsOff(s, m) && Handed(s, r, m, b) && 0 <= w < |s.tasks|
    ensures Next(r, b) == NULL && Next(r, s.current) == NULL && Next(s, s.current) == NULL && Next(s, b) == s.current
    ensures w != b && s.tasks[w].reason == OnMutex && s.tasks[w].blockedOn == s.mutexes[m].wl ==>
      Next(s, w) == s.current && Next(r, w) == b
    ensures w != b && !(s.tasks[w].reason == OnMutex && s.tasks[w].blockedOn == s.mutexes[m].wl) ==>
      Next(r, w) == Next(s, w)
  {
    assert AgreeTask(s, s.current) && AgreeTask(s, b) && AgreeTask(s, w) && OwnMutex(s, m);
    EdgeOf(s, w);
    EdgeOf(s, b);
  }

  /** Neither party of a handoff waits for anybody afterwards. */
  lemma HandedFree(s: State, r: State, m: int, b: int, t: int)
    requires HandsOff(s, m) && Handed(s, r, m, b) && Consistent(GraphOf(r)) && 0 <= t < |s.tasks|
    ensures b !in GraphOf(r).waiters[t] && s.current !in GraphOf(r).waiters[t]
  {
    HandedNext(s, r, m, b, b);
    assert GraphOf(r).next[b] == NULL && GraphOf(r).next[s.current] == NULL;
  }

  lemma OldOwnerExact(s: State, m: int, b: int, s2: State, s3: State, s4: State, r: State)
    requires IsMutex(s, m) && Stages(s, m, b, s2, s3, s4, r) && Handed(s, r, m, b)
    requires b !in Dependants(r, s.current) && s.current !in Dependants(r, s.current)
    requires Dependants(s2, s.current) == Dependants(r, s.current)
    requires s2.tasks[s.current].base == r.tasks[s.current].base
    ensures Exact(GraphOf(r), Effs(r), s.current)
  {
    var c := s.current;
    assert Effs(r)[c] == MinEff(Effs(s), Dependants(r, c), r.tasks[c].base);
    assert forall t :: 0 <= t < |s.tasks| && t != b && t != c ==> Effs(r)[t] == Effs(s)[t];
    MinEffFrame(Effs(s), Effs(r), Dependants(r, c), r.tasks[c].base);
  }

  lemma OldDependants(s: State, r: State, m: int, b: int, s2: State)
    requires HandsOff(s, m) && Pickable(Disown(s, m), s.mutexes[m].wl) && s2 == Unhooked(s, m)
    requires Handed(s, r, m, b) && Wf(s2) && |s2.tasks| == |s.tasks|
    ensures Dependants(s2, s.current) == Dependants(r, s.current)
    ensures s2.tasks[s.current].base == r.tasks[s.current].base
  {
    var c := s.current;
    UnhookedAgree(s, m);
    assert WfTask(s2, s2.tasks[c]) && WfTask(r, r.tasks[c]);
    WaitersSame(s2, r, r.tasks[c].owned);
  }

  lemma NewOwnerExact(s: State, m: int, b: int, s2: State, s3: State, s4: State, r: State)
    requires IsMutex(s, m) && Stages(s, m, b, s2, s3, s4, r)
    requires b !in Dependants(r, b)
    ensures Exact(GraphOf(r), Effs(r), b)
  {
    GraphEffs(s4, r);
    assert forall t :: 0 <= t < |s.tasks| && t != b ==> Effs(r)[t] == Effs(s4)[t];
    MinEffFrame(Effs(s4), Effs(r), Dependants(r, b), r.tasks[b].base);
  }

  /** Both parties of a handoff end up with exact priorities, whatever they had before. */
  lemma HandoffExact(s: State, m: int)
    requires HandsOff(s, m)
    ensures Pickable(Disown(s, m), s.mutexes[m].wl)
    ensures var r := MutexUnlock(s, m).s; var b := Chosen(s, s.mutexes[m].wl);
      && Handed(s, r, m, b) && Agree(r) && Own(r) && Consistent(GraphOf(r))
      && Exact(GraphOf(r), Effs(r), s.current) && Exact(GraphOf(r), Effs(r), b)
  {
    var b, s2, s3, s4, r := HandoffStages(s, m);
    StagesHanded(s, m, b, s2, s3, s4, r);
    HandedAgree(s, r, m, b);
    HandedOwn(s, r, m, b);
    GraphConsistent(r);
    HandedFree(s, r, m, b, s.current);
    HandedFree(s, r, m, b, b);
    OldDependants(s, r, m, b, s2);
    OldOwnerExact(s, m, b, s2, s3, s4, r);
    NewOwnerExact(s, m, b, s2, s3, s4, r);
  }

  lemma HandedCovered(s: State, r: State, m: int, b: int)
    requires HandsOff(s, m) && Handed(s, r, m, b) && Consistent(GraphOf(r))
    requires Exact(GraphOf(r), Effs(r), s.current) && Exact(GraphOf(r), Effs(r), b)
    ensures Covered(GraphOf(r).next, Effs(r))
  {
    var g := GraphOf(r);
    forall w | 0 <= w < |r.tasks| && g.next[w] != NULL
      ensures Effs(r)[g.next[w]] <= Effs(r)[w]
    {
      HandedNext(s, r, m, b, w);
      assert w in g.waiters[g.next[w]];
      if g.next[w] != s.current && g.next[w] != b {
        assert GraphOf(s).next[w] == g.next[w] && w != b && w != s.current;
      }
    }
  }

  lemma HandoffKeeps(s: State, m: int)
    requires HandsOff(s, m)
    ensures Pickable(Disown(s, m), s.mutexes[m].wl) && KInv(MutexUnlock(s, m).s)
  {
    HandoffExact(s, m);
    HandedCovered(s, MutexUnlock(s, m).s, m, Chosen(s, s.mutexes[m].wl));
    HandedPrio(s, MutexUnlock(s, m).s, m, Chosen(s, s.mutexes[m].wl));
  }

  lemma HandedPrio(s: State, r: State, m: int, b: int)
    requires HandsOff(s, m) && Handed(s, r, m, b)
    requires Exact(GraphOf(r), Effs(r), s.current) && Exact(GraphOf(r), Effs(r), b)
    ensures Prio(r)
  {
    assert Effs(r)[b] <= GraphOf(r).base[b] && Effs(r)[s.current] <= GraphOf(r).base[s.current];
  }

  /** Handing a mutex to the strongest waiter closes no cycle. */
  lemma HandoffAcyclic(s: State, m: int)
    requires HandsOff(s, m) && Acyclic(GraphOf(s).next)
    ensures Pickable(Disown(s, m), s.mutexes[m].wl) && Acyclic(GraphOf(MutexUnlock(s, m).s).next)
  {
    HandoffShape(s, m);
    var r := MutexUnlock(s, m).s;
    var b := Chosen(s, s.mutexes[m].wl);
    forall t | 0 <= t < |s.tasks| && GraphOf(r).next[t] != NULL
      ensures GraphOf(r).next[t] == GraphOf(s).next[t] || GraphOf(r).next[GraphOf(r).next[t]] == NULL
    {
      HandedNext(s, r, m, b, t);
    }
    ShrinkAcyclic(GraphOf(s).next, GraphOf(r).next);
  }

  /** The waiter that waitlist_unblock selects from a mutex list is one of the strongest, and the
      longest waiting of those. */
  lemma ChosenStrongest(s: State, l: int, k: int)
    requires Agree(s) && Prio(s) && 0 <= l < |s.lists| && s.lists[l].policy == Priority
    requires 0 <= k < |s.lists[l].waiters|
    ensures Pick(s, l) != NULL && 0 <= Chosen(s, l) < |s.tasks| && 0 <= s.lists[l].waiters[k] < |s.tasks|
    ensures s.tasks[Chosen(s, l)].eff <= s.tasks[s.lists[l].waiters[k]].eff
    ensures s.tasks[Chosen(s, l)].eff == s.tasks[s.lists[l].waiters[k]].eff ==> Pick(s, l) <= k
  {
    AlwaysPickable(s, l);
    var ws := s.lists[l].waiters;
    assert AgreeList(s, l);
    assert forall j :: 0 <= j < |ws| ==> ws[j] in ws;
    var i := Pick(s, l);
    assert i == Best(Effs(s), ws, s.cfg.lowest + 1, |ws|);
    assert Effs(s)[ws[i]] <= Effs(s)[ws[k]];
  }

  /** No task that waits for the new owner after the handoff is stronger than it was before. */
  lemma HeirStrongest(s: State, r: State, m: int, b: int, w: int)
    requires HandsOff(s, m) && Handed(s, r, m, b) && 0 <= w < |s.tasks| && Next(r, w) == b
    ensures s.tasks[b].eff <= s.tasks[w].eff && w != b && w != s.current
  {
    var l := s.mutexes[m].wl;
    HandedNext(s, r, m, b, w);
    assert OwnMutex(s, m) && AgreeTask(s, w);
    if s.tasks[w].blockedOn == l {
      var k :| 0 <= k < |s.lists[l].waiters| && s.lists[l].waiters[k] == w;
      ChosenStrongest(s, l, k);
    } else {
      assert GraphOf(s).next[w] == b;
    }
  }

  /** Absent staleness, the new owner's priority does not move although it inherits every
      remaining waiter. */
  lemma HandoffKeepsNewOwner(s: State, m: int)
    requires HandsOff(s, m)
    ensures Pickable(Disown(s, m), s.mutexes[m].wl) && 0 < Chosen(s, s.mutexes[m].wl) < |s.tasks|
    ensures |MutexUnlock(s, m).s.tasks| == |s.tasks|
    ensures var b := Chosen(s, s.mutexes[m].wl);
      Exact(GraphOf(s), Effs(s), b) ==> MutexUnlock(s, m).s.tasks[b].eff == s.tasks[b].eff
  {
    hide Wf, Agree, Own, Prio, NotUnderBoosted, MutexUnlock, Chosen, Pickable;
    HandoffExact(s, m);
    var r := MutexUnlock(s, m).s;
    var b := Chosen(s, s.mutexes[m].wl);
    if Exact(GraphOf(s), Effs(s), b) {
      GraphConsistent(s);
      HeirAttains(s, r, m, b);
      forall w | 0 <= w < |Effs(r)| && GraphOf(r).next[w] == b
        ensures s.tasks[b].eff <= Effs(r)[w]
      {
        HeirStrongest(s, r, m, b, w);
      }
      LocalIs(GraphOf(r), Effs(r), b, s.tasks[b].eff);
    }
  }

  lemma HeirAttains(s: State, r: State, m: int, b: int)
    requires HandsOff(s, m) && Handed(s, r, m, b) && Consistent(GraphOf(s)) && Exact(GraphOf(s), Effs(s), b)
    ensures var p := s.tasks[b].eff;
      p == GraphOf(r).base[b] || exists w :: 0 <= w < |Effs(r)| && GraphOf(r).next[w] == b && p == Effs(r)[w]
  {
    if s.tasks[b].eff != s.tasks[b].base {
      var w :| w in GraphOf(s).waiters[b] && Effs(s)[w] == Effs(s)[b];
      assert GraphOf(s).next[w] == b;
      HandedNext(s, r, m, b, w);
      assert GraphOf(r).next[w] == b && Effs(r)[w] == s.tasks[b].eff;
    }
  }
}
