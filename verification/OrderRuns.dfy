/** Order within wait lists over whole runs: nobody is overtaken, and a FIFO list releases its
    waiters in the order of their arrival. */
module OrderRuns {
  import opened Types
  import opened Spec
  import opened Invariants
  import opened Preserve
  import opened Handoff
  import opened Runs
  import opened Effects
  import opened Traces
  import opened TimeRuns
  import opened Wakeups
  import opened PriorityRuns

  /** `t` waits, and `u` waits behind it or not at all. */
  ghost predicate Ahead(ws: seq<int>, t: int, u: int) {
    IndexOf(ws, t) < IndexOf(ws, u)
  }

  /** What an action does to list `l`: the current task joins at the end, or the selected entry is
      shifted out, or a tick shifts out the timed-out entries, or nothing. */
  ghost predicate Evolves(y: Sys, a: Action, l: int)
    requires SysInv(y) && Legal(y, a) && 0 <= l < |y.k.lists|
  {
    var r := Act(y, a).s;
    var ws := y.k.lists[l].waiters;
    && |r.lists| == |y.k.lists| && r.lists[l] == y.k.lists[l].(waiters := r.lists[l].waiters)
    && NoDup(ws)
    && (if Act(y, a).ret == Blocks && BlockList(y, a) == l then
          r.lists[l].waiters == ws + [y.k.current] && y.k.current !in ws
        else if ReleaseList(y, a) == l && ws != [] then
          && 0 <= Pick(y.k, l) < |ws| && Released(y, a) == ws[Pick(y.k, l)]
          && r.lists[l].waiters == RemoveAt(ws, Pick(y.k, l))
        else Thinned(ws, r.lists[l].waiters) && (!a.TickIrq? ==> r.lists[l].waiters == ws))
  }

  lemma ListEvolves(y: Sys, a: Action, l: int)
    requires SysInv(y) && Legal(y, a) && 0 <= l < |y.k.lists|
    ensures Evolves(y, a, l)
  {
    hide SysInv, KInv, Wf;
    Ranges(y);
    NoTwice(y.k, l);
    ThinnedSame(y.k.lists[l].waiters);
    if a.TickIrq? {
      TickEffect(y.k);
    } else if a.Switch? {
      SwitchEffect(y.k);
    } else if !a.DoDelay? {
      CallEvolves(y, a, l);
    }
  }

  lemma NoTwice(s: State, l: int)
    requires KInv(s) && 0 <= l < |s.lists|
    ensures NoDup(s.lists[l].waiters) && Pickable(s, l)
  {
    assert AgreeList(s, l);
    AlwaysPickable(s, l);
  }

  lemma CallEvolves(y: Sys, a: Action, l: int)
    requires SysInv(y) && Legal(y, a) && 0 <= l < |y.k.lists| && !a.TickIrq? && !a.Switch? && !a.DoDelay?
    ensures Evolves(y, a, l)
  {
    hide SysInv, KInv, Wf, Legal, Act, ReleaseList, BlockList, AfterRelease, AfterBlock, Thinned, RemoveAt;
    Ranges(y);
    NoTwice(y.k, l);
    ThinnedSame(y.k.lists[l].waiters);
    ActEffect(y, a);
    ListAfter(y.k, Act(y, a).s, if Act(y, a).ret == Blocks then BlockList(y, a) else ReleaseList(y, a), l);
    if Act(y, a).ret == Blocks {
      BlockReleasesNone(y, a);
      CallerNotIn(y, a, l);
    }
  }

  lemma CallerNotIn(y: Sys, a: Action, l: int)
    requires SysInv(y) && Legal(y, a) && 0 <= l < |y.k.lists| && Act(y, a).ret == Blocks
    ensures y.k.current !in y.k.lists[l].waiters
  {
    NeverBlocks(y, a);
    assert AgreeTask(y.k, y.k.current) && AgreeList(y.k, l);
  }

  // ---------------------------------------------------------------- order survives removal

  lemma {:induction false} ThinnedMembers(a: seq<int>, b: seq<int>, x: int)
    requires Thinned(a, b) && x in b
    ensures x in a
    decreases |a|
  {
    if a != [] {
      if Thinned(a[1..], b) {
        ThinnedMembers(a[1..], b, x);
      } else if x != b[0] {
        ThinnedMembers(a[1..], b[1..], x);
      }
    }
  }

  /** Removing entries moves nobody back and lets nobody overtake. */
  lemma {:induction false} ThinnedOrder(a: seq<int>, b: seq<int>, t: int, u: int)
    requires Thinned(a, b) && NoDup(a) && t in b
    ensures IndexOf(b, t) <= IndexOf(a, t)
    ensures Ahead(a, t, u) ==> Ahead(b, t, u)
    decreases |a|
  {
    if a != [] {
      assert forall x :: x in a[1..] ==> x != a[0];
      if Thinned(a[1..], b) {
        ThinnedMembers(a[1..], b, t);
        ThinnedOrder(a[1..], b, t, u);
      } else if b[0] != t {
        ThinnedOrder(a[1..], b[1..], t, u);
      }
    }
  }

  lemma {:induction false} IndexOfAppend(ws: seq<int>, x: int, t: int)
    ensures IndexOf(ws + [x], t) == if t in ws || t == x then IndexOf(ws, t) else |ws| + 1
  {
    if ws == [] {
    } else {
      assert (ws + [x])[1..] == ws[1..] + [x];
      IndexOfAppend(ws[1..], x, t);
    }
  }

  lemma {:induction false} IndexOfIn(ws: seq<int>, t: int)
    ensures IndexOf(ws, t) < |ws| <==> t in ws
  {
    if ws != [] && ws[0] != t {
      IndexOfIn(ws[1..], t);
    }
  }

  lemma FirstOut(ws: seq<int>, t: int)
    requires ws != [] && NoDup(ws) && t in ws[1..]
    ensures IndexOf(RemoveAt(ws, 0), t) == IndexOf(ws, t) - 1
  {
    assert RemoveAt(ws, 0) == ws[1..];
  }

  // ---------------------------------------------------------------- one step

  /** `t` waits on `l` before the action and still does afterwards. */
  ghost predicate StillIn(y: Sys, a: Action, l: int, t: int)
    requires SysInv(y) && Legal(y, a) && 0 <= l < |y.k.lists|
  {
    t in y.k.lists[l].waiters && l < |Act(y, a).s.lists| && t in Act(y, a).s.lists[l].waiters
  }

  lemma PlaceKept(y: Sys, a: Action, l: int, t: int, u: int)
    requires SysInv(y) && Legal(y, a) && 0 <= l < |y.k.lists| && Evolves(y, a, l) && StillIn(y, a, l, t)
    ensures var ws := y.k.lists[l].waiters; var ws' := Act(y, a).s.lists[l].waiters;
      && IndexOf(ws', t) <= IndexOf(ws, t)
      && (Ahead(ws, t, u) ==> Ahead(ws', t, u))
  {
    hide SysInv, KInv, Wf, Legal, Act, Pick, Released, ReleaseList, BlockList, RemoveAt, Thinned;
    Ranges(y);
    var ws := y.k.lists[l].waiters;
    IndexOfIn(ws, t);
    IndexOfIn(ws, u);
    if Act(y, a).ret == Blocks && BlockList(y, a) == l {
      IndexOfAppend(ws, y.k.current, t);
      IndexOfAppend(ws, y.k.current, u);
    } else {
      ThinnedSame(ws);
      if ReleaseList(y, a) == l && ws != [] {
        ThinnedRemove(ws, ws, Pick(y.k, l));
      }
      ThinnedOrder(ws, Act(y, a).s.lists[l].waiters, t, u);
    }
  }

  /** The action takes the entry that waitlist_unblock selects off list `l`. */
  ghost predicate IsRelease(y: Sys, a: Action, l: int) {
    SysInv(y) && Legal(y, a) && 0 <= l < |y.k.lists| && ReleaseList(y, a) == l && y.k.lists[l].waiters != []
  }

  ghost function ReleasesOf(l: int): (Sys, Action) -> bool {
    (y, a) => IsRelease(y, a, l)
  }

  /** Every release of a FIFO list moves those who remain up by one. */
  lemma FifoAdvances(y: Sys, a: Action, l: int, t: int)
    requires SysInv(y) && Legal(y, a) && 0 <= l < |y.k.lists| && Evolves(y, a, l) && StillIn(y, a, l, t)
    requires y.k.lists[l].policy == Fifo && IsRelease(y, a, l)
    ensures IndexOf(Act(y, a).s.lists[l].waiters, t) == IndexOf(y.k.lists[l].waiters, t) - 1
    ensures Released(y, a) == y.k.lists[l].waiters[0]
  {
    if Act(y, a).ret == Blocks {
      BlockReleasesNone(y, a);
    }
    FirstOut(y.k.lists[l].waiters, t);
  }

  lemma SleeperStays(y: Sys, a: Action, l: int, t: int)
    requires SysInv(y) && Legal(y, a) && 0 <= l < |y.k.lists| && 0 < t < |y.calls|
    requires t in y.k.lists[l].waiters && |Act(y, a).s.tasks| == |y.k.tasks| && Act(y, a).s.tasks[t].state == Blocked
    ensures StillIn(y, a, l, t)
  {
    AgreementIff(y.k, t, l);
    SleepStep(y, a, t);
    ActKeeps(y, a);
    ListEvolves(y, a, l);
    AgreementIff(Act(y, a).s, t, l);
  }

  // ---------------------------------------------------------------- whole runs

  /** No overtaking: as long as `t` waits, nobody who was behind it or not yet there gets in front
      of it, however often others time out, are released and come back. */
  lemma {:induction false} RunNoOvertaking(y: Sys, acts: seq<Action>, l: int, t: int, u: int)
    requires SysInv(y) && Run(y, acts) && 0 <= l < |y.k.lists| && 0 < t < |y.calls| && Asleep(y, acts, t)
    requires t in y.k.lists[l].waiters && Ahead(y.k.lists[l].waiters, t, u)
    ensures var z := Exec(y, acts).k;
      |z.lists| == |y.k.lists| && t in z.lists[l].waiters && Ahead(z.lists[l].waiters, t, u)
    decreases |acts|
  {
    hide SysInv, KInv, Wf, Act, Ahead;
    if acts != [] {
      OneStep(y, acts, l, t, u);
      RunNoOvertaking(Step(y, acts[0]), acts[1..], l, t, u);
    }
  }

  lemma OneStep(y: Sys, acts: seq<Action>, l: int, t: int, u: int)
    requires SysInv(y) && Run(y, acts) && 0 <= l < |y.k.lists| && 0 < t < |y.calls| && Asleep(y, acts, t)
    requires t in y.k.lists[l].waiters && acts != []
    ensures SysInv(Step(y, acts[0])) && Run(Step(y, acts[0]), acts[1..])
    ensures var z := Step(y, acts[0]); |z.calls| == |y.calls| && Asleep(z, acts[1..], t)
    ensures Evolves(y, acts[0], l) && StillIn(y, acts[0], l, t)
    ensures var ws := y.k.lists[l].waiters; var ws' := Act(y, acts[0]).s.lists[l].waiters;
      IndexOf(ws', t) <= IndexOf(ws, t) && (Ahead(ws, t, u) ==> Ahead(ws', t, u))
  {
    hide SysInv, KInv, Wf, Act, Evolves, Ahead;
    StepKeeps(y, acts[0]);
    StepCall(y, acts[0], t);
    ListEvolves(y, acts[0], l);
    Ranges(y);
    SleeperStays(y, acts[0], l, t);
    PlaceKept(y, acts[0], l, t, u);
  }

  /** A waiter at position k of a FIFO list is released within k + 1 releases: as long as it waits
      the releases so far and its current position do not exceed its first position. */
  lemma {:induction false} RunFifoBound(y: Sys, acts: seq<Action>, l: int, t: int)
    requires SysInv(y) && Run(y, acts) && 0 <= l < |y.k.lists| && 0 < t < |y.calls| && Asleep(y, acts, t)
    requires t in y.k.lists[l].waiters && y.k.lists[l].policy == Fifo
    ensures var z := Exec(y, acts).k;
      |z.lists| == |y.k.lists| && t in z.lists[l].waiters &&
      IndexOf(z.lists[l].waiters, t) + Count(y, acts, ReleasesOf(l)) <= IndexOf(y.k.lists[l].waiters, t)
    decreases |acts|
  {
    hide SysInv, KInv, Wf, Act, IsRelease;
    if acts != [] {
      OneStep(y, acts, l, t, t);
      if IsRelease(y, acts[0], l) {
        FifoAdvances(y, acts[0], l, t);
      }
      RunFifoBound(Step(y, acts[0]), acts[1..], l, t);
    }
  }

  /** Whom a release wakes: under FIFO the task that has waited longest; under PRIORITY the longest
      waiting one of those whose effective priority is strongest. Somebody is always found. */
  lemma ReleaseOrder(y: Sys, a: Action, l: int, u: int)
    requires IsRelease(y, a, l) && u in y.k.lists[l].waiters
    ensures 0 < u < |y.k.tasks| && 0 < Released(y, a) < |y.k.tasks|
    ensures y.k.lists[l].policy == Fifo ==> u == Released(y, a) || Ahead(y.k.lists[l].waiters, Released(y, a), u)
    ensures y.k.lists[l].policy == Priority ==>
      var b := Released(y, a);
      && y.k.tasks[b].eff <= y.k.tasks[u].eff
      && (y.k.tasks[b].eff == y.k.tasks[u].eff ==> u == b || Ahead(y.k.lists[l].waiters, b, u))
  {
    Ranges(y);
    ChosenOrder(y.k, l, u);
    hide SysInv, KInv, Wf, Ahead, Chosen;
  }

  lemma ChosenOrder(s: State, l: int, u: int)
    requires KInv(s) && 0 <= l < |s.lists| && u in s.lists[l].waiters
    ensures 0 < u < |s.tasks| && 0 < Chosen(s, l) < |s.tasks|
    ensures s.lists[l].policy == Fifo ==> u == Chosen(s, l) || Ahead(s.lists[l].waiters, Chosen(s, l), u)
    ensures s.lists[l].policy == Priority ==>
      var b := Chosen(s, l);
      && s.tasks[b].eff <= s.tasks[u].eff
      && (s.tasks[b].eff == s.tasks[u].eff ==> u == b || Ahead(s.lists[l].waiters, b, u))
  {
    var ws := s.lists[l].waiters;
    assert AgreeList(s, l);
    AlwaysPickable(s, l);
    assert ws[Pick(s, l)] in ws;
    IndexOfIn(ws, u);
    IndexOfIn(ws, Chosen(s, l));
    if s.lists[l].policy == Priority {
      ChosenStrongest(s, l, IndexOf(ws, u));
    }
    hide KInv, Agree, Wf;
  }

  /** An unlock with waiters makes the longest waiting of the strongest waiters the owner. */
  lemma HandoffToStrongest(y: Sys, m: int, u: int)
    requires SysInv(y) && Legal(y, DoUnlock(m)) && y.k.mutexes[m].owner == y.k.current
    requires u in y.k.lists[y.k.mutexes[m].wl].waiters
    ensures |Act(y, DoUnlock(m)).s.mutexes| == |y.k.mutexes|
    ensures var b := Act(y, DoUnlock(m)).s.mutexes[m].owner; var ws := y.k.lists[y.k.mutexes[m].wl].waiters;
      && 0 < b < |y.k.tasks| && 0 < u < |y.k.tasks| && b in ws
      && y.k.tasks[b].eff <= y.k.tasks[u].eff
      && (y.k.tasks[b].eff == y.k.tasks[u].eff ==> u == b || Ahead(ws, b, u))
  {
    OwnerChanges(y, DoUnlock(m), m);
    MutexListPolicy(y.k, m);
    hide SysInv, KInv, Wf, Act, Chosen, Ahead;
    ReleaseOrder(y, DoUnlock(m), y.k.mutexes[m].wl, u);
  }

  lemma MutexListPolicy(s: State, m: int)
    requires KInv(s) && 0 <= m < |s.mutexes|
    ensures 0 <= s.mutexes[m].wl < |s.lists| && s.lists[s.mutexes[m].wl].policy == Priority
    ensures s.lists[s.mutexes[m].wl].waiters != [] ==> Pick(s, s.mutexes[m].wl) != NULL
  {
    assert OwnMutex(s, m);
    AlwaysPickable(s, s.mutexes[m].wl);
  }
}
