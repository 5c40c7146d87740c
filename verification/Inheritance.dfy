/** Priority inheritance on the wait-for graph (kernel/kernel.c, lines 722-787).

    A graph holds, for each task, the owner of the mutex it is blocked on (`next`), its base
    priority and the tasks waiting on the mutexes it owns (`waiters`). An effective-priority
    vector `e` is kept apart, since donation and recomputation change nothing else. */
module Inheritance {
  import opened Types

  datatype Graph = Graph(next: seq<int>, base: seq<int>, waiters: seq<seq<int>>)

  predicate InRange(x: int, n: int) {
    0 <= x < n
  }

  predicate WfNext(next: seq<int>) {
    forall t :: 0 <= t < |next| ==> next[t] == NULL || 0 <= next[t] < |next|
  }

  predicate WfGraph(g: Graph) {
    && |g.base| == |g.next| == |g.waiters|
    && WfNext(g.next)
    && forall t, w :: 0 <= t < |g.waiters| && w in g.waiters[t] ==> 0 <= w < |g.next|
  }

  /** The waiters recorded at each owner are exactly the tasks that point to it, and nobody
      waits for itself. */
  ghost predicate Consistent(g: Graph) {
    && WfGraph(g)
    && (forall t, w :: 0 <= t < |g.next| && 0 <= w < |g.next| ==> (w in g.waiters[t] <==> g.next[w] == t))
    && (forall t :: 0 <= t < |g.next| ==> g.next[t] != t)
  }

  /** Strongest priority among `b` and the tasks in `ws` (smaller is stronger). */
  function MinEff(e: seq<int>, ws: seq<int>, b: int): (r: int)
    requires forall w :: w in ws ==> 0 <= w < |e|
    ensures r <= b && (forall w :: w in ws ==> r <= e[w])
    ensures r == b || exists w :: w in ws && r == e[w]
  {
    if ws == [] then b
    else
      var k := |ws| - 1;
      assert ws[k] in ws && ws == ws[..k] + [ws[k]];
      assert forall w :: w in ws[..k] ==> w in ws;
      Min(MinEff(e, ws[..k], b), e[ws[k]])
  }

  /** What the recomputation assigns to `t`. */
  function Local(g: Graph, e: seq<int>, t: int): int
    requires WfGraph(g) && |e| == |g.next| && InRange(t, |e|)
  {
    MinEff(e, g.waiters[t], g.base[t])
  }

  predicate Exact(g: Graph, e: seq<int>, t: int)
    requires WfGraph(g) && |e| == |g.next| && InRange(t, |e|)
  {
    e[t] == Local(g, e, t)
  }

  /** The walk of mutex_donate_priority, at most `fuel` hops. */
  function Donate(next: seq<int>, e: seq<int>, o: int, p: int, fuel: nat): (r: seq<int>)
    requires WfNext(next) && |e| == |next| && (o == NULL || InRange(o, |e|))
    ensures |r| == |e|
    decreases fuel
  {
    if o == NULL || fuel == 0 then e
    else Donate(next, if e[o] > p then e[o := p] else e, next[o], p, fuel - 1)
  }

  /** The walk of mutex_recompute_owner_priority, at most `fuel` hops. */
  function Recompute(g: Graph, e: seq<int>, o: int, fuel: nat): (r: seq<int>)
    requires WfGraph(g) && |e| == |g.next| && (o == NULL || InRange(o, |e|))
    ensures |r| == |e|
    decreases fuel
  {
    if o == NULL || fuel == 0 then e
    else Recompute(g, e[o := Local(g, e, o)], g.next[o], fuel - 1)
  }

  // ---------------------------------------------------------------- chains of owners

  /** The task `k` owner edges away from `o`, NULL past the end of the chain. */
  function Iter(next: seq<int>, o: int, k: nat): (r: int)
    requires WfNext(next) && (o == NULL || InRange(o, |next|))
    ensures r == NULL || InRange(r, |next|)
    decreases k
  {
    if k == 0 || o == NULL then o else Iter(next, next[o], k - 1)
  }

  ghost predicate Reach(next: seq<int>, o: int, t: int)
    requires WfNext(next) && (o == NULL || InRange(o, |next|))
  {
    exists k: nat :: Iter(next, o, k) == t
  }

  ghost predicate Acyclic(next: seq<int>)
    requires WfNext(next)
  {
    forall t, k: nat :: 0 <= t < |next| && k >= 1 ==> Iter(next, t, k) != t
  }

  lemma {:induction false} IterAdd(next: seq<int>, o: int, i: nat, j: nat)
    requires WfNext(next) && (o == NULL || InRange(o, |next|))
    ensures Iter(next, o, i + j) == Iter(next, Iter(next, o, i), j)
    decreases i
  {
    if i > 0 && o != NULL {
      IterAdd(next, next[o], i - 1, j);
    }
  }

  lemma {:induction false} CountBelow(s: set<int>, n: nat)
    requires forall x :: x in s ==> 0 <= x < n
    ensures |s| <= n
  {
    if n == 0 {
      assert forall x :: x !in s;
    } else {
      CountBelow(s - {n - 1}, n - 1);
      assert s == (s - {n - 1}) + (if n - 1 in s then {n - 1} else {});
    }
  }

  /** Among `n + 1` numbers below `n` two are equal. */
  lemma {:induction false} Pigeonhole(s: seq<int>, n: nat) returns (i: nat, j: nat)
    requires |s| > n && forall k :: 0 <= k < |s| ==> InRange(s[k], n)
    ensures i < j < |s| && s[i] == s[j]
  {
    if k, l :| 0 <= k < l < |s| && s[k] == s[l] {
      return k, l;
    } else {
      var elems := set x | x in s;
      DistinctCount(s);
      CountBelow(elems, n);
      assert false;
    }
  }

  lemma {:induction false} DistinctCount(s: seq<int>)
    requires NoDup(s)
    ensures |set x | x in s| == |s|
  {
    if s != [] {
      var k := |s| - 1;
      DistinctCount(s[..k]);
      assert (set x | x in s) == (set x | x in s[..k]) + {s[k]};
    }
  }

  /** Every task on the chain from `o` is met within the first `|next|` hops, cycles included:
      the hop guard never hides a task. */
  lemma {:induction false} EarlyVisit(next: seq<int>, o: int, k: nat) returns (i: nat)
    requires WfNext(next) && InRange(o, |next|) && Iter(next, o, k) != NULL
    ensures i < |next| && i <= k && Iter(next, o, i) == Iter(next, o, k)
    decreases k
  {
    var n := |next|;
    if k < n {
      return k;
    }
    forall j: nat | j <= n
      ensures Iter(next, o, j) != NULL
    {
      IterAdd(next, o, j, k - j);
    }
    var a, b := Pigeonhole(seq(n + 1, j requires 0 <= j <= n => Iter(next, o, j)), n);
    IterAdd(next, o, b, k - b);
    IterAdd(next, o, a, k - b);
    i := EarlyVisit(next, o, a + (k - b));
  }

  /** An acyclic chain ends before `|next|` hops. */
  lemma {:induction false} AcyclicEnds(next: seq<int>, o: int)
    requires WfNext(next) && InRange(o, |next|) && Acyclic(next)
    ensures Iter(next, o, |next|) == NULL
  {
    if Iter(next, o, |next|) != NULL {
      var i := EarlyVisit(next, o, |next|);
      IterAdd(next, o, i, |next| - i);
      assert false;
    }
  }

  // ---------------------------------------------------------------- donation

  /** `t` is one of the first `fuel` tasks of the chain from `o`. */
  ghost predicate Visits(next: seq<int>, o: int, t: int, fuel: nat)
    requires WfNext(next) && (o == NULL || InRange(o, |next|))
  {
    exists i: nat :: i < fuel && Iter(next, o, i) == t
  }

  lemma VisitsStep(next: seq<int>, o: int, t: int, fuel: nat)
    requires WfNext(next) && InRange(o, |next|) && InRange(t, |next|) && fuel > 0
    ensures Visits(next, o, t, fuel) <==> t == o || Visits(next, next[o], t, fuel - 1)
  {
    assert Iter(next, o, 0) == o;
    if i: nat :| i < fuel && Iter(next, o, i) == t && t != o {
      assert Iter(next, next[o], i - 1) == t;
    }
    if i: nat :| i < fuel - 1 && Iter(next, next[o], i) == t {
      assert Iter(next, o, i + 1) == t;
    }
  }

  lemma {:induction false} DonateVisits(next: seq<int>, e: seq<int>, o: int, p: int, fuel: nat, t: int)
    requires WfNext(next) && |e| == |next| && (o == NULL || InRange(o, |e|)) && InRange(t, |e|)
    ensures Donate(next, e, o, p, fuel)[t] == if Visits(next, o, t, fuel) then Min(e[t], p) else e[t]
    decreases fuel
  {
    if o == NULL {
      assert forall i: nat :: Iter(next, o, i) == NULL;
    } else if fuel > 0 {
      DonateVisits(next, if e[o] > p then e[o := p] else e, next[o], p, fuel - 1, t);
      VisitsStep(next, o, t, fuel);
    }
  }

  /** Donation is transitive and complete: with as many hops as there are tasks it strengthens
      exactly the tasks reachable along owner edges, and those to at least `p`. */
  lemma {:induction false} DonateReaches(next: seq<int>, e: seq<int>, o: int, p: int, fuel: nat, t: int)
    requires WfNext(next) && |e| == |next| <= fuel && InRange(o, |e|) && InRange(t, |e|)
    ensures Donate(next, e, o, p, fuel)[t] == if Reach(next, o, t) then Min(e[t], p) else e[t]
  {
    DonateVisits(next, e, o, p, fuel, t);
    if Reach(next, o, t) {
      var k: nat :| Iter(next, o, k) == t;
      var i := EarlyVisit(next, o, k);
    }
  }

  lemma ReachNext(next: seq<int>, o: int, t: int)
    requires WfNext(next) && InRange(o, |next|) && InRange(t, |next|)
    ensures Reach(next, o, o)
    ensures Reach(next, o, t) ==> Reach(next, o, next[t])
  {
    assert Iter(next, o, 0) == o;
    if k: nat :| Iter(next, o, k) == t {
      IterAdd(next, o, k, 1);
      assert Iter(next, t, 1) == next[t];
      assert Iter(next, o, k + 1) == next[t];
    }
  }

  /** A task reachable from `o` other than `o` itself has a reachable waiter. */
  lemma ReachPred(next: seq<int>, o: int, t: int) returns (w: int)
    requires WfNext(next) && InRange(o, |next|) && InRange(t, |next|) && Reach(next, o, t) && t != o
    ensures InRange(w, |next|) && next[w] == t && Reach(next, o, w)
  {
    var k: nat :| Iter(next, o, k) == t;
    assert k > 0;
    IterAdd(next, o, k - 1, 1);
    w := Iter(next, o, k - 1);
    assert Iter(next, w, 1) == t;
  }

  // ---------------------------------------------------------------- never under-boosted

  /** No owner is weaker than one of its waiters. */
  ghost predicate Covered(next: seq<int>, e: seq<int>)
    requires WfNext(next) && |e| == |next|
  {
    forall w :: 0 <= w < |next| && next[w] != NULL ==> e[next[w]] <= e[w]
  }

  lemma {:induction false} DonateCovers(next: seq<int>, e: seq<int>, c: int, o: int, fuel: nat)
    requires WfNext(next) && |e| == |next| <= fuel && InRange(o, |e|) && InRange(c, |e|) && c != o
    requires Covered(next, e) && next[c] == NULL
    ensures Covered(next[c := o], Donate(next, e, o, e[c], fuel))
  {
    var next' := next[c := o];
    var e' := Donate(next, e, o, e[c], fuel);
    forall w | 0 <= w < |next| && next'[w] != NULL
      ensures e'[next'[w]] <= e'[w]
    {
      DonateReaches(next, e, o, e[c], fuel, w);
      DonateReaches(next, e, o, e[c], fuel, next'[w]);
      ReachNext(next, o, w);
    }
  }

  /** One assignment of a recomputation. */
  lemma LocalCovers(g: Graph, e: seq<int>, o: int)
    requires Consistent(g) && |e| == |g.next| && InRange(o, |e|) && Covered(g.next, e) && e[o] <= g.base[o]
    ensures e[o] <= Local(g, e, o) <= g.base[o] && Covered(g.next, e[o := Local(g, e, o)])
  {
    forall w | w in g.waiters[o]
      ensures 0 <= w < |e| && g.next[w] == o && e[o] <= e[w]
    {
    }
    assert forall w :: 0 <= w < |e| && g.next[w] == o ==> w in g.waiters[o];
  }

  /** Recomputation never strengthens a task that is not under-boosted, and keeps every task so. */
  lemma {:induction false} RecomputeCovers(g: Graph, e: seq<int>, o: int, fuel: nat)
    requires Consistent(g) && |e| == |g.next| && (o == NULL || InRange(o, |e|)) && Covered(g.next, e)
    requires forall t :: 0 <= t < |e| ==> e[t] <= g.base[t]
    ensures Covered(g.next, Recompute(g, e, o, fuel))
    ensures forall t :: 0 <= t < |e| ==> e[t] <= Recompute(g, e, o, fuel)[t] <= g.base[t]
    decreases fuel
  {
    if o != NULL && fuel > 0 {
      LocalCovers(g, e, o);
      RecomputeCovers(g, e[o := Local(g, e, o)], g.next[o], fuel - 1);
    }
  }

  // ---------------------------------------------------------------- exactness

  lemma LocalIs(g: Graph, e: seq<int>, t: int, p: int)
    requires Consistent(g) && |e| == |g.next| && InRange(t, |e|)
    requires p <= g.base[t] && forall w :: 0 <= w < |e| && g.next[w] == t ==> p <= e[w]
    requires p == g.base[t] || exists w :: 0 <= w < |e| && g.next[w] == t && p == e[w]
    ensures Local(g, e, t) == p
  {
    forall w | w in g.waiters[t]
      ensures 0 <= w < |e| && g.next[w] == t
    {
    }
  }

  /** `g'` is `g` after task `c`, not waiting so far, starts to wait for `o`. */
  ghost predicate AddsEdge(g: Graph, g': Graph, c: int, o: int)
    requires WfGraph(g)
  {
    && InRange(c, |g.next|) && InRange(o, |g.next|) && c != o
    && g.next[c] == NULL && g'.next == g.next[c := o] && g'.base == g.base
  }

  /** Donation keeps the equation of every task that satisfies it, whether or not the new
      edge closes a cycle. */
  lemma {:induction false} DonateKeepsExact(g: Graph, g': Graph, e: seq<int>, c: int, o: int, fuel: nat, t: int)
    requires Consistent(g) && Consistent(g') && |e| == |g.next| <= fuel && AddsEdge(g, g', c, o)
    requires InRange(t, |e|) && Exact(g, e, t)
    ensures Exact(g', Donate(g.next, e, o, e[c], fuel), t)
  {
    var p := e[c];
    var e' := Donate(g.next, e, o, p, fuel);
    forall w | 0 <= w < |e|
      ensures e'[w] == if Reach(g.next, o, w) then Min(e[w], p) else e[w]
    {
      DonateReaches(g.next, e, o, p, fuel, w);
    }
    forall w | 0 <= w < |e| && g.next[w] == t
      ensures w in g.waiters[t] && (Reach(g.next, o, w) ==> Reach(g.next, o, t))
    {
      ReachNext(g.next, o, w);
    }
    if Reach(g.next, o, t) {
      if e[t] <= p {
        ExactWitness(g, g', e, e', c, t);
      } else if t == o {
        assert g'.next[c] == t && e'[c] == p;
      } else {
        var w := ReachPred(g.next, o, t);
        assert w in g.waiters[t];
        assert g'.next[w] == t && e'[w] == Min(e[w], p);
      }
    } else {
      ReachNext(g.next, o, o);
      assert forall w :: 0 <= w < |e| && g.next[w] == t ==> e'[w] == e[w];
      ExactWitness(g, g', e, e', c, t);
    }
    LocalIs(g', e', t, e'[t]);
  }

  /** An unchanged exact priority is still attained by its base or an unchanged waiter. */
  lemma ExactWitness(g: Graph, g': Graph, e: seq<int>, e': seq<int>, c: int, t: int)
    requires Consistent(g) && Consistent(g') && |e| == |e'| == |g.next| == |g'.next| && InRange(t, |e|)
    requires g'.base == g.base && InRange(c, |e|) && g.next[c] == NULL
    requires forall w :: 0 <= w < |e| && w != c ==> g'.next[w] == g.next[w]
    requires Exact(g, e, t)
    requires forall w :: 0 <= w < |e| && g.next[w] == t && e[w] == e[t] ==> e'[w] == e[t]
    ensures e[t] == g'.base[t] || exists w :: 0 <= w < |e| && g'.next[w] == t && e[t] == e'[w]
  {
    if e[t] != g.base[t] {
      var w :| w in g.waiters[t] && e[t] == e[w];
      assert g.next[w] == t && w != c;
    }
  }

  /** After a recomputation exactly those tasks satisfy their equation that did before or that lie
      on the chain, if its walk reaches the end of the chain, or a cycle of a graph without
      under-boosted tasks: there all equations hold already. */
  lemma {:induction false} RecomputeClears(g: Graph, e: seq<int>, o: int, fuel: nat, t: int)
    requires Consistent(g) && |e| == |g.next| && InRange(o, |e|) && InRange(t, |e|)
    requires Iter(g.next, o, fuel) == NULL || (OnCycle(g.next, Iter(g.next, o, fuel)) && Boosted(g, e))
    ensures Exact(g, Recompute(g, e, o, fuel), t) <==> Exact(g, e, t) || Reach(g.next, o, t)
    ensures !Reach(g.next, o, t) ==> Recompute(g, e, o, fuel)[t] == e[t]
    decreases fuel
  {
    if fuel == 0 {
      if Reach(g.next, o, t) {
        CycleExact(g, e, o, t);
      }
      return;
    }
    var e1 := e[o := Local(g, e, o)];
    var o1 := g.next[o];
    LocalFrame(g, e, e1, o, o);
    LocalFrame(g, e, e1, o, t);
    assert Iter(g.next, o, 0) == o;
    if o1 == NULL {
      if k: nat :| Iter(g.next, o, k) == t {
        assert k > 0 ==> Iter(g.next, o1, k - 1) == NULL;
      }
      assert Recompute(g, e, o, fuel) == e1;
    } else {
      if Boosted(g, e) {
        LocalCovers(g, e, o);
      }
      RecomputeClears(g, e1, o1, fuel - 1, t);
      ReachStep(g.next, o, t);
      ReachNext(g.next, o1, o1);
    }
  }

  /** No owner is weaker than one of its waiters, no task weaker than its base. */
  ghost predicate Boosted(g: Graph, e: seq<int>)
    requires WfGraph(g) && |e| == |g.next|
  {
    Covered(g.next, e) && forall t :: 0 <= t < |e| ==> e[t] <= g.base[t]
  }

  ghost predicate OnCycle(next: seq<int>, t: int)
    requires WfNext(next) && InRange(t, |next|)
  {
    exists k: nat :: k >= 1 && Iter(next, t, k) == t
  }

  /** The tasks of a cycle are equally strong, so each of them satisfies its equation. */
  lemma CycleExact(g: Graph, e: seq<int>, o: int, t: int)
    requires Consistent(g) && |e| == |g.next| && InRange(o, |e|) && InRange(t, |e|) && Boosted(g, e)
    requires OnCycle(g.next, o) && Reach(g.next, o, t)
    ensures Exact(g, e, t)
  {
    var k: nat :| Iter(g.next, o, k) == t;
    var c: nat :| c >= 1 && Iter(g.next, o, c) == o;
    IterAdd(g.next, o, k, c);
    IterAdd(g.next, o, c, k);
    IterAdd(g.next, t, c - 1, 1);
    var w := Iter(g.next, t, c - 1);
    assert Iter(g.next, w, 1) == t;
    ChainBound(g, e, t, c - 1);
    assert g.next[w] == t && e[w] == e[t];
    ExactIffJustified(g, e, t);
  }

  /** A walk of at least as many hops as there are tasks reaches the end of its chain or a cycle. */
  lemma EndsOrLoops(next: seq<int>, o: int, fuel: nat)
    requires WfNext(next) && InRange(o, |next|) && |next| <= fuel
    ensures Iter(next, o, fuel) == NULL || OnCycle(next, Iter(next, o, fuel))
  {
    var n := |next|;
    if Iter(next, o, fuel) != NULL {
      forall j: nat | j <= n
        ensures Iter(next, o, j) != NULL
      {
        IterAdd(next, o, j, fuel - j);
      }
      var a, b := Pigeonhole(seq(n + 1, j requires 0 <= j <= n => Iter(next, o, j)), n);
      IterAdd(next, o, a, fuel - a);
      IterAdd(next, o, b, fuel - a);
      IterAdd(next, o, fuel, b - a);
      assert Iter(next, Iter(next, o, fuel), b - a) == Iter(next, o, fuel);
    }
  }

  lemma ReachStep(next: seq<int>, o: int, t: int)
    requires WfNext(next) && InRange(o, |next|) && next[o] != NULL && InRange(t, |next|)
    ensures Reach(next, o, t) <==> t == o || Reach(next, next[o], t)
  {
    assert Iter(next, o, 0) == o;
    if k: nat :| Iter(next, o, k) == t {
      if k > 0 {
        assert Iter(next, next[o], k - 1) == t;
      }
    }
    if k: nat :| Iter(next, next[o], k) == t {
      assert Iter(next, o, k + 1) == t;
    }
  }

  lemma {:induction false} MinEffFrame(e: seq<int>, e1: seq<int>, ws: seq<int>, b: int)
    requires |e| == |e1| && (forall w :: w in ws ==> 0 <= w < |e|) && (forall w :: w in ws ==> e[w] == e1[w])
    ensures MinEff(e, ws, b) == MinEff(e1, ws, b)
  {
    if ws != [] {
      var k := |ws| - 1;
      assert ws[k] in ws;
      assert forall w :: w in ws[..k] ==> w in ws;
      MinEffFrame(e, e1, ws[..k], b);
    }
  }

  /** Changing `o` affects only the equation of the task `o` waits for. */
  lemma LocalFrame(g: Graph, e: seq<int>, e1: seq<int>, o: int, t: int)
    requires Consistent(g) && |e| == |e1| == |g.next| && InRange(o, |e|) && InRange(t, |e|)
    requires e1 == e[o := e1[o]]
    ensures g.next[o] != t ==> Local(g, e1, t) == Local(g, e, t)
  {
    if g.next[o] != t {
      assert forall w :: w in g.waiters[t] ==> w != o;
      MinEffFrame(e, e1, g.waiters[t], g.base[t]);
    }
  }

  /** If every task satisfies its equation a recomputation changes nothing, cycles included. */
  lemma {:induction false} RecomputeNoOp(g: Graph, e: seq<int>, o: int, fuel: nat)
    requires WfGraph(g) && |e| == |g.next| && (o == NULL || InRange(o, |e|))
    requires forall t :: 0 <= t < |e| ==> Exact(g, e, t)
    ensures Recompute(g, e, o, fuel) == e
    decreases fuel
  {
    if o != NULL && fuel > 0 {
      assert Exact(g, e, o);
      assert e[o := Local(g, e, o)] == e;
      RecomputeNoOp(g, e, g.next[o], fuel - 1);
    }
  }

  // ---------------------------------------------------------------- who stands behind a priority

  /** The priority of `t` is its base or that of one of its waiters. */
  ghost predicate Justified(g: Graph, e: seq<int>, t: int)
    requires WfGraph(g) && |e| == |g.next| && InRange(t, |e|)
  {
    e[t] == g.base[t] || exists w :: 0 <= w < |e| && g.next[w] == t && e[w] == e[t]
  }

  lemma LocalBelow(g: Graph, e: seq<int>, t: int, p: int)
    requires Consistent(g) && |e| == |g.next| && InRange(t, |e|)
    ensures Local(g, e, t) <= p <==> g.base[t] <= p || exists w :: 0 <= w < |e| && g.next[w] == t && e[w] <= p
  {
    forall w | w in g.waiters[t]
      ensures 0 <= w < |e| && g.next[w] == t
    {
    }
    forall w | 0 <= w < |e| && g.next[w] == t
      ensures w in g.waiters[t]
    {
    }
  }

  /** A task that is not under-boosted satisfies its equation exactly if somebody stands behind its
      priority. */
  lemma ExactIffJustified(g: Graph, e: seq<int>, t: int)
    requires Consistent(g) && |e| == |g.next| && InRange(t, |e|) && Covered(g.next, e) && e[t] <= g.base[t]
    ensures Exact(g, e, t) <==> Justified(g, e, t)
    ensures e[t] <= Local(g, e, t)
  {
    LocalBelow(g, e, t, e[t]);
    LocalBelow(g, e, t, e[t] - 1);
  }

  /** Which tasks satisfy their equation after a donation that is followed by the new wait edge:
      those that did, and those that the donation reaches and that are not stronger than it. */
  lemma {:induction false} DonateExactIff(g: Graph, g': Graph, e: seq<int>, c: int, o: int, fuel: nat, t: int)
    requires Consistent(g) && Consistent(g') && |e| == |g.next| <= fuel && AddsEdge(g, g', c, o)
    requires Covered(g.next, e) && InRange(t, |e|) && e[t] <= g.base[t]
    ensures Exact(g', Donate(g.next, e, o, e[c], fuel), t) <==>
      Exact(g, e, t) || (Reach(g.next, o, t) && e[c] <= e[t])
  {
    var e' := Donate(g.next, e, o, e[c], fuel);
    DonateCovers(g.next, e, c, o, fuel);
    forall x | 0 <= x < |e|
      ensures e'[x] == if Reach(g.next, o, x) then Min(e[x], e[c]) else e[x]
    {
      DonateReaches(g.next, e, o, e[c], fuel, x);
    }
    ExactIffJustified(g, e, t);
    ExactIffJustified(g', e', t);
    if Reach(g.next, o, t) && e[c] <= e[t] {
      DonorStandsBehind(g, g', e, e', c, o, t);
    } else {
      JustifiedKept(g, g', e, e', c, o, t);
    }
  }

  lemma DonorStandsBehind(g: Graph, g': Graph, e: seq<int>, e': seq<int>, c: int, o: int, t: int)
    requires Consistent(g) && WfGraph(g') && |e| == |e'| == |g.next| && AddsEdge(g, g', c, o) && InRange(t, |e|)
    requires forall x :: 0 <= x < |e| ==> e'[x] == if Reach(g.next, o, x) then Min(e[x], e[c]) else e[x]
    requires Covered(g'.next, e') && Reach(g.next, o, t) && e[c] <= e[t]
    ensures Justified(g', e', t)
  {
    if t == o {
      assert g'.next[c] == t && e'[c] == e[c];
    } else {
      var w := ReachPred(g.next, o, t);
      assert g'.next[w] == t && e'[w] == e'[t];
    }
  }

  lemma JustifiedKept(g: Graph, g': Graph, e: seq<int>, e': seq<int>, c: int, o: int, t: int)
    requires Consistent(g) && WfGraph(g') && |e| == |e'| == |g.next| && AddsEdge(g, g', c, o) && InRange(t, |e|)
    requires forall x :: 0 <= x < |e| ==> e'[x] == if Reach(g.next, o, x) then Min(e[x], e[c]) else e[x]
    requires Reach(g.next, o, t) ==> e[t] < e[c]
    ensures Justified(g', e', t) <==> Justified(g, e, t)
  {
    ReachNext(g.next, o, o);
    forall w | 0 <= w < |e| && w != c
      ensures g'.next[w] == g.next[w]
      ensures g.next[w] == t ==> (e'[w] == e'[t] <==> e[w] == e[t])
    {
      ReachNext(g.next, o, w);
    }
    if e'[t] != g.base[t] {
      if w :| 0 <= w < |e| && g'.next[w] == t && e'[w] == e'[t] {
        assert g.next[w] == t && e[w] == e[t];
      }
      if w :| 0 <= w < |e| && g.next[w] == t && e[w] == e[t] {
        assert g'.next[w] == t && e'[w] == e'[t];
      }
    }
  }

  /** A recomputation touches nobody that is not on the chain, cycles included. */
  lemma {:induction false} RecomputeAvoids(g: Graph, e: seq<int>, o: int, fuel: nat, t: int)
    requires WfGraph(g) && |e| == |g.next| && (o == NULL || InRange(o, |e|)) && InRange(t, |e|)
    requires o == NULL || !Reach(g.next, o, t)
    ensures Recompute(g, e, o, fuel)[t] == e[t]
    decreases fuel
  {
    if o != NULL && fuel > 0 {
      assert Iter(g.next, o, 0) == o;
      if g.next[o] != NULL {
        ReachStep(g.next, o, t);
      }
      RecomputeAvoids(g, e[o := Local(g, e, o)], g.next[o], fuel - 1, t);
    }
  }

  lemma PastEnd(next: seq<int>, a: int, k: nat)
    requires WfNext(next) && InRange(a, |next|) && next[a] == NULL && k > 0
    ensures Iter(next, a, k) == NULL
  {
    assert Iter(next, a, k) == Iter(next, NULL, k - 1);
  }

  /** A chain has one end. */
  lemma EndUnique(next: seq<int>, o: int, a: int, b: int)
    requires WfNext(next) && InRange(o, |next|) && InRange(a, |next|) && InRange(b, |next|)
    requires Reach(next, o, a) && Reach(next, o, b) && next[a] == NULL && next[b] == NULL
    ensures a == b
  {
    var i: nat :| Iter(next, o, i) == a;
    var j: nat :| Iter(next, o, j) == b;
    if i < j {
      PastEnd(next, a, j - i);
      IterAdd(next, o, i, j - i);
    } else if j < i {
      PastEnd(next, b, i - j);
      IterAdd(next, o, j, i - j);
    }
  }

  /** Some task on the chain from `o` has a base priority of at least strength `p`, or a waiter of
      that strength that is not itself on the chain. */
  ghost predicate Backed(g: Graph, e: seq<int>, o: int, p: int)
    requires WfGraph(g) && |e| == |g.next| && InRange(o, |e|)
  {
    exists x :: 0 <= x < |e| && Reach(g.next, o, x) && Claims(g, e, o, x, p)
  }

  ghost predicate Claims(g: Graph, e: seq<int>, o: int, x: int, p: int)
    requires WfGraph(g) && |e| == |g.next| && InRange(o, |e|) && InRange(x, |e|)
  {
    g.base[x] <= p || exists w :: 0 <= w < |e| && g.next[w] == x && !Reach(g.next, o, w) && e[w] <= p
  }

  /** What a recomputation from `o` leaves to the task at the end of the chain: a priority of at
      least strength `p` exactly if the chain is backed at `p`. */
  lemma {:induction false} RecomputeBacked(g: Graph, e: seq<int>, o: int, fuel: nat, c: int, p: int)
    requires Consistent(g) && |e| == |g.next| && InRange(o, |e|) && InRange(c, |e|)
    requires Iter(g.next, o, fuel) == NULL && Reach(g.next, o, c) && g.next[c] == NULL
    ensures Recompute(g, e, o, fuel)[c] <= p <==> Backed(g, e, o, p)
    decreases fuel
  {
    var e1 := e[o := Local(g, e, o)];
    var o1 := g.next[o];
    LocalBelow(g, e, o, p);
    NoReturn(g.next, o, fuel);
    if o1 == NULL {
      OnlyReaches(g.next, o);
      assert Recompute(g, e, o, fuel) == e1;
      assert Claims(g, e, o, o, p) <==> Local(g, e, o) <= p;
    } else {
      ReachStep(g.next, o, c);
      RecomputeBacked(g, e1, o1, fuel - 1, c, p);
      BackedStep(g, e, o, p);
    }
  }

  lemma BackedStep(g: Graph, e: seq<int>, o: int, p: int)
    requires Consistent(g) && |e| == |g.next| && InRange(o, |e|) && g.next[o] != NULL
    requires forall w :: 0 <= w < |e| && g.next[w] == o ==> !Reach(g.next, o, w)
    requires !Reach(g.next, g.next[o], o)
    ensures Backed(g, e[o := Local(g, e, o)], g.next[o], p) <==> Backed(g, e, o, p)
  {
    var e1 := e[o := Local(g, e, o)];
    var o1 := g.next[o];
    LocalBelow(g, e, o, p);
    ReachNext(g.next, o1, o1);
    ReachNext(g.next, o, o);
    forall x | 0 <= x < |e|
      ensures Reach(g.next, o, x) <==> x == o || Reach(g.next, o1, x)
    {
      ReachStep(g.next, o, x);
    }
    assert Claims(g, e, o, o, p) <==> Local(g, e, o) <= p;
    forall x | 0 <= x < |e| && x != o && x != o1
      ensures Claims(g, e1, o1, x, p) <==> Claims(g, e, o, x, p)
    {
    }
    HeadClaims(g, e, o, p);
  }

  /** The first link of a chain: a claim of its head counts for the next task. */
  lemma HeadClaims(g: Graph, e: seq<int>, o: int, p: int)
    requires Consistent(g) && |e| == |g.next| && InRange(o, |e|) && g.next[o] != NULL && !Reach(g.next, g.next[o], o)
    requires forall x :: 0 <= x < |e| ==> (Reach(g.next, o, x) <==> x == o || Reach(g.next, g.next[o], x))
    ensures Claims(g, e[o := Local(g, e, o)], g.next[o], g.next[o], p) <==>
      Claims(g, e, o, g.next[o], p) || Local(g, e, o) <= p
  {
    var e1 := e[o := Local(g, e, o)];
    var o1 := g.next[o];
    if g.base[o1] > p {
      if Local(g, e, o) <= p {
        assert g.next[o] == o1 && e1[o] <= p;
      }
      if w :| 0 <= w < |e| && g.next[w] == o1 && !Reach(g.next, o, w) && e[w] <= p {
        assert w != o && e1[w] <= p;
      }
    }
  }

  /** On a chain that ends nobody comes round to `o` again. */
  lemma NoReturn(next: seq<int>, o: int, fuel: nat)
    requires WfNext(next) && InRange(o, |next|) && Iter(next, o, fuel) == NULL
    ensures next[o] != NULL ==> !Reach(next, next[o], o)
    ensures forall w :: 0 <= w < |next| && next[w] == o ==> !Reach(next, o, w)
  {
    if next[o] != NULL && Reach(next, next[o], o) {
      var k: nat :| Iter(next, next[o], k) == o;
      NotNullPrefix(next, o, k + 1, fuel);
    }
    forall w | 0 <= w < |next| && next[w] == o
      ensures !Reach(next, o, w)
    {
      if k: nat :| Iter(next, o, k) == w {
        IterAdd(next, o, k, 1);
        assert Iter(next, w, 1) == o;
        NotNullPrefix(next, o, k + 1, fuel);
      }
    }
  }

  lemma OnlyReaches(next: seq<int>, o: int)
    requires WfNext(next) && InRange(o, |next|) && next[o] == NULL
    ensures forall x :: 0 <= x < |next| ==> (Reach(next, o, x) <==> x == o)
  {
    assert Iter(next, o, 0) == o;
    forall k: nat | k > 0
      ensures Iter(next, o, k) == NULL
    {
    }
  }

  // ---------------------------------------------------------------- the global meaning

  /** `p` is the strongest base priority among `t` and all tasks transitively blocked on
      mutexes that `t` owns. */
  ghost predicate TransitiveMin(g: Graph, t: int, p: int)
    requires WfGraph(g) && InRange(t, |g.next|)
  {
    && (forall u :: 0 <= u < |g.next| && Reach(g.next, u, t) ==> p <= g.base[u])
    && (exists u :: 0 <= u < |g.next| && Reach(g.next, u, t) && p == g.base[u])
  }

  lemma {:induction false} ChainBound(g: Graph, e: seq<int>, u: int, k: nat)
    requires WfGraph(g) && |e| == |g.next| && InRange(u, |e|) && Covered(g.next, e)
    requires Iter(g.next, u, k) != NULL
    ensures e[Iter(g.next, u, k)] <= e[u]
    decreases k
  {
    if k > 0 {
      ChainBound(g, e, g.next[u], k - 1);
    }
  }

  /** The base priority that an exact priority comes from. */
  lemma {:induction false} Source(g: Graph, e: seq<int>, t: int, k: nat) returns (u: int)
    requires Consistent(g) && |e| == |g.next| && InRange(t, |e|) && Acyclic(g.next)
    requires forall x :: 0 <= x < |e| ==> Exact(g, e, x)
    requires k < |e| && Iter(g.next, t, k) != NULL
    ensures InRange(u, |e|) && Reach(g.next, u, t) && e[t] == g.base[u]
    decreases |e| - k
  {
    if e[t] == g.base[t] {
      assert Iter(g.next, t, 0) == t;
      return t;
    }
    assert Exact(g, e, t);
    var w :| w in g.waiters[t] && e[t] == e[w];
    assert g.next[w] == t;
    assert Iter(g.next, w, k + 1) == Iter(g.next, t, k);
    AcyclicEnds(g.next, w);
    u := Source(g, e, w, k + 1);
    var j: nat :| Iter(g.next, u, j) == w;
    IterAdd(g.next, u, j, 1);
    assert Iter(g.next, w, 1) == t;
    assert Iter(g.next, u, j + 1) == t;
  }

  /** In an acyclic graph the local equations have one solution only: the transitive minimum. */
  lemma {:induction false} ExactIsTransitive(g: Graph, e: seq<int>)
    requires Consistent(g) && |e| == |g.next| && Acyclic(g.next)
    ensures (forall t :: 0 <= t < |e| ==> Exact(g, e, t)) <==> (forall t :: 0 <= t < |e| ==> TransitiveMin(g, t, e[t]))
  {
    if forall t :: 0 <= t < |e| ==> Exact(g, e, t) {
      assert Covered(g.next, e) by {
        forall w | 0 <= w < |e| && g.next[w] != NULL
          ensures e[g.next[w]] <= e[w]
        {
          assert Exact(g, e, g.next[w]) && w in g.waiters[g.next[w]];
        }
      }
      forall t | 0 <= t < |e|
        ensures TransitiveMin(g, t, e[t])
      {
        ExactTransitiveAt(g, e, t);
      }
    } else if forall t :: 0 <= t < |e| ==> TransitiveMin(g, t, e[t]) {
      forall t | 0 <= t < |e|
        ensures Exact(g, e, t)
      {
        TransitiveExactAt(g, e, t);
      }
    }
  }

  lemma {:induction false} ExactTransitiveAt(g: Graph, e: seq<int>, t: int)
    requires Consistent(g) && |e| == |g.next| && Acyclic(g.next) && InRange(t, |e|) && Covered(g.next, e)
    requires forall x :: 0 <= x < |e| ==> Exact(g, e, x)
    ensures TransitiveMin(g, t, e[t])
  {
    forall u | 0 <= u < |e| && Reach(g.next, u, t)
      ensures e[t] <= g.base[u]
    {
      var k: nat :| Iter(g.next, u, k) == t;
      ChainBound(g, e, u, k);
      assert Exact(g, e, u);
    }
    assert Iter(g.next, t, 0) == t;
    var u := Source(g, e, t, 0);
  }

  lemma {:induction false} TransitiveExactAt(g: Graph, e: seq<int>, t: int)
    requires Consistent(g) && |e| == |g.next| && InRange(t, |e|)
    requires forall x :: 0 <= x < |e| ==> TransitiveMin(g, x, e[x])
    ensures Exact(g, e, t)
  {
    assert Iter(g.next, t, 0) == t;
    forall w | 0 <= w < |e| && g.next[w] == t
      ensures e[t] <= e[w]
    {
      assert TransitiveMin(g, w, e[w]);
      var u :| 0 <= u < |e| && Reach(g.next, u, w) && e[w] == g.base[u];
      ReachNext(g.next, u, w);
    }
    assert TransitiveMin(g, t, e[t]);
    var u :| 0 <= u < |e| && Reach(g.next, u, t) && e[t] == g.base[u];
    if u != t {
      var w := ReachPred(g.next, u, t);
      assert TransitiveMin(g, w, e[w]);
      assert e[w] <= g.base[u];
      assert e[t] == e[w];
    }
    LocalIs(g, e, t, e[t]);
  }

  // ---------------------------------------------------------------- inherited priorities, cycles included

  /** The priority of `t` is the base priority of a task that depends on `t`. */
  ghost predicate Attained(g: Graph, e: seq<int>, t: int)
    requires WfGraph(g) && |e| == |g.next| && InRange(t, |e|)
  {
    exists u :: 0 <= u < |e| && Reach(g.next, u, t) && e[t] == g.base[u]
  }

  /** Where nobody is under-boosted an attained priority is the transitive minimum. */
  lemma AttainedIsMin(g: Graph, e: seq<int>, t: int)
    requires WfGraph(g) && |e| == |g.next| && InRange(t, |e|) && Boosted(g, e)
    ensures TransitiveMin(g, t, e[t]) <==> Attained(g, e, t)
  {
    forall u | 0 <= u < |e| && Reach(g.next, u, t)
      ensures e[t] <= g.base[u]
    {
      var k: nat :| Iter(g.next, u, k) == t;
      ChainBound(g, e, u, k);
    }
  }

  lemma ReachOver(next: seq<int>, u: int, t: int, v: int)
    requires WfNext(next) && InRange(u, |next|) && InRange(t, |next|) && InRange(v, |next|)
    requires Reach(next, u, t) && Reach(next, t, v)
    ensures Reach(next, u, v)
  {
    var j: nat :| Iter(next, u, j) == t;
    var k: nat :| Iter(next, t, k) == v;
    IterAdd(next, u, j, k);
    assert Iter(next, u, j + k) == v;
  }

  /** A donation and its wait edge keep every priority the transitive minimum, whether or not the
      edge closes a cycle. */
  lemma {:induction false} DonateAttains(g: Graph, g': Graph, e: seq<int>, c: int, o: int, fuel: nat, t: int)
    requires WfGraph(g) && WfGraph(g') && |e| == |g.next| <= fuel && AddsEdge(g, g', c, o) && InRange(t, |e|)
    requires Attained(g, e, c) && Attained(g, e, t)
    ensures Attained(g', Donate(g.next, e, o, e[c], fuel), t)
  {
    DonateReaches(g.next, e, o, e[c], fuel, t);
    if Reach(g.next, o, t) && e[c] < e[t] {
      var u :| 0 <= u < |e| && Reach(g.next, u, c) && e[c] == g.base[u];
      EdgeReach(g.next, c, o, u, c);
      EdgeReach(g.next, c, o, o, t);
      assert Iter(g'.next, c, 1) == Iter(g'.next, o, 0) == o;
      ReachOver(g'.next, c, o, t);
      ReachOver(g'.next, u, c, t);
    } else {
      var u :| 0 <= u < |e| && Reach(g.next, u, t) && e[t] == g.base[u];
      EdgeReach(g.next, c, o, u, t);
    }
  }

  /** A new edge of a task that waited for nobody cuts no chain. */
  lemma EdgeReach(next: seq<int>, c: int, o: int, u: int, t: int)
    requires WfNext(next) && InRange(c, |next|) && InRange(o, |next|) && InRange(u, |next|) && InRange(t, |next|)
    requires next[c] == NULL && Reach(next, u, t)
    ensures Reach(next[c := o], u, t)
  {
    var k: nat :| Iter(next, u, k) == t;
    forall j: nat | j < k
      ensures Iter(next, u, j) != c
    {
      if Iter(next, u, j) == c {
        IterAdd(next, u, j, k - j);
        PastEnd(next, c, k - j);
      }
    }
    SameIter(next[c := o], next, u, k);
  }

  /** Redirecting the waiters of `c`, on whom `b` waited, leaves the chains to all others alone. */
  lemma {:induction false} StaysAttained(g: Graph, g': Graph, e: seq<int>, e': seq<int>, b: int, c: int, t: int)
    requires WfGraph(g) && WfGraph(g') && |e| == |e'| == |g.next| == |g'.next| && g'.base == g.base
    requires InRange(b, |e|) && InRange(c, |e|) && g.next[b] == c && g.next[c] == NULL
    requires forall x :: 0 <= x < |e| && x != b && g.next[x] != c ==> g'.next[x] == g.next[x]
    requires InRange(t, |e|) && t != b && t != c && e'[t] == e[t] && Attained(g, e, t)
    ensures Attained(g', e', t)
  {
    var u :| 0 <= u < |e| && Reach(g.next, u, t) && e[t] == g.base[u];
    var k: nat :| Iter(g.next, u, k) == t;
    forall j: nat | j < k && Iter(g.next, u, j) != NULL
      ensures g'.next[Iter(g.next, u, j)] == g.next[Iter(g.next, u, j)]
    {
      IterAdd(g.next, u, j, k - j);
      ChainAvoids(g.next, Iter(g.next, u, j), k - j, t, b, c);
    }
    SameIter(g'.next, g.next, u, k);
  }

  /** A chain to a task that is neither `b` nor `c` meets neither of them if `b` waits for `c` and
      `c` for nobody. */
  lemma ChainAvoids(next: seq<int>, x: int, k: nat, t: int, b: int, c: int)
    requires WfNext(next) && InRange(x, |next|) && InRange(t, |next|) && InRange(b, |next|) && InRange(c, |next|)
    requires Iter(next, x, k) == t && k > 0 && next[b] == c && next[c] == NULL && t != b && t != c
    ensures x != b && x != c && next[x] != c
  {
    PastEnd(next, c, k);
    if k > 1 {
      PastEnd(next, c, k - 1);
    }
  }

  /** A task whose equation holds attains its priority if all its waiters do. */
  lemma LocalAttains(g: Graph, e: seq<int>, t: int)
    requires Consistent(g) && |e| == |g.next| && InRange(t, |e|) && Exact(g, e, t)
    requires forall w :: 0 <= w < |e| && g.next[w] == t ==> Attained(g, e, w)
    ensures Attained(g, e, t)
  {
    if e[t] == g.base[t] {
      assert Iter(g.next, t, 0) == t;
    } else {
      var w :| w in g.waiters[t] && e[t] == e[w];
      assert g.next[w] == t && Attained(g, e, w);
      var u :| 0 <= u < |e| && Reach(g.next, u, w) && e[w] == g.base[u];
      ReachNext(g.next, u, w);
    }
  }

  // ---------------------------------------------------------------- cycles

  /** A task that starts to wait closes a cycle exactly when the owner it waits for already
      depends on it. */
  lemma {:induction false} EdgeAcyclic(next: seq<int>, c: int, o: int)
    requires WfNext(next) && InRange(c, |next|) && InRange(o, |next|) && next[c] == NULL
    ensures Acyclic(next[c := o]) <==> Acyclic(next) && !Reach(next, o, c)
  {
    var next' := next[c := o];
    if Acyclic(next) && !Reach(next, o, c) {
      forall t, k: nat | 0 <= t < |next| && k >= 1
        ensures Iter(next', t, k) != t
      {
        if Iter(next', t, k) == t {
          if j: nat :| j < k && Iter(next', t, j) == c {
            IterAdd(next', t, j, k);
            IterAdd(next', t, k, j);
            AvoidIter(next, c, o, o, k - 1);
          } else {
            SameIter(next, next', t, k);
          }
        }
      }
    } else if Acyclic(next') {
      if t, k: nat :| 0 <= t < |next| && k >= 1 && Iter(next, t, k) == t {
        forall j: nat | j < k
          ensures Iter(next, t, j) != c
        {
          if Iter(next, t, j) == c {
            IterAdd(next, t, j, k - j);
          }
        }
        SameIter(next', next, t, k);
      } else {
        var k: nat :| Iter(next, o, k) == c;
        forall j: nat | j < k
          ensures Iter(next, o, j) != c
        {
          if Iter(next, o, j) == c {
            IterAdd(next, o, j, k - j);
          }
        }
        SameIter(next', next, o, k);
        assert Iter(next', c, k + 1) == c;
      }
    }
  }

  /** Two graphs that agree along the first `k` tasks of a chain agree on the next one. */
  lemma {:induction false} SameIter(next: seq<int>, next': seq<int>, t: int, k: nat)
    requires WfNext(next) && WfNext(next') && |next| == |next'| && InRange(t, |next|)
    requires forall j: nat :: j < k && Iter(next', t, j) != NULL ==> next[Iter(next', t, j)] == next'[Iter(next', t, j)]
    ensures Iter(next, t, k) == Iter(next', t, k)
    decreases k
  {
    if k > 0 {
      assert Iter(next', t, 0) == t;
      if next[t] != NULL {
        forall j: nat | j < k - 1
          ensures Iter(next', next[t], j) == Iter(next', t, j + 1)
        {
        }
        SameIter(next, next', next[t], k - 1);
      }
    }
  }

  lemma {:induction false} AvoidIter(next: seq<int>, c: int, o: int, x: int, k: nat)
    requires WfNext(next) && InRange(c, |next|) && InRange(o, |next|) && InRange(x, |next|)
    requires !Reach(next, x, c)
    ensures Iter(next[c := o], x, k) == Iter(next, x, k)
  {
    SameIter(next[c := o], next, x, k);
  }

  /** Removing edges, or redirecting them to a task that waits for nobody, closes no cycle. */
  lemma {:induction false} ShrinkAcyclic(next: seq<int>, next': seq<int>)
    requires WfNext(next) && WfNext(next') && |next| == |next'| && Acyclic(next)
    requires forall t :: 0 <= t < |next| && next'[t] != NULL ==> next'[t] == next[t] || next'[next'[t]] == NULL
    ensures Acyclic(next')
  {
    forall t, k: nat | 0 <= t < |next| && k >= 1
      ensures Iter(next', t, k) != t
    {
      if Iter(next', t, k) == t {
        forall j: nat | j < k
          ensures Iter(next', t, j) != NULL && next[Iter(next', t, j)] == next'[Iter(next', t, j)]
        {
          IterAdd(next', t, j, k - j);
          var x := Iter(next', t, j);
          assert x != NULL;
          IterAdd(next', t, k, j + 2);
          IterAdd(next', t, j, k + 2);
          IterAdd(next', t, j, k + 2);
          NotNullPrefix(next', t, k, j + 2);
          IterAdd(next', t, j, 2);
          assert Iter(next', x, 2) == Iter(next', next'[x], 1);
        }
        SameIter(next, next', t, k);
      }
    }
  }

  /** A chain that returns to its start never ends. */
  lemma {:induction false} NotNullPrefix(next: seq<int>, t: int, k: nat, j: nat)
    requires WfNext(next) && InRange(t, |next|) && k >= 1 && Iter(next, t, k) == t
    ensures Iter(next, t, j) != NULL
    decreases j
  {
    if j >= k {
      IterAdd(next, t, k, j - k);
      NotNullPrefix(next, t, k, j - k);
    } else {
      IterAdd(next, t, j, k - j);
    }
  }
}
