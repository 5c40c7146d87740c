/** The scheduler's two scan loops as a cyclic search, and the fairness that follows. */
module RoundRobin {
  import opened Types
  import opened Spec
  import opened Invariants
  import opened Preserve
  import opened Runs
  import opened Effects
  import opened Traces

  // ---------------------------------------------------------------- the cyclic search

  /** How many user tasks come before `t` when counting cyclically from the one after `c`. */
  function Dist(n: int, c: int, t: int): int {
    if t > c then t - c - 1 else n - 1 - c + t - 1
  }

  predicate Eligible(ts: seq<Task>, lowest: int, t: int) {
    0 < t < |ts| && ts[t].state == Ready && ts[t].eff <= lowest
  }

  /** `r` is the first of the strongest ready user tasks in cyclic order after `c`; the idle task
      stands in if there is none. */
  ghost predicate IsNext(ts: seq<Task>, c: int, lowest: int, r: int) {
    if r == 0 then forall t :: !Eligible(ts, lowest, t)
    else
      && Eligible(ts, lowest, r)
      && forall t :: Eligible(ts, lowest, t) ==>
           ts[r].eff < ts[t].eff || (ts[r].eff == ts[t].eff && Dist(|ts|, c, r) <= Dist(|ts|, c, t))
  }

  /** What one scan loop has found when it ends: the first strongest entry of its range, if that
      beats what it started from. */
  ghost predicate Scanned(ts: seq<Task>, i: int, end: int, best: int, pick: int, b: int, p: int)
    requires 0 <= i && end <= |ts|
  {
    && b <= best
    && (b == best ==> p == pick)
    && (b < best ==> i <= p < end && ts[p].state == Ready && ts[p].eff == b)
    && (forall t :: i <= t < end && ts[t].state == Ready ==> b <= ts[t].eff)
    && (b < best ==> forall t :: i <= t < p && ts[t].state == Ready ==> b < ts[t].eff)
  }

  lemma {:induction false} ScanFinds(ts: seq<Task>, i: int, end: int, best: int, pick: int)
    requires 0 <= i && end <= |ts|
    ensures var (b, p) := Scan(ts, i, end, best, pick); Scanned(ts, i, end, best, pick, b, p)
    decreases end - i
  {
    if i < end {
      if ts[i].state == Ready && ts[i].eff < best {
        ScanFinds(ts, i + 1, end, ts[i].eff, i);
      } else {
        ScanFinds(ts, i + 1, end, best, pick);
      }
    }
  }

  /** The two loops compute exactly the cyclic search. */
  lemma NextTaskIff(ts: seq<Task>, c: int, lowest: int, r: int)
    requires 0 <= c < |ts|
    ensures NextTask(ts, c, lowest) == r <==> IsNext(ts, c, lowest, r)
  {
    ScanFinds(ts, c + 1, |ts|, lowest + 1, 0);
    var (b, p) := Scan(ts, c + 1, |ts|, lowest + 1, 0);
    ScanFinds(ts, 1, c + 1, b, p);
    var next := NextTask(ts, c, lowest);
    NextFound(ts, c, lowest, b, p, Scan(ts, 1, c + 1, b, p).0, next);
    NextUnique(ts, c, lowest, r, next);
  }

  lemma NextUnique(ts: seq<Task>, c: int, lowest: int, r: int, r': int)
    requires 0 <= c < |ts| && IsNext(ts, c, lowest, r')
    ensures IsNext(ts, c, lowest, r) ==> r == r'
  {
  }

  lemma NextFound(ts: seq<Task>, c: int, lowest: int, b: int, p: int, b': int, r: int)
    requires 0 <= c < |ts|
    requires Scanned(ts, c + 1, |ts|, lowest + 1, 0, b, p) && Scanned(ts, 1, c + 1, b, p, b', r)
    ensures IsNext(ts, c, lowest, r)
  {
  }

  // ---------------------------------------------------------------- the class that takes turns

  /** The user tasks able to run whose effective priority is strongest. */
  ghost function TopClass(s: State): set<int> {
    set t | 0 < t < |s.tasks| && s.tasks[t].state != Blocked &&
            forall u :: 0 < u < |s.tasks| && s.tasks[u].state != Blocked ==> s.tasks[t].eff <= s.tasks[u].eff
  }

  /** `r` follows `c` cyclically in the set `cl`. */
  ghost predicate IsSucc(cl: set<int>, c: int, r: int) {
    && r in cl
    && (r > c ==> forall u :: u in cl && u > c ==> r <= u)
    && (r <= c ==> forall u :: u in cl ==> u <= c && r <= u)
  }

  /** The scan sees every user task that is not blocked, the preempted one included. */
  lemma SwitchIsNext(s: State)
    requires KInv(s) && |s.tasks| > 1
    ensures IsNext(Preempted(s), s.current, s.cfg.lowest, Dispatch(s).current)
    ensures forall t :: 0 < t < |s.tasks| ==>
      && (Eligible(Preempted(s), s.cfg.lowest, t) <==> s.tasks[t].state != Blocked)
      && Preempted(s)[t].eff == s.tasks[t].eff
  {
    var ts := Preempted(s);
    NextTaskIff(ts, s.current, s.cfg.lowest, NextTask(ts, s.current, s.cfg.lowest));
    forall t | 0 < t < |s.tasks|
      ensures (Eligible(ts, s.cfg.lowest, t) <==> s.tasks[t].state != Blocked) && ts[t].eff == s.tasks[t].eff
    {
      assert AgreeTask(s, t);
    }
    hide KInv, IsNext;
  }

  /** A switch selects the idle task exactly if every user task is blocked. */
  lemma SwitchIdleIff(s: State)
    requires KInv(s)
    ensures Dispatch(s).current == 0 <==> forall t :: 0 < t < |s.tasks| ==> s.tasks[t].state == Blocked
  {
    if |s.tasks| > 1 {
      SwitchIsNext(s);
      hide KInv, Wf, Dispatch, Eligible;
    }
  }

  /** A switch gives the processor to the member of the top class that follows the task that had it. */
  lemma SwitchSucc(s: State)
    requires KInv(s) && TopClass(s) != {}
    ensures IsSucc(TopClass(s), s.current, Dispatch(s).current)
  {
    KRanges(s);
    var w :| w in TopClass(s);
    SwitchIsNext(s);
    hide KInv, Wf, Dispatch, Eligible, IsSucc;
    var ts := Preempted(s);
    var r := Dispatch(s).current;
    assert Eligible(ts, s.cfg.lowest, w);
    NearestIsSucc(|ts|, TopClass(s), s.current, r);
  }

  lemma NearestIsSucc(n: int, cl: set<int>, c: int, r: int)
    requires r in cl && 0 <= c < n && forall u :: u in cl ==> 0 < u < n && Dist(n, c, r) <= Dist(n, c, u)
    ensures IsSucc(cl, c, r)
  {
  }

  // ---------------------------------------------------------------- fairness

  /** The tasks that the switches of a run select, in order. */
  ghost function Dispatched(y: Sys, acts: seq<Action>): (d: seq<int>)
    requires SysInv(y) && Run(y, acts)
    decreases |acts|
  {
    if acts == [] then []
    else
      StepKeeps(y, acts[0]);
      (if acts[0].Switch? then [Step(y, acts[0]).k.current] else []) + Dispatched(Step(y, acts[0]), acts[1..])
  }

  /** At every switch `cl` is the top class. */
  ghost function TopIs(cl: set<int>): (Sys, Action) -> bool {
    (y: Sys, a: Action) => a.Switch? ==> TopClass(y.k) == cl
  }

  /** Each entry of `d` follows the one before it in `cl`, the first one following `c`. */
  ghost predicate Turns(cl: set<int>, c: int, d: seq<int>)
    decreases |d|
  {
    d == [] || (IsSucc(cl, c, d[0]) && Turns(cl, d[0], d[1..]))
  }

  lemma {:induction false} TurnAt(cl: set<int>, c: int, d: seq<int>, i: nat)
    requires Turns(cl, c, d) && i < |d|
    ensures IsSucc(cl, if i == 0 then c else d[i - 1], d[i])
    decreases i
  {
    if i > 0 {
      TurnAt(cl, d[0], d[1..], i - 1);
    }
  }

  lemma CurrentKept(y: Sys, a: Action)
    requires SysInv(y) && Legal(y, a) && !a.Switch?
    ensures Step(y, a).k.current == y.k.current
  {
    hide SysInv, KInv, Wf;
    Ranges(y);
    if a.TickIrq? {
      TickEffect(y.k);
    } else if !a.DoDelay? {
      ActEffect(y, a);
    }
  }

  lemma {:induction false} RunTurns(y: Sys, acts: seq<Action>, cl: set<int>)
    requires SysInv(y) && Run(y, acts) && cl != {} && Always(y, acts, TopIs(cl))
    ensures Turns(cl, y.k.current, Dispatched(y, acts))
    decreases |acts|
  {
    hide SysInv, KInv, Wf, IsSucc;
    if acts != [] {
      var a := acts[0];
      StepKeeps(y, a);
      RunTurns(Step(y, a), acts[1..], cl);
      if a.Switch? {
        SwitchStep(y);
        var rest := Dispatched(Step(y, a), acts[1..]);
        assert ([Step(y, a).k.current] + rest)[1..] == rest;
      } else {
        CurrentKept(y, a);
        assert Dispatched(y, acts) == Dispatched(Step(y, a), acts[1..]);
      }
    }
  }

  lemma SwitchStep(y: Sys)
    requires SysInv(y) && y.k.pending && TopClass(y.k) != {}
    ensures IsSucc(TopClass(y.k), y.k.current, Step(y, Switch).k.current)
  {
    SwitchSucc(y.k);
  }

  /** How many members of `cl` come before `t`. */
  ghost function Rank(cl: set<int>, t: int): nat {
    |set u | u in cl && u < t|
  }

  lemma RankBelow(cl: set<int>, t: int)
    requires t in cl
    ensures Rank(cl, t) < |cl|
  {
    SubsetSmaller((set u | u in cl && u < t), cl, t);
  }

  lemma SubsetSmaller(a: set<int>, b: set<int>, x: int)
    requires a <= b && x in b && x !in a
    ensures |a| < |b|
  {
    assert |b| == |a| + |b - a|;
    assert x in b - a;
  }

  lemma RankOrder(cl: set<int>, t: int, u: int)
    requires t in cl && u in cl && t < u
    ensures Rank(cl, t) < Rank(cl, u)
  {
    SubsetSmaller((set x | x in cl && x < t), (set x | x in cl && x < u), t);
  }

  /** `x` on a circle of `n` places, for `x` less than once around. */
  function Around(x: int, n: int): int {
    if x < n then x else x - n
  }

  /** The successor has the next rank, cyclically. */
  lemma RankStep(cl: set<int>, c: int, r: int)
    requires c in cl && IsSucc(cl, c, r)
    ensures Rank(cl, c) < |cl| && Rank(cl, r) == Around(Rank(cl, c) + 1, |cl|)
  {
    var below := set u | u in cl && u < c;
    RankBelow(cl, c);
    RankBelow(cl, r);
    if r > c {
      assert (set u | u in cl && u < r) == below + {c};
    } else {
      assert (set u | u in cl && u < r) == {};
      assert cl == below + {c};
    }
  }

  lemma {:induction false} RankRuns(cl: set<int>, c: int, d: seq<int>, i: nat, j: nat)
    requires Turns(cl, c, d) && i <= j < |d| && j - i < |cl|
    ensures d[i] in cl && d[j] in cl && Rank(cl, d[i]) < |cl|
    ensures Rank(cl, d[j]) == Around(Rank(cl, d[i]) + (j - i), |cl|)
    decreases j
  {
    TurnAt(cl, c, d, j);
    TurnAt(cl, c, d, i);
    RankBelow(cl, d[i]);
    if i < j {
      RankRuns(cl, c, d, i, j - 1);
      RankStep(cl, d[j - 1], d[j]);
    }
  }

  lemma TurnIn(cl: set<int>, c: int, d: seq<int>, i: nat, t: int) returns (j: int)
    requires Turns(cl, c, d) && t in cl && i + |cl| <= |d|
    ensures i <= j < i + |cl| && d[j] == t
  {
    RankBelow(cl, t);
    RankRuns(cl, c, d, i, i);
    var o := Rank(cl, t) - Rank(cl, d[i]);
    j := i + if o >= 0 then o else o + |cl|;
    RankRuns(cl, c, d, i, j);
    if d[j] < t {
      RankOrder(cl, d[j], t);
    } else if t < d[j] {
      RankOrder(cl, t, d[j]);
    }
  }

  /** Fairness: while the top class stays the same, every member is dispatched exactly once in any
      |cl| consecutive dispatches, and nobody else is. */
  lemma RunFair(y: Sys, acts: seq<Action>, cl: set<int>, i: nat)
    requires SysInv(y) && Run(y, acts) && cl != {} && Always(y, acts, TopIs(cl))
    requires i + |cl| <= |Dispatched(y, acts)|
    ensures var round := Dispatched(y, acts)[i..i + |cl|];
      NoDup(round) && forall t :: t in round <==> t in cl
  {
    hide SysInv, KInv, Wf, Dispatched, Run, Always;
    RunTurns(y, acts, cl);
    RoundIsPermutation(cl, y.k.current, Dispatched(y, acts), i);
  }

  lemma RoundIsPermutation(cl: set<int>, c: int, d: seq<int>, i: nat)
    requires Turns(cl, c, d) && i + |cl| <= |d|
    ensures var round := d[i..i + |cl|];
      NoDup(round) && forall t :: t in round <==> t in cl
  {
    var round := d[i..i + |cl|];
    forall j, k | 0 <= j < k < |round|
      ensures round[j] != round[k]
    {
      RankRuns(cl, c, d, i, i + j);
      RankRuns(cl, c, d, i, i + k);
    }
    forall t | t in cl
      ensures t in round
    {
      var j := TurnIn(cl, c, d, i, t);
      assert round[j - i] == t;
    }
    forall t | t in round
      ensures t in cl
    {
      var k :| 0 <= k < |round| && round[k] == t;
      RankRuns(cl, c, d, i + k, i + k);
    }
  }
}
