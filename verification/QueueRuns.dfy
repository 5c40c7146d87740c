/** Message queues over whole runs: first in first out, and no lost wake-ups. */
module QueueRuns {
  import opened Types
  import opened Spec
  import opened Invariants
  import opened Preserve
  import opened Runs
  import opened Effects
  import opened Traces
  import opened TimeRuns
  import opened Wakeups

  // ---------------------------------------------------------------- first in, first out

  /** The item that the action puts into queue `q`, judged by what the call returns. */
  ghost function SentBy(y: Sys, a: Action, q: int): seq<Item>
    requires SysInv(y) && Legal(y, a)
  {
    if Act(y, a).ret != Returns(Ok) then []
    else if a.IsrPut? && a.iq == q then [a.iitem]
    else if a.DoSend? && a.dq == q then [a.ditem]
    else if a.Resume? && y.calls[y.k.current].Sending? && y.calls[y.k.current].sq == q then [y.calls[y.k.current].item]
    else []
  }

  /** The item that the action hands to its caller out of queue `q`. */
  ghost function ReceivedBy(y: Sys, a: Action, q: int): seq<Item>
    requires SysInv(y) && Legal(y, a)
  {
    var r := Act(y, a).ret;
    if !r.Gives? then []
    else if a.IsrGet? && a.gq == q then [r.item]
    else if a.DoRecv? && a.vq == q then [r.item]
    else if a.Resume? && y.calls[y.k.current].Receiving? && y.calls[y.k.current].rq == q then [r.item]
    else []
  }

  ghost function Sent(y: Sys, acts: seq<Action>, q: int): seq<Item>
    requires SysInv(y) && Run(y, acts)
    decreases |acts|
  {
    if acts == [] then [] else StepKeeps(y, acts[0]); SentBy(y, acts[0], q) + Sent(Step(y, acts[0]), acts[1..], q)
  }

  ghost function Received(y: Sys, acts: seq<Action>, q: int): seq<Item>
    requires SysInv(y) && Run(y, acts)
    decreases |acts|
  {
    if acts == [] then []
    else
      StepKeeps(y, acts[0]);
      ReceivedBy(y, acts[0], q) + Received(Step(y, acts[0]), acts[1..], q)
  }

  /** One action on a queue: it appends what is sent, or takes the oldest item, or leaves the
      contents alone; and it releases a receiver exactly when it appends, a sender exactly when it
      takes. */
  ghost predicate MovedData(x: Queue, x': Queue, sent: seq<Item>, received: seq<Item>, released: int) {
    && x' == x.(items := x'.items, dropped := x'.dropped)
    && (sent != [] ==> |sent| == 1 && |x.items| < x.maxItems && received == [] && x'.items == x.items + sent)
    && (received != [] ==> x.items != [] && sent == [] && received == [x.items[0]] && x'.items == x.items[1..])
    && (sent == [] && received == [] ==> x'.items == x.items)
    && (released == x.rwl <==> sent != [])
    && (released == x.swl <==> received != [])
  }

  ghost predicate Moved(y: Sys, a: Action, q: int)
    requires SysInv(y) && Legal(y, a) && 0 <= q < |y.k.queues|
  {
    && SameTables(y.k, Act(y, a).s) && WfQueue(y.k, y.k.queues[q])
    && MovedData(y.k.queues[q], Act(y, a).s.queues[q], SentBy(y, a, q), ReceivedBy(y, a, q), ReleaseList(y, a))
  }

  lemma PutData(s: State, p: int, q: int, item: Item, r: Outcome)
    requires KInv(s) && 0 <= p < |s.queues| && 0 <= q < |s.queues| && SameTables(s, r.s)
    requires WfQueue(s, s.queues[p]) && !r.ret.Gives? && (r.ret == Returns(Ok) <==> PutRelease(s, p) != NULL)
    requires PutRelease(s, p) != NULL ==>
      r.s.queues == s.queues[p := s.queues[p].(items := s.queues[p].items + [item])]
    requires PutRelease(s, p) == NULL ==>
      forall i :: 0 <= i < |s.queues| ==> r.s.queues[i].items == s.queues[i].items
    ensures WfQueue(s, s.queues[q])
    ensures MovedData(s.queues[q], r.s.queues[q],
                      if r.ret == Returns(Ok) && p == q then [item] else [], [], PutRelease(s, p))
  {
    QueueListsDistinct(s, q, p);
    QueueListsDistinct(s, p, q);
    hide KInv, Wf;
  }

  lemma GetData(s: State, p: int, q: int, r: Outcome)
    requires KInv(s) && 0 <= p < |s.queues| && 0 <= q < |s.queues| && SameTables(s, r.s)
    requires WfQueue(s, s.queues[p]) && r.ret != Returns(Ok) && (r.ret.Gives? <==> GetRelease(s, p) != NULL)
    requires GetRelease(s, p) != NULL ==>
      s.queues[p].items != [] && r.ret == Gives(s.queues[p].items[0]) &&
      r.s.queues == s.queues[p := s.queues[p].(items := s.queues[p].items[1..])]
    requires GetRelease(s, p) == NULL ==> r.s.queues == s.queues
    ensures WfQueue(s, s.queues[q])
    ensures MovedData(s.queues[q], r.s.queues[q],
                      [], if r.ret.Gives? && p == q then [r.ret.item] else [], GetRelease(s, p))
  {
    QueueListsDistinct(s, q, p);
    QueueListsDistinct(s, p, q);
    hide KInv, Wf;
  }

  lemma SendData(s: State, p: int, q: int, item: Item, n: int, d: int)
    requires KInv(s) && 0 <= p < |s.queues| && 0 <= q < |s.queues| && |item| == s.queues[p].itemSize
    requires Word(n) && Word(d) && (n == 0 || MayBlock(s))
    ensures WfQueue(s, s.queues[p]) && Pickable(s, s.queues[p].rwl) && WfQueue(s, s.queues[q])
    ensures var r := QueueSend(s, p, item, n, d);
      && SameTables(s, r.s) && !r.ret.Gives?
      && MovedData(s.queues[q], r.s.queues[q],
                   if r.ret == Returns(Ok) && p == q then [item] else [], [], PutRelease(s, p))
  {
    hide KInv, Wf, QueueSend, QueueStall, AfterRelease, AfterBlock, MovedData;
    KRanges(s);
    SendEffect(s, p, item, n, d);
    StallEffect(s, s.queues[p].swl, n, d);
    PutData(s, p, q, item, QueueSend(s, p, item, n, d));
  }

  lemma RecvData(s: State, p: int, q: int, n: int, d: int)
    requires KInv(s) && 0 <= p < |s.queues| && 0 <= q < |s.queues|
    requires Word(n) && Word(d) && (n == 0 || MayBlock(s))
    ensures WfQueue(s, s.queues[p]) && Pickable(s, s.queues[p].swl) && WfQueue(s, s.queues[q])
    ensures var r := QueueRecv(s, p, n, d);
      && SameTables(s, r.s) && r.ret != Returns(Ok)
      && MovedData(s.queues[q], r.s.queues[q],
                   [], if r.ret.Gives? && p == q then [r.ret.item] else [], GetRelease(s, p))
  {
    hide KInv, Wf, QueueRecv, QueueStall, AfterRelease, AfterBlock, MovedData;
    KRanges(s);
    RecvEffect(s, p, n, d);
    StallEffect(s, s.queues[p].rwl, n, d);
    GetData(s, p, q, QueueRecv(s, p, n, d));
  }

  lemma IsrMoved(y: Sys, a: Action, q: int)
    requires SysInv(y) && Legal(y, a) && 0 <= q < |y.k.queues| && (a.IsrPut? || a.IsrGet?)
    ensures Moved(y, a, q)
  {
    hide SysInv, KInv, Wf, QueueSend, QueueRecv, MovedData, IsrSend, AfterRelease, SameTables;
    Ranges(y);
    if a.IsrPut? {
      IsrPutEffect(y.k, a.iq, a.iitem);
      IsrPutData(y.k, a.iq, q, a.iitem);
    } else {
      RecvData(y.k, a.gq, q, 0, y.k.tick);
    }
  }

  lemma IsrPutData(s: State, p: int, q: int, item: Item)
    requires KInv(s) && 0 <= p < |s.queues| && 0 <= q < |s.queues| && |item| == s.queues[p].itemSize
    ensures WfQueue(s, s.queues[p]) && Pickable(s, s.queues[p].rwl) && WfQueue(s, s.queues[q])
    ensures var r := IsrSend(s, p, item);
      && SameTables(s, r.s) && !r.ret.Gives?
      && MovedData(s.queues[q], r.s.queues[q],
                   if r.ret == Returns(Ok) && p == q then [item] else [], [], PutRelease(s, p))
  {
    hide KInv, Wf, AfterRelease, MovedData, QueueSend;
    KRanges(s);
    IsrPutEffect(s, p, item);
    SendData(s, p, q, item, 0, s.tick);
    PutData(s, p, q, item, IsrSend(s, p, item));
  }

  lemma CallMoved(y: Sys, a: Action, q: int)
    requires SysInv(y) && Legal(y, a) && 0 <= q < |y.k.queues| && (a.DoSend? || a.DoRecv?)
    ensures Moved(y, a, q)
  {
    hide SysInv, KInv, Wf, QueueSend, QueueRecv, MovedData, SameTables;
    Ranges(y);
    if a.DoSend? {
      SendData(y.k, a.dq, q, a.ditem, a.dtimeout, DeadlineOf(y.k.tick, a.dtimeout));
    } else {
      RecvData(y.k, a.vq, q, a.vtimeout, DeadlineOf(y.k.tick, a.vtimeout));
    }
  }

  lemma ResumeMoved(y: Sys, q: int)
    requires SysInv(y) && Legal(y, Resume) && 0 <= q < |y.k.queues|
    ensures Moved(y, Resume, q)
  {
    hide SysInv, KInv, Wf, Moved;
    Ranges(y);
    var c := y.calls[y.k.current];
    if c.WaitSem? || c.WaitMutex? || y.k.tasks[y.k.current].timeout {
      VerdictMoved(y, q);
    } else if c.Sending? {
      SendingMoved(y, q);
    } else {
      ReceivingMoved(y, q);
    }
  }

  lemma SendingMoved(y: Sys, q: int)
    requires SysInv(y) && Legal(y, Resume) && 0 <= q < |y.k.queues|
    requires y.calls[y.k.current].Sending? && !y.k.tasks[y.k.current].timeout
    ensures Moved(y, Resume, q)
  {
    hide SysInv, KInv, Wf, QueueSend, MovedData, SameTables;
    Ranges(y);
    var c := y.calls[y.k.current];
    SendData(y.k, c.sq, q, c.item, c.stimeout, c.sdeadline);
  }

  lemma ReceivingMoved(y: Sys, q: int)
    requires SysInv(y) && Legal(y, Resume) && 0 <= q < |y.k.queues|
    requires y.calls[y.k.current].Receiving? && !y.k.tasks[y.k.current].timeout
    ensures Moved(y, Resume, q)
  {
    hide SysInv, KInv, Wf, QueueRecv, MovedData, SameTables;
    Ranges(y);
    var c := y.calls[y.k.current];
    RecvData(y.k, c.rq, q, c.rtimeout, c.rdeadline);
  }

  lemma VerdictMoved(y: Sys, q: int)
    requires SysInv(y) && Legal(y, Resume) && 0 <= q < |y.k.queues|
    requires y.calls[y.k.current].WaitSem? || y.calls[y.k.current].WaitMutex? || y.k.tasks[y.k.current].timeout
    ensures Moved(y, Resume, q)
  {
    hide SysInv, KInv, Wf, Continue, AfterRelease;
    Ranges(y);
    QueueListsApart(y.k, q);
    ResumeEffect(y);
  }

  lemma OtherMoved(y: Sys, a: Action, q: int)
    requires SysInv(y) && Legal(y, a) && 0 <= q < |y.k.queues|
    requires !a.IsrPut? && !a.IsrGet? && !a.DoSend? && !a.DoRecv? && !a.Resume?
    ensures Moved(y, a, q)
  {
    OtherRelease(y, a, q);
    QueuesKept(y, a);
    OtherItems(y, a);
    hide SysInv, KInv, Wf, Act, ReleaseList;
  }

  lemma OtherRelease(y: Sys, a: Action, q: int)
    requires SysInv(y) && Legal(y, a) && 0 <= q < |y.k.queues|
    requires !a.IsrPut? && !a.IsrGet? && !a.DoSend? && !a.DoRecv? && !a.Resume?
    ensures WfQueue(y.k, y.k.queues[q])
    ensures ReleaseList(y, a) != y.k.queues[q].swl && ReleaseList(y, a) != y.k.queues[q].rwl
  {
    QueueListsApart(y.k, q);
    if a.DoPost? {
      assert y.k.lists[y.k.sems[a.psem].wl].home == InSem(a.psem);
    } else if a.DoUnlock? {
      assert OwnMutex(y.k, a.umutex);
    }
  }

  lemma OtherItems(y: Sys, a: Action)
    requires SysInv(y) && Legal(y, a)
    requires !a.IsrPut? && !a.IsrGet? && !a.DoSend? && !a.DoRecv? && !a.Resume?
    ensures Act(y, a).s.queues == y.k.queues && !Act(y, a).ret.Gives?
  {
    hide SysInv, KInv, Wf;
    Ranges(y);
    if a.TickIrq? {
      TickEffect(y.k);
    } else if a.Switch? {
      SwitchEffect(y.k);
    } else if a.DoWait? {
      WaitEffect(y.k, a.wsem, a.wtimeout);
    } else if a.DoPost? {
      PostEffect(y.k, a.psem);
    } else if a.DoLock? {
      LockEffect(y.k, a.lmutex, a.ltimeout);
    } else if a.DoUnlock? {
      UnlockEffect(y.k, a.umutex);
    }
  }

  lemma QueueListsApart(s: State, q: int)
    requires KInv(s) && 0 <= q < |s.queues|
    ensures WfQueue(s, s.queues[q])
    ensures s.lists[s.queues[q].swl].home == InSend(q) && s.lists[s.queues[q].rwl].home == InRecv(q)
  {
  }

  lemma QueueListsDistinct(s: State, q: int, p: int)
    requires KInv(s) && 0 <= q < |s.queues| && 0 <= p < |s.queues|
    ensures WfQueue(s, s.queues[q]) && WfQueue(s, s.queues[p])
    ensures s.queues[q].swl != s.queues[p].rwl
    ensures p != q ==> s.queues[q].swl != s.queues[p].swl && s.queues[q].rwl != s.queues[p].rwl
  {
    QueueListsApart(s, q);
    QueueListsApart(s, p);
  }

  lemma EachMoved(y: Sys, a: Action, q: int)
    requires SysInv(y) && Legal(y, a) && 0 <= q < |y.k.queues|
    ensures Moved(y, a, q)
  {
    hide *;
    if a.IsrPut? || a.IsrGet? {
      IsrMoved(y, a, q);
    } else if a.DoSend? || a.DoRecv? {
      CallMoved(y, a, q);
    } else if a.Resume? {
      ResumeMoved(y, q);
    } else {
      OtherMoved(y, a, q);
    }
  }

  /** FIFO: along every run, whatever tasks and interrupts send, steal, time out or block again,
      the items sent to a queue are those received from it followed by its contents. */
  lemma {:induction false} RunFifo(y: Sys, acts: seq<Action>, q: int)
    requires SysInv(y) && Run(y, acts) && 0 <= q < |y.k.queues|
    ensures |Exec(y, acts).k.queues| == |y.k.queues|
    ensures y.k.queues[q].items + Sent(y, acts, q) == Received(y, acts, q) + Exec(y, acts).k.queues[q].items
    decreases |acts|
  {
    if acts != [] {
      hide SysInv, KInv, Wf, SentBy, ReceivedBy, Step, Act, Moved;
      var a := acts[0];
      StepKeeps(y, a);
      StepFifo(y, a, q);
      RunFifo(Step(y, a), acts[1..], q);
      Regroup(y.k.queues[q].items, SentBy(y, a, q), ReceivedBy(y, a, q), Step(y, a).k.queues[q].items,
              Sent(Step(y, a), acts[1..], q), Received(Step(y, a), acts[1..], q), Exec(y, acts).k.queues[q].items);
    }
  }

  lemma StepFifo(y: Sys, a: Action, q: int)
    requires SysInv(y) && Legal(y, a) && 0 <= q < |y.k.queues|
    ensures |Step(y, a).k.queues| == |y.k.queues|
    ensures y.k.queues[q].items + SentBy(y, a, q) == ReceivedBy(y, a, q) + Step(y, a).k.queues[q].items
  {
    hide SysInv, KInv, Wf, SentBy, ReceivedBy, Act;
    EachMoved(y, a, q);
  }

  lemma Regroup(x: seq<Item>, s1: seq<Item>, r1: seq<Item>, x': seq<Item>, s2: seq<Item>, r2: seq<Item>, x'': seq<Item>)
    requires x + s1 == r1 + x' && x' + s2 == r2 + x''
    ensures x + (s1 + s2) == (r1 + r2) + x''
  {
    calc {
      x + (s1 + s2);
      (x + s1) + s2;
      (r1 + x') + s2;
      r1 + (x' + s2);
      (r1 + r2) + x'';
    }
  }

  // ---------------------------------------------------------------- no lost wake-ups

  /** If tasks wait to receive, every item in the queue is spoken for by a receiver that has been
      woken but has not run yet; if tasks wait to send, so is every free slot by a woken sender. */
  ghost predicate NoLostWakeup(y: Sys, q: int)
    requires Wf(y.k) && 0 <= q < |y.k.queues|
  {
    var x := y.k.queues[q];
    && WfQueue(y.k, x)
    && (y.k.lists[x.rwl].waiters != [] ==> |x.items| <= |WokenSet(y, InRecv(q))|)
    && (y.k.lists[x.swl].waiters != [] ==> x.maxItems - |x.items| <= |WokenSet(y, InSend(q))|)
  }

  /** How the wait lists of queue `q` develop: a list gains an entry only when the queue is
      unusable for the joining task. */
  ghost predicate ListsMove(y: Sys, a: Action, q: int)
    requires SysInv(y) && Legal(y, a) && 0 <= q < |y.k.queues| && WfQueue(y.k, y.k.queues[q])
  {
    var x := y.k.queues[q];
    var r := Act(y, a).s;
    && |r.lists| == |y.k.lists|
    && (r.lists[x.rwl].waiters != [] && y.k.lists[x.rwl].waiters == [] ==> x.items == [] && SentBy(y, a, q) == [])
    && (r.lists[x.swl].waiters != [] && y.k.lists[x.swl].waiters == [] ==>
        |x.items| >= x.maxItems && ReceivedBy(y, a, q) == [])
    && (ReleaseList(y, a) == x.rwl && y.k.lists[x.rwl].waiters != [] ==> Releases(y, a, InRecv(q)))
    && (ReleaseList(y, a) == x.swl && y.k.lists[x.swl].waiters != [] ==> Releases(y, a, InSend(q)))
    && (Continues(y, a, InRecv(q)) ==> SentBy(y, a, q) == [] && (ReceivedBy(y, a, q) == [] ==> x.items == []))
    && (Continues(y, a, InSend(q)) ==> ReceivedBy(y, a, q) == [] && (SentBy(y, a, q) == [] ==> |x.items| >= x.maxItems))
    && (Act(y, a).ret == Blocks && BlockList(y, a) == x.rwl ==> x.items == [])
    && (Act(y, a).ret == Blocks && BlockList(y, a) == x.swl ==> |x.items| >= x.maxItems)
  }

  lemma NoLostStep(y: Sys, a: Action, q: int)
    requires SysInv(y) && Legal(y, a) && 0 <= q < |y.k.queues| && NoLostWakeup(y, q)
    requires Moved(y, a, q) && ListsMove(y, a, q) && SysInv(Step(y, a))
    ensures NoLostWakeup(Step(y, a), q)
  {
    hide SysInv, KInv, Wf, Legal, Act, SentBy, ReceivedBy, ReleaseList, Releases, Continues, WokenSet, BlockList;
    var z := Step(y, a);
    assert z.k == Act(y, a).s;
    Ranges(z);
    var x := y.k.queues[q];
    var x' := z.k.queues[q];
    WokenCount(y, a, InRecv(q));
    WokenCount(y, a, InSend(q));
    SideKept(|x.items|, |x'.items|, SentBy(y, a, q) != [], ReceivedBy(y, a, q) != [], x.items == [],
             y.k.lists[x.rwl].waiters != [], z.k.lists[x.rwl].waiters != [],
             |WokenSet(y, InRecv(q))|, |WokenSet(z, InRecv(q))|, Continues(y, a, InRecv(q)), Releases(y, a, InRecv(q)));
    SideKept(x.maxItems - |x.items|, x.maxItems - |x'.items|, ReceivedBy(y, a, q) != [], SentBy(y, a, q) != [],
             |x.items| >= x.maxItems,
             y.k.lists[x.swl].waiters != [], z.k.lists[x.swl].waiters != [],
             |WokenSet(y, InSend(q))|, |WokenSet(z, InSend(q))|, Continues(y, a, InSend(q)), Releases(y, a, InSend(q)));
  }

  /** One side of a queue. `room` is what a task of this side needs (items to a receiver, slots to a
      sender); `more` and `less` say that the action adds or takes one; `none` that there is none. */
  lemma SideKept(room: int, room': int, more: bool, less: bool, none: bool, waits: bool, waits': bool,
                 woken: int, woken': int, continues: bool, releases: bool)
    requires room' == room + (if more then 1 else 0) - (if less then 1 else 0) && !(more && less) && room >= 0
    requires none ==> room == 0
    requires waits ==> room <= woken
    requires woken' == woken - (if continues then 1 else 0) + (if releases then 1 else 0) && woken' >= 0
    requires waits' && !waits ==> none && !more
    requires more && waits ==> releases
    requires continues ==> !more && (less || none)
    requires none ==> !less
    ensures waits' ==> room' <= woken'
  {
  }

  /** A queue call blocks only if the queue is unusable for it. */
  lemma BlockUnusable(y: Sys, a: Action, q: int)
    requires SysInv(y) && Legal(y, a) && 0 <= q < |y.k.queues| && Act(y, a).ret == Blocks
    ensures WfQueue(y.k, y.k.queues[q])
    ensures BlockList(y, a) == y.k.queues[q].rwl ==> y.k.queues[q].items == []
    ensures BlockList(y, a) == y.k.queues[q].swl ==> |y.k.queues[q].items| >= y.k.queues[q].maxItems
  {
    hide SysInv, KInv, Wf, BlockList, QueueSend, QueueRecv, MutexResume;
    Ranges(y);
    QueueListsApart(y.k, q);
    BlockHome(y, a);
    NeverBlocks(y, a);
    BlockReleasesNone(y, a);
  }

  lemma BlockMovesNothing(y: Sys, a: Action, q: int)
    requires SysInv(y) && Legal(y, a) && Act(y, a).ret == Blocks
    ensures SentBy(y, a, q) == [] && ReceivedBy(y, a, q) == []
  {
  }

  lemma ReceiverContinues(y: Sys, q: int)
    requires SysInv(y) && Legal(y, Resume) && 0 <= q < |y.k.queues| && Continues(y, Resume, InRecv(q))
    ensures SentBy(y, Resume, q) == [] && (ReceivedBy(y, Resume, q) == [] ==> y.k.queues[q].items == [])
  {
    hide SysInv, KInv, Wf, QueueRecv, AfterRelease, SameTables, QueueStall;
    Ranges(y);
    var c := y.calls[y.k.current];
    RecvEffect(y.k, c.rq, c.rtimeout, c.rdeadline);
  }

  lemma SenderContinues(y: Sys, q: int)
    requires SysInv(y) && Legal(y, Resume) && 0 <= q < |y.k.queues| && Continues(y, Resume, InSend(q))
    ensures ReceivedBy(y, Resume, q) == []
    ensures SentBy(y, Resume, q) == [] ==> |y.k.queues[q].items| >= y.k.queues[q].maxItems
  {
    hide SysInv, KInv, Wf, QueueSend, AfterRelease, SameTables, QueueStall;
    Ranges(y);
    var c := y.calls[y.k.current];
    SendEffect(y.k, c.sq, c.item, c.stimeout, c.sdeadline);
    StallEffect(y.k, y.k.queues[c.sq].swl, c.stimeout, c.sdeadline);
  }

  lemma ListsMoveHolds(y: Sys, a: Action, q: int)
    requires SysInv(y) && Legal(y, a) && 0 <= q < |y.k.queues|
    ensures WfQueue(y.k, y.k.queues[q]) && ListsMove(y, a, q)
  {
    hide SysInv, KInv, Wf, Act, SentBy, ReceivedBy, ReleaseList, Releases, BlockList;
    Ranges(y);
    QueueListsApart(y.k, q);
    var x := y.k.queues[q];
    ListGrows(y, a, x.rwl);
    ListGrows(y, a, x.swl);
    if Act(y, a).ret == Blocks {
      BlockUnusable(y, a, q);
      BlockMovesNothing(y, a, q);
    }
    if ReleaseList(y, a) == x.rwl && y.k.lists[x.rwl].waiters != [] {
      ReleasesList(y, a, x.rwl);
    }
    if ReleaseList(y, a) == x.swl && y.k.lists[x.swl].waiters != [] {
      ReleasesList(y, a, x.swl);
    }
    if Continues(y, a, InRecv(q)) {
      ReceiverContinues(y, q);
    }
    if Continues(y, a, InSend(q)) {
      SenderContinues(y, q);
    }
  }

  /** No lost wake-ups: the property is kept along every run. */
  lemma {:induction false} RunNoLostWakeup(y: Sys, acts: seq<Action>, q: int)
    requires SysInv(y) && Run(y, acts) && 0 <= q < |y.k.queues| && NoLostWakeup(y, q)
    ensures |Exec(y, acts).k.queues| == |y.k.queues| && NoLostWakeup(Exec(y, acts), q)
    decreases |acts|
  {
    hide SysInv, KInv, Wf, Step, NoLostWakeup, Moved, ListsMove;
    if acts != [] {
      StepKeeps(y, acts[0]);
      EachMoved(y, acts[0], q);
      ListsMoveHolds(y, acts[0], q);
      NoLostStep(y, acts[0], q);
      StepFifo(y, acts[0], q);
      RunNoLostWakeup(Step(y, acts[0]), acts[1..], q);
    }
  }

  /** Senders and receivers are never both stranded: if both lists of a queue hold somebody, then
      somebody woken is about to use the queue. */
  lemma NeverBothStranded(y: Sys, q: int)
    requires SysInv(y) && 0 <= q < |y.k.queues| && NoLostWakeup(y, q)
    requires y.k.lists[y.k.queues[q].rwl].waiters != [] && y.k.lists[y.k.queues[q].swl].waiters != []
    ensures WokenSet(y, InRecv(q)) != {} || WokenSet(y, InSend(q)) != {}
  {
    hide SysInv, KInv, Wf;
    Ranges(y);
    assert |WokenSet(y, InRecv(q))| + |WokenSet(y, InSend(q))| >= y.k.queues[q].maxItems;
  }
}
