/** The kernel's records and enumerations (kernel/kortos.h), as values.

    A pointer to a task, a mutex or a wait list is that object's index in its table and
    the null pointer is `NULL`. */
module Types {

  const NULL: int := -1

  // Widths: the tick counter and every timeout are uint32_t.
  const U32: int := 0x1_0000_0000
  const HALF: int := 0x8000_0000
  const WAIT_FOREVER: int := 0xFFFF_FFFF

  type Byte = x: int | 0 <= x < 256
  type Item = seq<Byte>

  datatype RunState = Ready | Running | Blocked
  datatype Reason = NoReason | OnDelay | OnSem | OnMutex | OnSend | OnRecv
  datatype Policy = Fifo | Priority
  datatype Err = Ok | Unavailable | WaitlistFull | RecursiveLock | NotOwner

  /** Compile-time configuration (config/kortos_config.h), kept symbolic. */
  datatype Config = Config(maxTasks: int, maxOwned: int, lowest: int)

  /** The primitive a wait list is embedded in. */
  datatype Home = InSem(sem: int) | InMutex(mutex: int) | InSend(queue: int) | InRecv(queue: int)

  datatype Task = Task(
    state: RunState,
    base: int,
    eff: int,
    wakeup: int,
    reason: Reason,
    blockedOn: int,
    owned: seq<int>,
    timeout: bool)

  datatype List = List(policy: Policy, home: Home, waiters: seq<int>)
  datatype Mutex = Mutex(owner: int, locked: bool, wl: int)
  datatype Sem = Sem(count: int, wl: int)
  datatype Queue = Queue(maxItems: int, itemSize: int, items: seq<Item>, dropped: int, swl: int, rwl: int)

  datatype State = State(
    cfg: Config,
    tasks: seq<Task>,
    mutexes: seq<Mutex>,
    sems: seq<Sem>,
    queues: seq<Queue>,
    lists: seq<List>,
    tick: int,
    current: int,
    pending: bool)

  function ReasonOf(h: Home): Reason {
    match h
    case InSem(_) => OnSem
    case InMutex(_) => OnMutex
    case InSend(_) => OnSend
    case InRecv(_) => OnRecv
  }

  function Min(a: int, b: int): int {
    if a <= b then a else b
  }

  predicate NoDup(s: seq<int>) {
    forall i, j :: 0 <= i < j < |s| ==> s[i] != s[j]
  }

  /** What is left of a wait list once the entry at `i` has been shifted out. */
  function RemoveAt(s: seq<int>, i: int): (r: seq<int>)
    requires 0 <= i < |s|
    ensures |r| == |s| - 1
    ensures forall x :: x in r ==> x in s
  {
    s[..i] + s[i + 1..]
  }

  /** Position of the first entry equal to `x`, or `|s|` if there is none. */
  function IndexOf(s: seq<int>, x: int): (i: int)
    ensures 0 <= i <= |s|
    ensures i < |s| ==> s[i] == x
    ensures forall j :: 0 <= j < i ==> s[j] != x
  {
    if s == [] then 0
    else if s[0] == x then 0
    else
      var j := IndexOf(s[1..], x);
      assert forall k :: 1 <= k < 1 + j ==> s[k] == s[1..][k - 1];
      1 + j
  }

  lemma RemoveAtMembers(s: seq<int>, i: int)
    requires 0 <= i < |s| && NoDup(s)
    ensures NoDup(RemoveAt(s, i))
    ensures forall x :: x in RemoveAt(s, i) <==> x in s && x != s[i]
  {
    var r := RemoveAt(s, i);
    forall x | x in s && x != s[i]
      ensures x in r
    {
      var k :| 0 <= k < |s| && s[k] == x;
      assert r[if k < i then k else k - 1] == x;
    }
  }

  /** `(int32_t)(tick - deadline) >= 0` on 32-bit counters. */
  predicate Elapsed(tick: int, deadline: int) {
    (tick - deadline) % U32 < HALF
  }

  /** The absolute wake-up tick of a block; 0 stands for no deadline. */
  function DeadlineOf(tick: int, timeout: int): int {
    if timeout == WAIT_FOREVER then 0 else (tick + timeout) % U32
  }
}
