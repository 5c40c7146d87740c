/** The control blocks that applications allocate (kernel/kortos.h) and the kernel updates in place. */
module Blocks {
  import opened Types

  /** Moving the entries behind `i` down one place is what `RemoveAt` does. */
  lemma ShiftRemoves(a: seq<int>, b: seq<int>, n: int, i: int)
    requires |a| == |b| && 0 <= i < n <= |a|
    requires forall j :: 0 <= j < i ==> b[j] == a[j]
    requires forall j :: i <= j < n - 1 ==> b[j] == a[j + 1]
    ensures b[..n - 1] == RemoveAt(a[..n], i)
  {
  }

  /** waitlist_t: an array of task pointers of which a prefix is in use. */
  class Waitlist {
    const policy: Policy
    const home: Home
    const slots: array<int>
    var count: int

    /** The rest of the array is NULL. */
    ghost predicate Valid()
      reads this, slots
    {
      && 0 <= count <= slots.Length
      && forall i :: count <= i < slots.Length ==> slots[i] == NULL
    }

    ghost function Contents(): seq<int>
      requires Valid()
      reads this, slots
    {
      slots[..count]
    }

    /** waitlist_init. */
    constructor (policy: Policy, home: Home, capacity: nat)
      ensures Valid() && Contents() == [] && fresh(slots)
      ensures this.policy == policy && this.home == home && slots.Length == capacity
    {
      this.policy := policy;
      this.home := home;
      slots := new int[capacity];
      count := 0;
      new;
      for i := 0 to capacity
        invariant count == 0 && forall j :: 0 <= j < i ==> slots[j] == NULL
      {
        slots[i] := NULL;
      }
    }

    method Append(t: int)
      requires Valid() && count < slots.Length
      modifies this`count, slots
      ensures Valid() && Contents() == old(Contents()) + [t]
    {
      slots[count] := t;
      count := count + 1;
    }

    /** waitlist_remove_task: the later entries move down one place. */
    method Remove(i: int)
      requires Valid() && 0 <= i < count
      modifies this`count, slots
      ensures Valid() && Contents() == RemoveAt(old(Contents()), i)
    {
      slots[i] := NULL;
      for k := i to count - 1
        invariant count == old(count)
        invariant forall j :: 0 <= j < i ==> slots[j] == old(slots[j])
        invariant forall j :: i <= j < k ==> slots[j] == old(slots[j + 1])
        invariant forall j :: k < j < slots.Length ==> slots[j] == old(slots[j])
      {
        slots[k] := slots[k + 1];
      }
      slots[count - 1] := NULL;
      count := count - 1;
      ShiftRemoves(old(slots[..]), slots[..], old(count), i);
    }
  }

  /** semaphore_t. */
  class Semaphore {
    const wl: int
    var count: int

    constructor (wl: int, count: int)
      ensures this.wl == wl && this.count == count
    {
      this.wl := wl;
      this.count := count;
    }
  }

  /** mutex_t, free when created. */
  class MutexBlock {
    const wl: int
    var owner: int
    var locked: bool

    constructor (wl: int)
      ensures this.wl == wl && owner == NULL && !locked
    {
      this.wl := wl;
      owner := NULL;
      locked := false;
    }
  }

  // ---------------------------------------------------------------- ring buffer arithmetic

  /** An index less than once around the ring. */
  lemma WrapOnce(x: int, n: int)
    requires 0 <= x < 2 * n
    ensures x % n == if x < n then x else x - n
  {
    if x >= n {
      assert x == n * 1 + (x - n);
      ModUnique(x, n, 1, x - n);
    } else {
      ModUnique(x, n, 0, x);
    }
  }

  lemma ModUnique(x: int, n: int, q: int, r: int)
    requires 0 <= r < n && x == n * q + r
    ensures x % n == r
  {
    var d := x / n - q;
    Distribute(n, x / n, q);
    Multiple(n, d);
  }

  lemma Distribute(n: int, a: int, b: int)
    ensures n * (a - b) == n * a - n * b
  {
  }

  lemma Multiple(n: int, d: int)
    requires n > 0
    ensures d >= 1 ==> n * d >= n
    ensures d <= -1 ==> n * d <= -n
    ensures d == 0 ==> n * d == 0
  {
    if d >= 1 {
      assert n * (d - 1) >= 0;
    } else if d <= -1 {
      assert n * (d + 1) <= 0;
    }
  }

  /** The slot `k` places past `tail`. */
  function Slot(tail: int, k: int, n: int): int
    requires n > 0
  {
    (tail + k) % n
  }

  /** The slot past the queued items holds none of them. */
  lemma HeadFree(tail: int, count: int, n: int, k: int)
    requires 0 <= tail < n && 0 <= k < count < n
    ensures Slot(tail, k, n) != Slot(tail, count, n)
  {
    WrapOnce(tail + k, n);
    WrapOnce(tail + count, n);
  }

  lemma SlotNext(tail: int, k: int, n: int)
    requires 0 <= tail < n && 0 <= k < n
    ensures 0 <= Slot(tail, k, n) < n && Slot(tail, 0, n) == tail
    ensures (Slot(tail, k, n) + 1) % n == Slot(tail, k + 1, n)
    ensures 0 <= (tail + 1) % n < n && Slot((tail + 1) % n, k, n) == Slot(tail, k + 1, n)
  {
    WrapOnce(tail, n);
    WrapOnce(tail + k, n);
    WrapOnce((tail + k) % n + 1, n);
    WrapOnce(tail + k + 1, n);
    WrapOnce(tail + 1, n);
    WrapOnce((tail + 1) % n + k, n);
  }

  /** memcpy between distinct buffers. */
  method Memcpy(dst: array<Byte>, at: int, src: array<Byte>, from: int, n: int)
    requires dst != src && 0 <= n && 0 <= at && at + n <= dst.Length && 0 <= from && from + n <= src.Length
    modifies dst
    ensures dst[at..at + n] == src[from..from + n]
    ensures forall j :: 0 <= j < dst.Length && !(at <= j < at + n) ==> dst[j] == old(dst[j])
  {
    for i := 0 to n
      invariant forall j :: at <= j < at + i ==> dst[j] == src[j - at + from]
      invariant forall j :: 0 <= j < dst.Length && !(at <= j < at + i) ==> dst[j] == old(dst[j])
    {
      dst[at + i] := src[from + i];
    }
  }

  lemma {:induction false} TimesNat(d: nat, size: nat)
    ensures d * size >= 0
  {
    if d > 0 {
      TimesNat(d - 1, size);
      assert d * size == (d - 1) * size + size;
    }
  }

  lemma TimesMono(a: int, b: int, size: int)
    requires a + 1 <= b && 0 < size
    ensures a * size + size <= b * size
  {
    TimesNat(b - (a + 1), size);
    assert (b - (a + 1)) * size == b * size - (a + 1) * size;
    assert (a + 1) * size == a * size + size;
  }

  /** Different slots of a ring buffer share no byte, and every slot lies inside the buffer. */
  lemma SlotsApart(a: int, b: int, size: int, n: int)
    requires 0 <= a < n && 0 <= b < n && 0 < size
    ensures 0 <= a * size && a * size + size <= n * size
    ensures a < b ==> a * size + size <= b * size
    ensures b < a ==> b * size + size <= a * size
  {
    TimesMono(a, n, size);
    if a < b {
      TimesMono(a, b, size);
    } else if b < a {
      TimesMono(b, a, size);
    }
  }

  lemma Consed(x: Item, a: seq<Item>, b: seq<Item>)
    requires |b| == |a| + 1 && b[0] == x && forall k :: 0 <= k < |a| ==> a[k] == b[k + 1]
    ensures [x] + a == b
  {
  }

  /** queue_t: a ring of byte slots, `tail` being the next one to read and `head` the next one to
      write. */
  class RingQueue {
    const buffer: array<Byte>
    const itemSize: int
    const maxItems: int
    const swl: int
    const rwl: int
    var count: int
    var head: int
    var tail: int
    var dropped: int

    ghost predicate Sized() {
      1 <= itemSize < U32 && 1 <= maxItems < U32 && buffer.Length == maxItems * itemSize
    }

    ghost predicate Valid()
      reads this
    {
      && Sized()
      && 0 <= count <= maxItems && 0 <= tail < maxItems && 0 <= dropped < U32
      && head == Slot(tail, count, maxItems)
    }

    ghost function SlotAt(i: int): Item
      requires Sized() && 0 <= i < maxItems
      reads buffer
    {
      SlotsApart(i, i, itemSize, maxItems);
      buffer[i * itemSize..i * itemSize + itemSize]
    }

    /** The queued items, oldest first. */
    ghost function Contents(): (r: seq<Item>)
      requires Valid()
      reads this, buffer
      ensures |r| == count && forall k :: 0 <= k < count ==> r[k] == SlotAt(Slot(tail, k, maxItems))
    {
      seq(count, k requires 0 <= k < count reads this, buffer => SlotAt(Slot(tail, k, maxItems)))
    }

    /** os_queue_create. */
    constructor (buffer: array<Byte>, itemSize: int, maxItems: int, swl: int, rwl: int)
      requires 1 <= itemSize < U32 && 1 <= maxItems < U32 && buffer.Length == maxItems * itemSize
      ensures Valid() && Contents() == [] && dropped == 0
      ensures this.buffer == buffer && this.itemSize == itemSize && this.maxItems == maxItems
      ensures this.swl == swl && this.rwl == rwl
    {
      this.buffer := buffer;
      this.itemSize := itemSize;
      this.maxItems := maxItems;
      this.swl := swl;
      this.rwl := rwl;
      count := 0;
      head := 0;
      tail := 0;
      dropped := 0;
      WrapOnce(0, maxItems);
    }

    method WriteSlot(i: int, item: array<Byte>)
      requires Valid() && 0 <= i < maxItems && item != buffer && item.Length == itemSize
      modifies buffer
      ensures SlotAt(i) == item[..]
      ensures forall j :: 0 <= j < maxItems && j != i ==> SlotAt(j) == old(SlotAt(j))
    {
      SlotsApart(i, i, itemSize, maxItems);
      Memcpy(buffer, i * itemSize, item, 0, itemSize);
      forall j | 0 <= j < maxItems && j != i
        ensures SlotAt(j) == old(SlotAt(j))
      {
        SlotsApart(j, i, itemSize, maxItems);
      }
      assert item[0..itemSize] == item[..];
    }

    /** Copies `item` into the slot at `head` and advances. */
    method Push(item: array<Byte>)
      requires Valid() && count < maxItems && item != buffer && item.Length == itemSize
      modifies this`count, this`head, buffer
      ensures Valid() && Contents() == old(Contents()) + [item[..]]
    {
      SlotNext(tail, count, maxItems);
      WriteSlot(head, item);
      ghost var before := old(Contents());
      forall k | 0 <= k < count
        ensures 0 <= Slot(tail, k, maxItems) < maxItems && SlotAt(Slot(tail, k, maxItems)) == before[k]
      {
        SlotNext(tail, k, maxItems);
        HeadFree(tail, count, maxItems, k);
      }
      hide Sized, Slot, SlotAt;
      count := count + 1;
      head := (head + 1) % maxItems;
      assert Contents() == before + [item[..]];
    }

    /** Copies the slot at `tail` into `item` and advances. */
    method Pop(item: array<Byte>)
      requires Valid() && count > 0 && item != buffer && item.Length == itemSize
      modifies this`count, this`tail, item
      ensures Valid() && [item[..]] + Contents() == old(Contents())
    {
      ReadSlot(tail, item);
      SlotNext(tail, 0, maxItems);
      SlotNext(tail, count - 1, maxItems);
      ghost var before := old(Contents());
      assert item[..] == before[0];
      var next := (tail + 1) % maxItems;
      forall k | 0 <= k < count - 1
        ensures Slot(next, k, maxItems) == Slot(tail, k + 1, maxItems)
      {
        SlotNext(tail, k, maxItems);
      }
      hide Sized, Slot, SlotAt;
      count := count - 1;
      tail := next;
      Consed(item[..], Contents(), before);
    }

    /** The diagnosis counter of os_queue_send_from_isr. */
    method CountDrop()
      requires Valid()
      modifies this`dropped
      ensures Valid() && dropped == (old(dropped) + 1) % U32
    {
      dropped := (dropped + 1) % U32;
    }

    method ReadSlot(i: int, item: array<Byte>)
      requires Valid() && 0 <= i < maxItems && item != buffer && item.Length == itemSize
      modifies item
      ensures item[..] == SlotAt(i)
    {
      SlotsApart(i, i, itemSize, maxItems);
      Memcpy(item, 0, buffer, i * itemSize, itemSize);
      assert item[0..itemSize] == item[..];
    }
  }
}
