/**
 * The bounded ring-buffer queue: `maxLength` preallocated slots, two
 * monotonic counters `first` and `last`, and an occupancy semaphore whose
 * count mirrors `last - first`. The index lock is taken and released inside
 * every call, so it is not part of the state between calls.
 */
module Queues {
  import opened Common
  import opened Semaphores

  /** `TSQUEUE_WAIT` and `TSQUEUE_NOWAIT`. */
  datatype AccessMode = Wait | NoWait

  /**
   * What an enqueue does to the sequence of queued items: append, and on a
   * queue already at capacity drop the oldest item first.
   */
  function EnqueueSpec<T>(items: seq<T>, x: T, capacity: nat): (r: seq<T>)
    requires 0 < capacity && |items| <= capacity
    ensures |r| == if |items| < capacity then |items| + 1 else capacity
    ensures r[|r| - 1] == x
  {
    if |items| < capacity then items + [x] else items[1..] + [x]
  }

  /** Enqueue every element of `xs`, in order. */
  function EnqueueAll<T>(items: seq<T>, xs: seq<T>, capacity: nat): (r: seq<T>)
    requires 0 < capacity && |items| <= capacity
    ensures |r| <= capacity
    decreases |xs|
  {
    if xs == [] then items else EnqueueAll(EnqueueSpec(items, xs[0], capacity), xs[1..], capacity)
  }

  /** Without overflow the queue holds exactly what was enqueued, in enqueue order (FIFO). */
  lemma {:induction false} FifoWithoutOverflow<T>(items: seq<T>, xs: seq<T>, capacity: nat)
    requires 0 < capacity && |items| + |xs| <= capacity
    ensures EnqueueAll(items, xs, capacity) == items + xs
    decreases |xs|
  {
    if xs != [] {
      assert EnqueueSpec(items, xs[0], capacity) == items + [xs[0]];
      FifoWithoutOverflow(items + [xs[0]], xs[1..], capacity);
      assert items + [xs[0]] + xs[1..] == items + xs;
    }
  }

  /** With overflow the queue holds the newest `capacity` items: exactly the oldest ones are dropped. */
  lemma {:induction false} OverflowKeepsNewest<T>(items: seq<T>, xs: seq<T>, capacity: nat)
    requires 0 < capacity && |items| <= capacity
    ensures var all := items + xs;
            EnqueueAll(items, xs, capacity) == all[|all| - Min(|all|, capacity)..]
    decreases |xs|
  {
    var all := items + xs;
    if xs == [] {
      assert all == items;
    } else {
      var next := EnqueueSpec(items, xs[0], capacity);
      OverflowKeepsNewest(next, xs[1..], capacity);
      var all' := next + xs[1..];
      if |items| < capacity {
        assert all' == all;
      } else {
        assert all' == all[1..];
      }
    }
  }

  function Min(a: nat, b: nat): nat { if a <= b then a else b }

  /** `d * n >= n` for a positive multiplier. */
  lemma {:induction false} MulAtLeast(d: int, n: int)
    requires d >= 1 && n > 0
    ensures d * n >= n
    decreases d
  {
    if d > 1 {
      MulAtLeast(d - 1, n);
      assert d * n == (d - 1) * n + n;
    }
  }

  /** Euclidean division has a unique remainder. */
  lemma ModUnique(x: int, q: int, r: int, n: int)
    requires 0 < n && 0 <= r < n && x == q * n + r
    ensures x % n == r
  {
    var q', r' := x / n, x % n;
    assert x == q' * n + r';
    assert (q - q') * n == r' - r;
    if q > q' {
      MulAtLeast(q - q', n);
    } else if q < q' {
      MulAtLeast(q' - q, n);
    }
  }

  /** Two counters closer than `n` (and not equal) never select the same slot. */
  lemma SlotsDistinct(a: nat, b: nat, n: nat)
    requires 0 < n && a < b < a + n
    ensures a % n != b % n
  {
    var q := a / n;
    assert a == q * n + a % n;
    if a % n == b % n {
      assert b == q * n + (b - a) + b % n;
      if b % n + (b - a) < n {
        ModUnique(b, q, b % n + (b - a), n);
      } else {
        assert b == (q + 1) * n + (b % n + (b - a) - n);
        ModUnique(b, q + 1, b % n + (b - a) - n, n);
      }
    }
  }

  /** Counters exactly `n` apart select the same slot. */
  lemma SlotsWrap(a: nat, n: nat)
    requires 0 < n
    ensures (a + n) % n == a % n
  {
    var q := a / n;
    assert a == q * n + a % n;
    assert a + n == (q + 1) * n + a % n;
    ModUnique(a + n, q + 1, a % n, n);
  }

  /** The `i`-th queued item sits in slot `(first + i) mod capacity`. */
  ghost predicate RingHolds(items: seq<seq<byte>>, slots: seq<seq<byte>>, first: nat)
  {
    0 < |slots| ==> forall i :: 0 <= i < |items| ==> items[i] == slots[(first + i) % |slots|]
  }

  /**
   * Writing the new item at slot `last mod capacity`, and advancing `first`
   * when the ring was full, stores exactly the sequence `EnqueueSpec` describes.
   */
  lemma EnqueueRing(items: seq<seq<byte>>, slots: seq<seq<byte>>, first: nat, x: seq<byte>)
    requires 0 < |slots| && |items| <= |slots| && RingHolds(items, slots, first)
    ensures var n := |slots|;
            var first' := if |items| < n then first else first + 1;
            RingHolds(EnqueueSpec(items, x, n), slots[(first + |items|) % n := x], first')
  {
    var n := |slots|;
    var last := first + |items|;
    var first' := if |items| < n then first else first + 1;
    var items' := EnqueueSpec(items, x, n);
    var slots' := slots[last % n := x];
    forall i | 0 <= i < |items'|
      ensures items'[i] == slots'[(first' + i) % n]
    {
      if first' + i < last {
        SlotsDistinct(first' + i, last, n);
        if |items| == n {
          assert items'[i] == items[i + 1];
        } else {
          assert items'[i] == items[i];
        }
      } else {
        assert first' + i == last;
      }
    }
  }

  class Queue {
    const cache: array<seq<byte>>
    var first: nat
    var last: nat
    const maxLength: nat
    const itemSize: nat
    const countLock: Semaphore

    /** The queued items, oldest first. */
    ghost var Contents: seq<seq<byte>>
    ghost var Repr: set<object>

    ghost predicate Valid()
      reads this, Repr
    {
      && Repr == {this, cache, countLock}
      && cache.Length == maxLength
      && first <= last && last - first <= maxLength
      && countLock.Valid() && countLock.maxCount == maxLength
      && countLock.GetCount() == last - first
      && |Contents| == last - first
      && RingHolds(Contents, cache[..], first)
      && (forall j :: 0 <= j < cache.Length ==> |cache[j]| == itemSize)
    }

    /** `TSQ_Create`: every slot allocated, both counters at 0, the semaphore at 0 out of `maxLength`. */
    constructor (maxLength: nat, itemSize: nat)
      ensures Valid() && fresh(Repr)
      ensures this.maxLength == maxLength && this.itemSize == itemSize
      ensures first == 0 && last == 0 && Contents == []
      ensures countLock.GetCount() == 0 && countLock.maxCount == maxLength
    {
      var slots := new seq<byte>[maxLength];
      for i := 0 to maxLength
        invariant forall j :: 0 <= j < i ==> |slots[j]| == itemSize
      {
        slots[i] := Zeros(itemSize);
      }
      cache := slots;
      this.maxLength := maxLength;
      this.itemSize := itemSize;
      first, last := 0, 0;
      countLock := new Semaphore(0, maxLength);
      Contents := [];
      Repr := {this, slots, countLock};
    }

    /** `TSQ_GetItemsCount`: the number of queued items, never above the capacity. */
    function GetItemsCount(): (n: nat)
      reads this, Repr
      requires Valid()
      ensures n == |Contents| && n <= maxLength
    {
      last - first
    }

    /**
     * `TSQ_Enqueue`. A null buffer fails and changes nothing. Otherwise the item
     * is written at slot `last mod maxLength`; on a queue that is not full the
     * semaphore goes up by one, on a full queue (only reachable in NOWAIT mode,
     * since WAIT mode would block) the oldest item is overwritten and `first`
     * advances with `last`.
     */
    method Enqueue(buffer: Option<seq<byte>>, mode: AccessMode) returns (ok: bool)
      requires Valid()
      requires buffer.Some? ==> 0 < maxLength && |buffer.value| == itemSize
      requires buffer.Some? && mode == Wait ==> |Contents| < maxLength
      modifies Repr
      ensures Valid() && Repr == old(Repr)
      ensures ok == buffer.Some?
      ensures !ok ==> Contents == old(Contents) && first == old(first) && last == old(last) && cache[..] == old(cache[..])
      ensures ok ==> Contents == EnqueueSpec(old(Contents), buffer.value, maxLength)
      ensures ok ==> last == old(last) + 1
      ensures ok ==> first == if old(|Contents|) < maxLength then old(first) else old(first) + 1
      ensures ok ==> cache[..] == old(cache[..])[old(last) % maxLength := buffer.value]
      ensures ok && old(|Contents|) == maxLength ==> old(last) % maxLength == old(first) % maxLength
      ensures ok ==> countLock.GetCount() == if old(|Contents|) < maxLength then old(countLock.GetCount()) + 1 else maxLength
    {
      if buffer.None? {
        return false;
      }
      var item := buffer.value;
      var full := last - first == maxLength;
      ghost var items, slots := Contents, cache[..];
      if full {
        SlotsWrap(first, maxLength);
      }
      EnqueueRing(items, slots, first, item);
      if mode == Wait || !full {
        countLock.Increment();
      }
      var slot := last % maxLength;
      cache[slot] := item;
      assert cache[..] == slots[slot := item];
      if full {
        first := first + 1;
      }
      last := last + 1;
      Contents := EnqueueSpec(items, item, maxLength);
      assert RingHolds(Contents, cache[..], first);
      ok := true;
    }

    /**
     * `TSQ_Dequeue`. A missing buffer, or NOWAIT mode on an empty queue, fails and
     * changes nothing. Otherwise (WAIT mode on an empty queue would block) the
     * semaphore goes down by one, the slot at `first mod maxLength` is copied out
     * and `first` advances: the head of the queue is returned and removed.
     */
    method Dequeue(hasBuffer: bool, mode: AccessMode) returns (ok: bool, item: seq<byte>)
      requires Valid()
      requires hasBuffer && mode == Wait ==> |Contents| > 0
      modifies Repr
      ensures Valid() && Repr == old(Repr)
      ensures ok == (hasBuffer && old(|Contents|) > 0)
      ensures !ok ==> Contents == old(Contents) && first == old(first) && last == old(last)
      ensures ok ==> item == old(Contents)[0] && Contents == old(Contents)[1..]
      ensures ok ==> first == old(first) + 1 && last == old(last)
      ensures ok ==> countLock.GetCount() == old(countLock.GetCount()) - 1
      ensures cache[..] == old(cache[..])
    {
      item := [];
      if !hasBuffer {
        return false, item;
      }
      if mode == NoWait && last - first == 0 {
        return false, item;
      }
      countLock.Decrement();
      item := cache[first % maxLength];
      first := first + 1;
      Contents := Contents[1..];
      ok := true;
    }
  }

  /**
   * Create a queue of capacity 3, enqueue 1, 2, 3, dequeue (which yields 1), then
   * enqueue 4: the queue holds 2, 3, 4.
   */
  method QueueScenario()
  {
    var q := new Queue(3, 1);
    var ok := q.Enqueue(Some([1]), Wait);
    assert q.Contents == [[1]];
    ok := q.Enqueue(Some([2]), Wait);
    assert q.Contents == [[1], [2]];
    ok := q.Enqueue(Some([3]), Wait);
    assert q.Contents == [[1], [2], [3]];
    var item;
    ok, item := q.Dequeue(true, Wait);
    assert ok && item == [1];
    assert q.Contents == [[2], [3]];
    ok := q.Enqueue(Some([4]), Wait);
    assert q.Contents == [[2], [3], [4]];
    ok := q.Enqueue(Some([5]), NoWait);
    assert q.Contents == [[3], [4], [5]];
  }
}
