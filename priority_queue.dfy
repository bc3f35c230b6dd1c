/** The sorted-array priority queue (`ThreadSafePriorityQueue.java`). Every
    public call runs inside one monitor in the source, so each is modelled as
    one atomic sequential method. */
module PriorityQueue {
  import opened Wrappers
  import opened Sequences
  import opened PriorityEntry
  import opened Ordering

  /** Capacity of a new buffer. */
  const InitialCapacity: nat := 10

  /** `Math.abs` on the search result. */
  function Abs(x: int): (r: nat)
    ensures r == x || r == -x
  {
    if x < 0 then -x else x
  }

  /** `System.arraycopy(src, srcPos, dst, dstPos, length)`: afterwards
      `dst[dstPos..dstPos + length)` holds what `src[srcPos..srcPos + length)`
      held before, even when the two ranges overlap in one array, and the
      rest of `dst` is untouched. */
  method ArrayCopy<T>(src: array<T>, srcPos: nat, dst: array<T>, dstPos: nat, length: nat)
    requires srcPos + length <= src.Length && dstPos + length <= dst.Length
    modifies dst
    ensures forall k :: 0 <= k < dst.Length && !(dstPos <= k < dstPos + length) ==> dst[k] == old(dst[k])
    ensures forall k :: dstPos <= k < dstPos + length ==> dst[k] == old(src[srcPos + (k - dstPos)])
  {
    if src == dst && srcPos < dstPos {
      // overlapping move to the right: copy the highest element first
      var n := length;
      while n > 0
        invariant 0 <= n <= length
        invariant forall k :: 0 <= k < dst.Length && !(dstPos + n <= k < dstPos + length) ==> dst[k] == old(dst[k])
        invariant forall k :: dstPos + n <= k < dstPos + length ==> dst[k] == old(src[srcPos + (k - dstPos)])
      {
        n := n - 1;
        dst[dstPos + n] := src[srcPos + n];
      }
    } else {
      var n := 0;
      while n < length
        invariant 0 <= n <= length
        invariant forall k :: 0 <= k < dst.Length && !(dstPos <= k < dstPos + n) ==> dst[k] == old(dst[k])
        invariant forall k :: dstPos <= k < dstPos + n ==> dst[k] == old(src[srcPos + (k - dstPos)])
      {
        dst[dstPos + n] := src[srcPos + n];
        n := n + 1;
      }
    }
  }

  class ThreadSafePriorityQueue<X(==)> {
    /** The buffer; `None` is a null slot. */
    var queue: array<Option<Priority<X>>>
    /** Number of live entries, which sit in `queue[0..queueLength)`. */
    var queueLength: nat
    /** The live entries, in buffer order. */
    ghost var Contents: seq<Priority<X>>

    /** Shape of the buffer: the live prefix holds `Contents`, every slot past
        it is null, and the capacity never drops below its initial value. */
    ghost predicate Layout()
      reads this, queue
    {
      && queueLength <= queue.Length
      && InitialCapacity <= queue.Length
      && |Contents| == queueLength
      && (forall i {:trigger queue[i]} :: 0 <= i < queueLength ==> queue[i] == Some(Contents[i]))
      && (forall i {:trigger queue[i]} :: queueLength <= i < queue.Length ==> queue[i] == None)
    }

    /** The queue's invariant: the layout above, with the live entries in
        non-decreasing priority order. */
    ghost predicate Valid()
      reads this, queue
    {
      Layout() && Sorted(Contents)
    }

    /** `new ThreadSafePriorityQueue()`, which runs `initialize()`. */
    constructor ()
      ensures Valid() && fresh(queue)
      ensures Contents == [] && queue.Length == InitialCapacity
    {
      queue := new Option<Priority<X>>[InitialCapacity](_ => None);
      queueLength := 0;
      Contents := [];
    }

    /** `initialize`: a fresh empty buffer of the initial capacity. */
    method Initialize()
      modifies this
      ensures Valid() && fresh(queue)
      ensures Contents == [] && queue.Length == InitialCapacity
    {
      queue := new Option<Priority<X>>[InitialCapacity](_ => None);
      queueLength := 0;
      Contents := [];
    }

    /** `size`. */
    method Size() returns (n: int)
      requires Valid()
      ensures n == |Contents|
    {
      n := queueLength;
    }

    /** `isEmpty`. */
    method IsEmpty() returns (b: bool)
      requires Valid()
      ensures b <==> Contents == []
    {
      b := queueLength == 0;
    }

    /** `clear`: a fresh buffer of the current capacity, and no entries. */
    method Clear()
      requires Valid()
      modifies this
      ensures Valid() && fresh(queue)
      ensures Contents == [] && queue.Length == old(queue.Length)
    {
      queue := new Option<Priority<X>>[queue.Length](_ => None);
      queueLength := 0;
      Contents := [];
    }

    /** The binary search `findPosition(e, start, end)` over the live entries
        in `[start, end)`. A non-negative result is the index of an entry of
        the same priority; a non-positive one is minus the slot where the
        search ran out. Either way its absolute value is a slot for `e`
        within the range. */
    function FindPosition(e: Priority<X>, start: int, end: int): (r: int)
      reads this, queue
      requires Valid()
      requires 0 <= start <= end <= queueLength
      ensures start <= Abs(r) <= end
      ensures forall i :: start <= i < Abs(r) ==> Contents[i].priority <= e.priority
      ensures forall i :: Abs(r) <= i < end ==> e.priority <= Contents[i].priority
      ensures r > 0 ==> r < end && Contents[r].priority == e.priority
      ensures r < 0 ==> forall i :: start <= i < end ==> Contents[i].priority != e.priority
      decreases end - start
    {
      if start > end - 1 then -start
      else
        var median := (start + end - 1) / 2;
        assert queue[median] == Some(Contents[median]);
        if e.priority > queue[median].value.priority then
          assert forall i :: start <= i <= median ==> Contents[i].priority <= Contents[median].priority;
          FindPosition(e, median + 1, end)
        else if e.priority < queue[median].value.priority then
          assert forall i :: median <= i < end ==> Contents[median].priority <= Contents[i].priority;
          FindPosition(e, start, median)
        else
          median
    }

    /** `findPosition(e)`: the search over the whole live prefix, whose
        absolute value is a slot where `e` keeps the order. */
    function FindPositionInQueue(e: Priority<X>): (r: int)
      reads this, queue
      requires Valid()
      ensures IsSlot(Contents, Abs(r), e.priority)
    {
      FindPosition(e, 0, queueLength)
    }

    /** `insertAt`: puts `e` at `pos`. A full buffer is replaced by one of
        twice the capacity, filled in one pass with the prefix, `e` and the
        suffix; otherwise the tail moves one slot right in place. */
    method InsertAt(e: Priority<X>, pos: nat) returns (b: bool)
      requires Layout()
      requires pos <= queueLength
      modifies this, queue
      ensures Layout() && b
      ensures Contents == Insert(old(Contents), pos, e)
      ensures old(queueLength) >= old(queue.Length) ==> fresh(queue) && queue.Length == 2 * old(queue.Length)
      ensures old(queueLength) < old(queue.Length) ==> queue == old(queue)
    {
      ghost var n := queueLength;
      ghost var s := Insert(Contents, pos, e);
      if queueLength >= queue.Length {
        var newQueue := new Option<Priority<X>>[queue.Length * 2](_ => None);
        ArrayCopy(queue, 0, newQueue, 0, pos);
        newQueue[pos] := Some(e);
        ArrayCopy(queue, pos, newQueue, pos + 1, queue.Length - pos);
        queue := newQueue;
      } else {
        ArrayCopy(queue, pos, queue, pos + 1, queue.Length - pos - 1);
        queue[pos] := Some(e);
      }
      InsertIndexing(old(Contents), pos, e);
      assert forall k :: 0 <= k < pos ==> queue[k] == Some(s[k]);
      assert forall k :: pos < k <= n ==> queue[k] == Some(s[k]);
      assert forall k :: n < k < queue.Length ==> queue[k] == None;
      queueLength := queueLength + 1;
      Contents := s;
      b := true;
    }

    /** `deleteAt`: the tail after `pos` moves one slot left and the freed
        last slot is nulled; nothing happens on an empty queue. */
    method DeleteAt(pos: nat) returns (b: bool)
      requires Layout()
      requires queueLength == 0 || pos < queueLength
      modifies this, queue
      ensures Layout() && queue == old(queue)
      ensures b == (old(queueLength) > 0)
      ensures Contents == if b then Delete(old(Contents), pos) else old(Contents)
    {
      if queueLength == 0 {
        return false;
      }
      ArrayCopy(queue, pos + 1, queue, pos, queueLength - pos - 1);
      queueLength := queueLength - 1;
      queue[queueLength] := None;
      Contents := Delete(Contents, pos);
      b := true;
    }

    /** `add`: rejects null; otherwise inserts `e` at the slot the search
        found and answers true. */
    method Add(e: Option<Priority<X>>) returns (r: Outcome<bool>)
      requires Valid()
      modifies this, queue
      ensures Valid()
      ensures e == None ==> r == IllegalArgument && Contents == old(Contents) && queue == old(queue)
      ensures e.Some? ==> r == Ok(true)
      ensures e.Some? ==> |Contents| == |old(Contents)| + 1
      ensures e.Some? ==> multiset(Contents) == multiset(old(Contents)) + multiset{e.value}
      ensures e.Some? ==> InsertedAtSlot(old(Contents), e.value, Contents)
      ensures e.Some? && old(queueLength) == old(queue.Length) ==> fresh(queue) && queue.Length == 2 * old(queue.Length)
      ensures e.Some? && old(queueLength) < old(queue.Length) ==> queue == old(queue)
    {
      if e == None {
        return IllegalArgument;
      }
      var index := FindPositionInQueue(e.value);
      index := Abs(index);
      InsertSortedIff(Contents, index, e.value);
      var b := InsertAt(e.value, index);
      r := Ok(b);
      assert IsSlot(old(Contents), index, e.value.priority);
    }

    /** `poll`: takes out and returns the entry in slot 0, which has the
        minimum priority; null on an empty queue. */
    method Poll() returns (o: Option<Priority<X>>)
      requires Valid()
      modifies this, queue
      ensures Valid() && queue == old(queue)
      ensures old(Contents) == [] ==> o == None && Contents == []
      ensures old(Contents) != [] ==> o == Some(old(Contents)[0]) && Contents == old(Contents)[1..]
      ensures o.Some? ==> forall x :: x in old(Contents) ==> o.value.priority <= x.priority
    {
      o := queue[0];
      if queueLength > 0 {
        HeadIsMinimum(Contents);
        DeleteSorted(Contents, 0);
      }
      var _ := DeleteAt(0);
    }

    /** `peek`: the entry in slot 0, which has the minimum priority; null on
        an empty queue. */
    method Peek() returns (o: Option<Priority<X>>)
      requires Valid()
      ensures Contents == [] ==> o == None
      ensures Contents != [] ==> o == Some(Contents[0])
      ensures o.Some? ==> forall x :: x in Contents ==> o.value.priority <= x.priority
    {
      o := queue[0];
      if queueLength > 0 {
        HeadIsMinimum(Contents);
      }
    }

    /** The linear scan shared by `contains` and `remove`: the index of the
        first live entry that `equals` `x`, or `queueLength` if none does. */
    method IndexOfEqual(x: Priority<X>) returns (i: nat)
      requires Valid()
      ensures i == IndexOf(Contents, x)
    {
      i := 0;
      while i < queueLength
        invariant 0 <= i <= queueLength
        invariant forall k :: 0 <= k < i ==> Contents[k] != x
      {
        if Equals(queue[i].value, PriorityObject(x)) {
          return;
        }
        i := i + 1;
      }
    }

    /** `contains`: rejects null; otherwise whether some live entry `equals` it. */
    method Contains(x: Option<Priority<X>>) returns (r: Outcome<bool>)
      requires Valid()
      ensures x == None ==> r == IllegalArgument
      ensures x.Some? ==> r == Ok(x.value in Contents)
    {
      if x == None {
        return IllegalArgument;
      }
      var i := IndexOfEqual(x.value);
      return Ok(i < queueLength);
    }

    /** `remove`: rejects null; otherwise deletes the first live entry that
        `equals` it and answers true, or answers false and changes nothing. */
    method Remove(e: Option<Priority<X>>) returns (r: Outcome<bool>)
      requires Valid()
      modifies this, queue
      ensures Valid() && queue == old(queue)
      ensures e == None ==> r == IllegalArgument && Contents == old(Contents)
      ensures e.Some? ==> r == Ok(e.value in old(Contents))
      ensures e.Some? ==> Contents == RemoveFirst(old(Contents), e.value)
      ensures e.Some? ==> multiset(Contents) == multiset(old(Contents)) - multiset{e.value}
    {
      if e == None {
        return IllegalArgument;
      }
      var i := IndexOfEqual(e.value);
      if i < queueLength {
        RemoveFirstDeletesIndexOf(Contents, e.value);
        DeleteSorted(Contents, i);
        var b := DeleteAt(i);
        return Ok(b);
      }
      RemoveFirstAbsent(Contents, e.value);
      return Ok(false);
    }

    /** `toArray`: a new array holding the live entries in order. */
    method ToArray() returns (a: array<Option<Priority<X>>>)
      requires Valid()
      ensures fresh(a) && a.Length == |Contents|
      ensures forall i :: 0 <= i < a.Length ==> a[i] == Some(Contents[i])
    {
      a := new Option<Priority<X>>[queueLength](_ => None);
      ArrayCopy(queue, 0, a, 0, queueLength);
    }
  }
}
