/** Clients of the queue that replay the single-threaded checks of
    `PriorityQueueTest.java`, proved from the queue's contracts alone. The
    payload `QueueTestTask(0)` is represented by the int 0. */
module QueueScenarios {
  import opened Wrappers
  import opened PriorityEntry
  import opened Ordering
  import opened PriorityQueue

  /** `isArraySorted` of the tests: no entry has a larger priority than the
      next one. */
  method IsArraySorted<X>(elements: array<Option<Priority<X>>>) returns (b: bool)
    requires forall i :: 0 <= i < elements.Length ==> elements[i].Some?
    ensures b <==> forall i :: 0 <= i < elements.Length - 1 ==>
                     elements[i].value.priority <= elements[i + 1].value.priority
  {
    var i := 0;
    while i < elements.Length - 1
      invariant 0 <= i <= if elements.Length == 0 then 0 else elements.Length - 1
      invariant forall k :: 0 <= k < i ==> elements[k].value.priority <= elements[k + 1].value.priority
    {
      if elements[i].value.priority > elements[i + 1].value.priority {
        return false;
      }
      i := i + 1;
    }
    return true;
  }

  /** A new queue after `add` of each entry in turn: every `add` answers
      true and `size` grows by one each time, as `testAddRemovePeek` and
      `testSingleThreadedAdd` check. */
  method Fill<X(==)>(entries: seq<Priority<X>>)
    returns (q: ThreadSafePriorityQueue<X>, answers: seq<Outcome<bool>>, sizes: seq<int>)
    ensures fresh(q) && fresh(q.queue) && q.Valid()
    ensures multiset(q.Contents) == multiset(entries)
    ensures |answers| == |entries| && forall i :: 0 <= i < |answers| ==> answers[i] == Ok(true)
    ensures |sizes| == |entries| && forall i :: 0 <= i < |sizes| ==> sizes[i] == i + 1
  {
    q := new ThreadSafePriorityQueue<X>();
    answers, sizes := [], [];
    var i := 0;
    while i < |entries|
      invariant 0 <= i <= |entries|
      invariant fresh(q.queue) && q.Valid()
      invariant multiset(q.Contents) == multiset(entries[..i]) && |q.Contents| == i
      invariant |answers| == i && forall k :: 0 <= k < i ==> answers[k] == Ok(true)
      invariant |sizes| == i && forall k :: 0 <= k < i ==> sizes[k] == k + 1
    {
      var r, n := AddAndSize(q, entries[i]);
      answers, sizes := answers + [r], sizes + [n];
      assert entries[..i + 1] == entries[..i] + [entries[i]];
      i := i + 1;
    }
    assert entries[..i] == entries;
  }

  /** One `add` of `e` followed by `size`, seen through the multiset of
      entries held: `add` answers true and the size grows by one. */
  method AddAndSize<X(==)>(q: ThreadSafePriorityQueue<X>, e: Priority<X>) returns (r: Outcome<bool>, n: int)
    requires q.Valid()
    modifies q, q.queue
    ensures q.Valid() && (q.queue == old(q.queue) || fresh(q.queue))
    ensures r == Ok(true)
    ensures multiset(q.Contents) == old(multiset(q.Contents)) + multiset{e}
    ensures n == |q.Contents| == old(|q.Contents|) + 1
  {
    r := AddView(q, e);
    n := q.Size();
  }

  /** `add` of `e`, seen through the multiset of entries held: it answers
      true and one copy of `e` joins. */
  method AddView<X(==)>(q: ThreadSafePriorityQueue<X>, e: Priority<X>) returns (r: Outcome<bool>)
    requires q.Valid()
    modifies q, q.queue
    ensures q.Valid() && (q.queue == old(q.queue) || fresh(q.queue))
    ensures r == Ok(true)
    ensures multiset(q.Contents) == old(multiset(q.Contents)) + multiset{e}
    ensures |q.Contents| == old(|q.Contents|) + 1
  {
    r := q.Add(Some(e));
  }

  /** `remove` of the same entry `n` times in a row: the first `c` calls
      answer true, where `c` is the number of copies held, and the rest
      false; `min(n, c)` copies of the entry leave the queue. */
  method RemoveRepeatedly<X(==)>(q: ThreadSafePriorityQueue<X>, x: Priority<X>, n: nat)
    returns (answers: seq<Outcome<bool>>)
    requires q.Valid()
    modifies q, q.queue
    ensures q.Valid() && q.queue == old(q.queue)
    ensures |answers| == n
    ensures forall i :: 0 <= i < n ==> answers[i] == Ok(i < old(multiset(q.Contents))[x])
    ensures multiset(q.Contents)[x] == if n < old(multiset(q.Contents))[x] then old(multiset(q.Contents))[x] - n else 0
    ensures forall y :: y != x ==> multiset(q.Contents)[y] == old(multiset(q.Contents))[y]
  {
    ghost var m := multiset(q.Contents);
    answers := [];
    var i := 0;
    while i < n
      invariant 0 <= i <= n
      invariant q.Valid() && q.queue == old(q.queue)
      invariant |answers| == i && forall k :: 0 <= k < i ==> answers[k] == Ok(k < m[x])
      invariant multiset(q.Contents)[x] == if i < m[x] then m[x] - i else 0
      invariant forall y :: y != x ==> multiset(q.Contents)[y] == m[y]
    {
      var r := RemoveCounted(q, x);
      answers := answers + [r];
      i := i + 1;
    }
  }

  /** One `remove` of `x`, seen through the number of copies of `x` held:
      it answers whether there was one, and one copy fewer remains. */
  method RemoveCounted<X(==)>(q: ThreadSafePriorityQueue<X>, x: Priority<X>) returns (r: Outcome<bool>)
    requires q.Valid()
    modifies q, q.queue
    ensures q.Valid() && q.queue == old(q.queue)
    ensures r == Ok(old(multiset(q.Contents))[x] > 0)
    ensures multiset(q.Contents)[x] == if old(multiset(q.Contents))[x] > 0 then old(multiset(q.Contents))[x] - 1 else 0
    ensures forall y :: y != x ==> multiset(q.Contents)[y] == old(multiset(q.Contents))[y]
  {
    r := q.Remove(Some(x));
  }

  /** The drain loop of `test`: `poll` until `isEmpty`. The entries come
      out exactly as the queue held them. */
  method Drain<X(==)>(q: ThreadSafePriorityQueue<X>) returns (drained: seq<Priority<X>>)
    requires q.Valid()
    modifies q, q.queue
    ensures q.Valid() && q.queue == old(q.queue) && q.Contents == []
    ensures drained == old(q.Contents)
  {
    ghost var original := q.Contents;
    drained := [];
    var empty := q.IsEmpty();
    while !empty
      invariant q.Valid() && q.queue == old(q.queue)
      invariant |drained| <= |original|
      invariant drained == original[..|drained|] && q.Contents == original[|drained|..]
      invariant empty <==> q.Contents == []
      decreases |q.Contents|
    {
      var item := q.Poll();
      drained := drained + [item.value];
      empty := q.IsEmpty();
    }
    assert original[..|drained|] == original;
  }

  /** Adds every entry to a new queue, checks the size and the order of the
      `toArray` snapshot as `testSingleThreadedAdd` and `test2` do, then
      drains it: the drained entries are exactly those added, in
      non-decreasing priority order. */
  method FillAndDrain<X(==)>(entries: seq<Priority<X>>)
    returns (size: int, sorted: bool, drained: seq<Priority<X>>)
    ensures size == |entries| && sorted
    ensures AdjacentSorted(drained) && multiset(drained) == multiset(entries)
  {
    var q, answers, sizes := Fill(entries);
    assert |q.Contents| == |entries| by {
      assert |multiset(q.Contents)| == |multiset(entries)|;
    }
    size := q.Size();
    var snapshot := q.ToArray();
    AdjacentSortedIffSorted(q.Contents);
    sorted := IsArraySorted(snapshot);
    drained := Drain(q);
    AdjacentSortedIffSorted(drained);
  }

  function Task(p: int): Priority<int>
  {
    Priority(p, 0)
  }

  /** The start of `testAddRemovePeek`: a new queue is empty and answers
      null to `peek` and to `poll`. */
  method EmptyQueueReads() returns (empty: bool, peeked: Option<Priority<int>>, polled: Option<Priority<int>>)
    ensures empty && peeked == None && polled == None
  {
    var q := new ThreadSafePriorityQueue<int>();
    empty := q.IsEmpty();
    peeked := q.Peek();
    polled := q.Poll();
  }

  /** A new queue answers false to `contains` and to `remove`. */
  method EmptyQueueSearches() returns (found: Outcome<bool>, removed: Outcome<bool>)
    ensures found == Ok(false) && removed == Ok(false)
  {
    var q := new ThreadSafePriorityQueue<int>();
    found := q.Contains(Some(Task(0)));
    removed := q.Remove(Some(Task(0)));
  }

  /** The adds of `testAddRemovePeek`: priorities 1, 2, 1, 5, 2, 2 into a
      new queue, each answered true, the size counting up. */
  method AddSix()
    returns (q: ThreadSafePriorityQueue<int>, answers: seq<Outcome<bool>>, sizes: seq<int>)
    ensures fresh(q) && fresh(q.queue) && q.Valid()
    ensures answers == [Ok(true), Ok(true), Ok(true), Ok(true), Ok(true), Ok(true)]
    ensures sizes == [1, 2, 3, 4, 5, 6]
    ensures multiset(q.Contents) == multiset{Task(1), Task(1), Task(5)} + multiset{Task(2), Task(2), Task(2)}
  {
    var entries := [Task(1), Task(2), Task(1), Task(5), Task(2), Task(2)];
    q, answers, sizes := Fill(entries);
  }

  /** The removals of `testAddRemovePeek`: the queue contains `(2, task)`;
      three removals of it succeed and a fourth fails, leaving the entries
      of priorities 1, 1 and 5. */
  method RemoveThreeCopies(q: ThreadSafePriorityQueue<int>)
    returns (found: Outcome<bool>, removals: seq<Outcome<bool>>)
    requires q.Valid()
    requires multiset(q.Contents) == multiset{Task(1), Task(1), Task(5)} + multiset{Task(2), Task(2), Task(2)}
    modifies q, q.queue
    ensures q.Valid() && q.queue == old(q.queue)
    ensures found == Ok(true)
    ensures removals == [Ok(true), Ok(true), Ok(true), Ok(false)]
    ensures multiset(q.Contents) == multiset{Task(1), Task(1), Task(5)}
  {
    found := q.Contains(Some(Task(2)));
    removals := RemoveRepeatedly(q, Task(2), 4);
  }

  /** `testAddRemovePeek` from the first `add` to the end. */
  method AddRemovePeek()
    returns (answers: seq<Outcome<bool>>, sizes: seq<int>, found: Outcome<bool>, removals: seq<Outcome<bool>>,
             peeks: seq<Option<Priority<int>>>, polls: seq<Option<Priority<int>>>)
    ensures answers == [Ok(true), Ok(true), Ok(true), Ok(true), Ok(true), Ok(true)]
    ensures sizes == [1, 2, 3, 4, 5, 6]
    ensures found == Ok(true)
    ensures removals == [Ok(true), Ok(true), Ok(true), Ok(false)]
    ensures peeks == [Some(Task(1)), Some(Task(1)), Some(Task(5)), None] && polls == peeks
  {
    var q;
    q, answers, sizes := AddSix();
    found, removals := RemoveThreeCopies(q);
    peeks, polls := PeekPollToEmpty(q);
  }

  /** `poll`, seen through the multiset of entries held: on a non-empty
      queue it hands out one of them whose priority is minimal, and that
      one copy leaves the queue. */
  method PollView<X(==)>(q: ThreadSafePriorityQueue<X>) returns (o: Option<Priority<X>>)
    requires q.Valid()
    modifies q, q.queue
    ensures q.Valid() && q.queue == old(q.queue)
    ensures o == None <==> old(multiset(q.Contents)) == multiset{}
    ensures o == None ==> q.Contents == old(q.Contents)
    ensures o.Some? ==> o.value in old(multiset(q.Contents))
    ensures o.Some? ==> multiset(q.Contents) == old(multiset(q.Contents)) - multiset{o.value}
    ensures o.Some? ==> forall y :: y in old(multiset(q.Contents)) ==> o.value.priority <= y.priority
  {
    ghost var before := q.Contents;
    o := q.Poll();
    if o.Some? {
      assert before == [before[0]] + q.Contents;
    }
  }

  /** `peek`, seen through the multiset of entries held. */
  method PeekView<X(==)>(q: ThreadSafePriorityQueue<X>) returns (o: Option<Priority<X>>)
    requires q.Valid()
    ensures o == None <==> multiset(q.Contents) == multiset{}
    ensures o.Some? ==> o.value in multiset(q.Contents)
    ensures o.Some? ==> forall y :: y in multiset(q.Contents) ==> o.value.priority <= y.priority
  {
    o := q.Peek();
  }

  /** `peek` then `poll` on a queue holding `e` and the entries `rest`,
      none of which has a smaller priority than `e` unless equal to it:
      both answer `e`, and `rest` remains. */
  method PeekThenPoll<X(==)>(q: ThreadSafePriorityQueue<X>, ghost e: Priority<X>, ghost rest: multiset<Priority<X>>)
    returns (peeked: Option<Priority<X>>, polled: Option<Priority<X>>)
    requires q.Valid() && multiset(q.Contents) == multiset{e} + rest
    requires forall y :: y in rest ==> e.priority < y.priority || y == e
    modifies q, q.queue
    ensures q.Valid() && q.queue == old(q.queue)
    ensures peeked == Some(e) && polled == Some(e)
    ensures multiset(q.Contents) == rest
  {
    peeked := PeekView(q);
    polled := PollMinimum(q, e, rest);
  }

  /** `poll` on a queue holding `e` and the entries `rest`, none of which
      has a smaller priority than `e` unless equal to it: it answers `e`,
      and `rest` remains. */
  method PollMinimum<X(==)>(q: ThreadSafePriorityQueue<X>, ghost e: Priority<X>, ghost rest: multiset<Priority<X>>)
    returns (polled: Option<Priority<X>>)
    requires q.Valid() && multiset(q.Contents) == multiset{e} + rest
    requires forall y :: y in rest ==> e.priority < y.priority || y == e
    modifies q, q.queue
    ensures q.Valid() && q.queue == old(q.queue)
    ensures polled == Some(e)
    ensures multiset(q.Contents) == rest
  {
    polled := PollView(q);
  }

  /** The end of `testAddRemovePeek`: with entries of priorities 1, 1 and 5
      left, `peek` and `poll` alternately answer the two 1s, then the 5,
      then null. */
  method PeekPollToEmpty(q: ThreadSafePriorityQueue<int>)
    returns (peeks: seq<Option<Priority<int>>>, polls: seq<Option<Priority<int>>>)
    requires q.Valid() && multiset(q.Contents) == multiset{Task(1), Task(1), Task(5)}
    modifies q, q.queue
    ensures peeks == [Some(Task(1)), Some(Task(1)), Some(Task(5)), None]
    ensures polls == peeks
  {
    var a, b := PeekThenPoll(q, Task(1), multiset{Task(1), Task(5)});
    var c, d := PeekThenPoll(q, Task(1), multiset{Task(5)});
    var e, f, g, h := PeekPollLast(q, Task(5));
    peeks, polls := [a, c, e, g], [b, d, f, h];
  }

  /** `peek` and `poll` on a queue holding the one entry `e`, then again on
      the queue left empty: `e` twice, then null twice. */
  method PeekPollLast<X(==)>(q: ThreadSafePriorityQueue<X>, ghost e: Priority<X>)
    returns (peeked: Option<Priority<X>>, polled: Option<Priority<X>>,
             peekedEmpty: Option<Priority<X>>, polledEmpty: Option<Priority<X>>)
    requires q.Valid() && multiset(q.Contents) == multiset{e}
    modifies q, q.queue
    ensures q.Valid() && q.queue == old(q.queue) && multiset(q.Contents) == multiset{}
    ensures peeked == Some(e) && polled == Some(e)
    ensures peekedEmpty == None && polledEmpty == None
  {
    peeked, polled := PeekThenPoll(q, e, multiset{});
    peekedEmpty := PeekView(q);
    polledEmpty := PollView(q);
  }

  /** The start of the sequential part of `test`: entries of priorities
      666, 0 and 42 go into the queue just drained, which then contains the
      first. */
  method AddThree(q: ThreadSafePriorityQueue<int>) returns (found: Outcome<bool>)
    requires q.Valid() && q.Contents == []
    modifies q, q.queue
    ensures q.Valid() && (q.queue == old(q.queue) || fresh(q.queue))
    ensures multiset(q.Contents) == multiset{Priority(666, 0), Priority(0, 0), Priority(42, 0)}
    ensures found == Ok(true)
  {
    var a := AddView(q, Priority(666, 0));
    var b := AddView(q, Priority(0, 0));
    var c := AddView(q, Priority(42, 0));
    found := q.Contains(Some(Priority(666, 0)));
  }

  /** The polls that follow in `test`: they hand the three entries out in
      priority order. */
  method PollsInPriorityOrder(q: ThreadSafePriorityQueue<int>) returns (polled: seq<Option<Priority<int>>>)
    requires q.Valid()
    requires multiset(q.Contents) == multiset{Priority(666, 0), Priority(0, 0), Priority(42, 0)}
    modifies q, q.queue
    ensures q.Valid() && q.queue == old(q.queue) && multiset(q.Contents) == multiset{}
    ensures polled == [Some(Priority(0, 0)), Some(Priority(42, 0)), Some(Priority(666, 0))]
  {
    var a := PollMinimum(q, Priority(0, 0), multiset{Priority(666, 0), Priority(42, 0)});
    var b := PollMinimum(q, Priority(42, 0), multiset{Priority(666, 0)});
    var c := PollMinimum(q, Priority(666, 0), multiset{});
    polled := [a, b, c];
  }

  /** The end of `test`: on an empty queue, `add` of one entry makes it
      non-empty; `peek` answers the entry and leaves it there; `poll`
      answers it and leaves the queue empty. */
  method AddPeekPoll<X(==)>(q: ThreadSafePriorityQueue<X>, x: Priority<X>)
    returns (added: Outcome<bool>, emptyAfterAdd: bool, peeked: Option<Priority<X>>,
             emptyAfterPeek: bool, polled: Option<Priority<X>>, emptyAfterPoll: bool)
    requires q.Valid() && multiset(q.Contents) == multiset{}
    modifies q, q.queue
    ensures q.Valid() && q.Contents == []
    ensures added == Ok(true) && !emptyAfterAdd
    ensures peeked == Some(x) && !emptyAfterPeek
    ensures polled == Some(x) && emptyAfterPoll
  {
    assert |q.Contents| == |multiset(q.Contents)| == 0;
    added := q.Add(Some(x));
    assert q.Contents == [x];
    emptyAfterAdd := q.IsEmpty();
    peeked := q.Peek();
    emptyAfterPeek := q.IsEmpty();
    polled := q.Poll();
    emptyAfterPoll := q.IsEmpty();
  }

  /** The sequential part of `test`: the queue the producer threads left
      is drained, and then the checks from the first add to the end run
      on the same queue. */
  method SequentialChecks(q: ThreadSafePriorityQueue<int>)
    returns (drained: seq<Priority<int>>, found: Outcome<bool>, polled: seq<Option<Priority<int>>>,
             emptyAnswers: seq<bool>, peeked: Option<Priority<int>>, last: Option<Priority<int>>, empty: bool)
    requires q.Valid()
    requires forall x :: x in q.Contents ==> 0 <= x.priority
    modifies q, q.queue
    ensures AdjacentSorted(drained) && multiset(drained) == old(multiset(q.Contents))
    ensures forall x :: x in drained ==> 0 <= x.priority
    ensures found == Ok(true)
    ensures polled == [Some(Priority(0, 0)), Some(Priority(42, 0)), Some(Priority(666, 0))]
    ensures emptyAnswers == [false, false]
    ensures peeked == Some(Priority(666, 0)) && last == Some(Priority(666, 0)) && empty
  {
    AdjacentSortedIffSorted(q.Contents);
    drained := Drain(q);
    found := AddThree(q);
    polled := PollsInPriorityOrder(q);
    var added, emptyAfterAdd, emptyAfterPeek;
    added, emptyAfterAdd, peeked, emptyAfterPeek, last, empty := AddPeekPoll(q, Priority(666, 0));
    emptyAnswers := [emptyAfterAdd, emptyAfterPeek];
  }
}
