# Thread-safe priority queue: a verified Dafny model

This project models the core of the repository's priority queue: the entry
type `Priority<X>` and the class `ThreadSafePriorityQueue<X>`. The queue keeps
its entries in a growable array, sorted by integer priority with the
smallest first. `add` finds a slot by binary search and shifts the tail right
to make room. When the buffer is full, it is replaced by one of twice the
capacity in a single pass. `poll` and `peek` read slot 0. `contains` and
`remove` scan linearly with the entry's `equals`. `remove` deletes the first
match by shifting the tail left.

Modules:

- `Wrappers` holds `Option` and `Outcome`.
  - `None` stands for Java's `null`, both for array slots and for return values.
  - `Outcome.IllegalArgument` stands for the `IllegalArgumentException` that
    `add`, `contains` and `remove` throw on a null argument. Their argument
    is therefore an `Option`.
- `PriorityEntry` holds the entry.
  - It is a datatype, because both of its fields are final.
  - `equals(Object)` takes an argument that is either an entry or some other object.
  - `toString` renders the priority in decimal. The item's own text is a parameter.
- `Sequences` gives the abstract effect of the array shifts (`Insert` and
  `Delete`) and the first-match search behind the linear scans (`IndexOf`
  and `RemoveFirst`).
- `Ordering` defines the order the queue keeps. It relates insertion at a slot
  and deletion to that order.
- `PriorityQueue` holds the class. It has the fields `queue` (an
  `array<Option<Priority<X>>>`) and `queueLength`, plus a ghost `Contents`:
  the live entries in buffer order.
  - `Layout()` states the buffer's shape: `Contents` sits in
    `queue[0..queueLength)`, every slot after it is null, and the capacity is
    never below 10.
  - `Valid()` adds that `Contents` is sorted by priority.
  - Each public method keeps `Valid()` and states its effect on `Contents`
    and on the buffer.
  - `System.arraycopy` is the method `ArrayCopy`, which is correct for
    overlapping ranges in one array.
- `QueueScenarios` replays the single-threaded checks of
  `PriorityQueueTest.java` as client code. It is proved from the queue's
  contracts alone.
  - The test payload `QueueTestTask(0)` is the integer `0`.
  - Random priorities become arbitrary inputs.

Two behaviours of the binary search are visible in the model:

- Among equal priorities, `findPosition` may return any matching index, so
  `add` guarantees only that the new entry lands at some slot that keeps the
  order. There is no first-in-first-out order among equal priorities.
- When the slot is 0, "not found" is returned as `-0 == 0`, the same value
  as "found at index 0". The Javadoc says a miss is negative. `add` applies
  `Math.abs` in both cases, so either reading gives a correct slot, and
  `FindPosition` states its sign only for non-zero results.

`add` rejects only a null entry (`ThreadSafePriorityQueue.java:62`), not an
entry with a null item. The class has only the no-argument constructor.

## Model

| member | source | states |
|---|---|---|
| PriorityEntry.Equals | src/main/com/placester/test/Priority.java:17-23 | `equals(Object)`: true exactly for an entry with the same priority and an equal item, false for any object that is not an entry |
| PriorityEntry.EqualsRejectsOtherObjects | src/main/com/placester/test/Priority.java:18-22 | `equals` answers false for any argument that is not a `Priority` |
| PriorityEntry.EqualsIsEquivalence | src/main/com/placester/test/Priority.java:17-23 | `equals` on entries is reflexive, symmetric and transitive |
| PriorityEntry.NatToDecimal | src/main/com/placester/test/Priority.java:26 | the decimal text of a natural number is non-empty and all digits; it starts with `0` only when it is exactly `"0"` |
| PriorityEntry.DecimalRoundTrip | src/main/com/placester/test/Priority.java:26 | reading the decimal digits back gives the number |
| PriorityEntry.IntToString | src/main/com/placester/test/Priority.java:26 | the int's text starts with `-` exactly for negative priorities and never contains a comma |
| PriorityEntry.IntRoundTrip | src/main/com/placester/test/Priority.java:26 | the int's text parses back to the same int |
| PriorityEntry.ToString | src/main/com/placester/test/Priority.java:25-27 | the rendering is bracketed: it starts with `[` and ends with `]` |
| PriorityEntry.ToStringRoundTrip | src/main/com/placester/test/Priority.java:25-27 | from `"[" + priority + "," + item + "]"` the priority and the item's text are recovered exactly, whatever the item text contains |
| Sequences.Insert | src/main/com/placester/test/ThreadSafePriorityQueue.java:171-186 | inserting at a position adds exactly one element: the length grows by one and the multiset gains the new entry |
| Sequences.InsertIndexing | src/main/com/placester/test/ThreadSafePriorityQueue.java:175-182 | after insertion the new entry is at `pos`, entries before `pos` are in place, and entries from `pos` on are one slot to the right |
| Sequences.Delete | src/main/com/placester/test/ThreadSafePriorityQueue.java:193-201 | deleting at a position removes exactly that element: the length drops by one and the multiset loses `s[pos]` |
| Sequences.DeleteIndexing | src/main/com/placester/test/ThreadSafePriorityQueue.java:197 | after deletion entries before `pos` are in place and the later ones have moved one slot to the left |
| Sequences.IndexOf | src/main/com/placester/test/ThreadSafePriorityQueue.java:119-123 | the scan result is the index of the first match, is below the length exactly when the entry occurs, and no earlier index matches |
| Sequences.RemoveFirst | src/main/com/placester/test/ThreadSafePriorityQueue.java:114-126 | removing the first match takes exactly one copy of the entry out of the multiset, or none when it is absent |
| Sequences.RemoveFirstDeletesIndexOf | src/main/com/placester/test/ThreadSafePriorityQueue.java:119-121 | when the entry occurs, removing its first match is the same as deleting at the index the scan stops at |
| Sequences.RemoveFirstAbsent | src/main/com/placester/test/ThreadSafePriorityQueue.java:119-125 | when the entry does not occur, nothing is removed |
| Ordering.AdjacentSortedIffSorted | src/test/com/placester/test/PriorityQueueTest.java:236-243 | the tests' neighbour-by-neighbour check holds exactly when every earlier entry has priority no larger than every later one |
| Ordering.InsertSortedIff | src/main/com/placester/test/ThreadSafePriorityQueue.java:67-71 | inserting at `p` leaves the entries sorted exactly when they were sorted and `p` is a slot for the new priority (both directions) |
| Ordering.DeleteSorted | src/main/com/placester/test/ThreadSafePriorityQueue.java:193-201 | deleting any position of a sorted sequence leaves it sorted |
| Ordering.HeadIsMinimum | src/main/com/placester/test/ThreadSafePriorityQueue.java:78-86 | the entry in slot 0 of a sorted, non-empty queue has the smallest priority of all entries |
| PriorityQueue.Abs | src/main/com/placester/test/ThreadSafePriorityQueue.java:70 | `Math.abs` gives a non-negative number equal to the argument or its negation |
| PriorityQueue.ArrayCopy | src/main/com/placester/test/ThreadSafePriorityQueue.java:181 | after `System.arraycopy` the target range holds what the source range held before, even when the ranges overlap in one array, and every other target slot is unchanged |
| PriorityQueue.ThreadSafePriorityQueue.constructor | src/main/com/placester/test/ThreadSafePriorityQueue.java:27-30 | a new queue is valid, empty, and has a fresh buffer of capacity 10 |
| PriorityQueue.ThreadSafePriorityQueue.Initialize | src/main/com/placester/test/ThreadSafePriorityQueue.java:33-37 | `initialize` leaves a valid empty queue with a fresh buffer of capacity 10 |
| PriorityQueue.ThreadSafePriorityQueue.Size | src/main/com/placester/test/ThreadSafePriorityQueue.java:41-44 | `size` is the number of live entries |
| PriorityQueue.ThreadSafePriorityQueue.IsEmpty | src/main/com/placester/test/ThreadSafePriorityQueue.java:47-50 | `isEmpty` holds exactly when there are no live entries |
| PriorityQueue.ThreadSafePriorityQueue.Clear | src/main/com/placester/test/ThreadSafePriorityQueue.java:53-57 | `clear` leaves a valid empty queue with a fresh buffer of the same capacity |
| PriorityQueue.ThreadSafePriorityQueue.FindPosition | src/main/com/placester/test/ThreadSafePriorityQueue.java:144-162 | the absolute value of the result lies in `[start, end]` and is a slot for `e`: entries before it have priority at most `e`'s, entries from it on at least `e`'s. A positive result indexes an entry of equal priority. A negative result means no entry in the range has that priority |
| PriorityQueue.ThreadSafePriorityQueue.FindPositionInQueue | src/main/com/placester/test/ThreadSafePriorityQueue.java:109-111 | the absolute value of the search over the whole queue is a slot where `e` keeps the order |
| PriorityQueue.ThreadSafePriorityQueue.InsertAt | src/main/com/placester/test/ThreadSafePriorityQueue.java:171-186 | the entries become the old ones with `e` inserted at `pos`, and the layout is kept. A full buffer is replaced by a fresh one of twice the capacity; otherwise the same buffer is reused. The answer is true |
| PriorityQueue.ThreadSafePriorityQueue.DeleteAt | src/main/com/placester/test/ThreadSafePriorityQueue.java:193-201 | on a non-empty queue the entry at `pos` is deleted and the answer is true. On an empty queue nothing changes and the answer is false. The freed slot is null again and the buffer stays the same |
| PriorityQueue.ThreadSafePriorityQueue.Add | src/main/com/placester/test/ThreadSafePriorityQueue.java:60-73 | null is rejected with nothing changed. Otherwise the answer is true, the entry is inserted at a slot that keeps the order, the multiset of entries gains it, the queue stays sorted, and the buffer doubles exactly when it was full |
| PriorityQueue.ThreadSafePriorityQueue.Poll | src/main/com/placester/test/ThreadSafePriorityQueue.java:76-81 | an empty queue answers null and stays empty. Otherwise the head is returned and removed; it has the minimum priority and the rest stay sorted |
| PriorityQueue.ThreadSafePriorityQueue.Peek | src/main/com/placester/test/ThreadSafePriorityQueue.java:84-87 | `peek` answers null on an empty queue, otherwise the head, which has the minimum priority; nothing changes |
| PriorityQueue.ThreadSafePriorityQueue.IndexOfEqual | src/main/com/placester/test/ThreadSafePriorityQueue.java:100-104 | the scan with `equals` stops at the index of the first live entry equal to `x`, or at `queueLength` |
| PriorityQueue.ThreadSafePriorityQueue.Contains | src/main/com/placester/test/ThreadSafePriorityQueue.java:90-107 | null is rejected; otherwise the answer is whether the entry is among the live entries |
| PriorityQueue.ThreadSafePriorityQueue.Remove | src/main/com/placester/test/ThreadSafePriorityQueue.java:114-126 | null is rejected with nothing changed. Otherwise the answer is whether the entry was present, and its first occurrence (only that one) is removed: the multiset loses one copy, and the queue stays sorted in the same buffer |
| PriorityQueue.ThreadSafePriorityQueue.ToArray | src/main/com/placester/test/ThreadSafePriorityQueue.java:129-134 | a fresh array of exactly the live entries, in queue order |
| QueueScenarios.IsArraySorted | src/test/com/placester/test/PriorityQueueTest.java:236-243 | answers true exactly when no entry has a larger priority than the next |
| QueueScenarios.Fill | src/test/com/placester/test/PriorityQueueTest.java:88-93 | adding a list of entries to a new queue answers true every time, `size` after the i-th add is i, and the queue then holds exactly those entries |
| QueueScenarios.AddView | src/main/com/placester/test/ThreadSafePriorityQueue.java:60-73 | seen as a multiset: `add` of an entry answers true, one copy joins, and the size grows by one |
| QueueScenarios.AddAndSize | src/test/com/placester/test/PriorityQueueTest.java:194-197 | one `add` then `size`: true, one more entry in the multiset, and a size one larger |
| QueueScenarios.RemoveRepeatedly | src/test/com/placester/test/PriorityQueueTest.java:204-207 | `n` removals of the same entry answer true for as many copies as were held and false after that; exactly that many copies leave and every other entry stays |
| QueueScenarios.RemoveCounted | src/test/com/placester/test/PriorityQueueTest.java:204 | one removal answers whether a copy was held, takes one copy out, and leaves the count of every other entry unchanged |
| QueueScenarios.Drain | src/test/com/placester/test/PriorityQueueTest.java:48-52 | polling until `isEmpty` yields exactly the queue's entries, in queue order, and leaves it empty in the same buffer |
| QueueScenarios.FillAndDrain | src/test/com/placester/test/PriorityQueueTest.java:87-100 | after adding any entries, `size` equals their number, the `toArray` snapshot passes `isArraySorted`, and draining gives back the same entries in non-decreasing priority order |
| QueueScenarios.EmptyQueueReads | src/test/com/placester/test/PriorityQueueTest.java:189-191 | a new queue is empty, and `peek` and `poll` both answer null |
| QueueScenarios.EmptyQueueSearches | src/test/com/placester/test/PriorityQueueTest.java:192-193 | a new queue answers false to `contains` and `remove` |
| QueueScenarios.AddSix | src/test/com/placester/test/PriorityQueueTest.java:194-202 | adding priorities 1, 2, 1, 5, 2, 2 answers true six times, the size counts 1 to 6, and the queue holds those six entries |
| QueueScenarios.RemoveThreeCopies | src/test/com/placester/test/PriorityQueueTest.java:203-207 | with three copies of `(2, task)` held, `contains` is true, three removals succeed, a fourth fails, and the entries of priority 1, 1 and 5 remain |
| QueueScenarios.AddRemovePeek | src/test/com/placester/test/PriorityQueueTest.java:194-215 | the whole add/contains/remove/peek/poll sequence of the test answers exactly what the test asserts |
| QueueScenarios.PollView | src/main/com/placester/test/ThreadSafePriorityQueue.java:76-81 | seen as a multiset: `poll` answers null exactly on an empty queue; otherwise it returns an entry that was held, has minimum priority, and loses one copy |
| QueueScenarios.PeekView | src/main/com/placester/test/ThreadSafePriorityQueue.java:84-87 | seen as a multiset: `peek` answers null exactly on an empty queue; otherwise it returns a held entry of minimum priority |
| QueueScenarios.PeekThenPoll | src/test/com/placester/test/PriorityQueueTest.java:208-211 | when every entry of least priority equals `e`, `peek` and `poll` both answer `e` and the rest remains |
| QueueScenarios.PollMinimum | src/test/com/placester/test/PriorityQueueTest.java:64-69 | when every entry of least priority equals `e`, `poll` answers `e` and the rest remains |
| QueueScenarios.PeekPollToEmpty | src/test/com/placester/test/PriorityQueueTest.java:208-215 | with priorities 1, 1, 5 held, `peek` and `poll` alternately answer the 1, the 1, the 5, then null |
| QueueScenarios.PeekPollLast | src/test/com/placester/test/PriorityQueueTest.java:212-215 | with one entry held, `peek` and `poll` answer it; on the now-empty queue they answer null |
| QueueScenarios.AddThree | src/test/com/placester/test/PriorityQueueTest.java:54-63 | after adding priorities 666, 0, 42 to the drained, empty queue, it holds those three and contains the first |
| QueueScenarios.PollsInPriorityOrder | src/test/com/placester/test/PriorityQueueTest.java:64-69 | three polls give priorities 0, 42, 666 in that order and leave the queue empty |
| QueueScenarios.AddPeekPoll | src/test/com/placester/test/PriorityQueueTest.java:72-80 | on an empty queue: after `add` it is not empty, `peek` gives the entry and leaves it, and `poll` gives it and empties the queue |
| QueueScenarios.SequentialChecks | src/test/com/placester/test/PriorityQueueTest.java:46-80 | on whatever queue the producers left, all of whose priorities are non-negative: draining it yields its entries in non-decreasing priority order, every one with priority `>= 0` (line 51), and then, on the same queue, every answer asserted at lines 54-80 holds |

## Left out

- Concurrency.
  - Every public method is `synchronized` or has a `synchronized (this)`
    block, so each call is modelled as one atomic step.
  - The null checks in `add`, `contains` and `remove` run before the lock is
    taken, which is not observable in a sequential model.
  - The multi-threaded tests (`test` lines 19-44, `testMultiThreadedAdd`,
    `testMultiThreadedAddRemove`) are not modelled. The single-threaded
    parts of `test` are.
- 32-bit arithmetic. Integers are unbounded in the model, so these are not modelled:
  - overflow of `queue.length * 2` (line 174) after about 2^30 entries;
  - overflow of `start + end - 1` (line 154) and of `queueLength++`.
- Items.
  - An item's `equals` is taken to be equality on the item type.
  - Its `toString` is an input string of `PriorityEntry.ToString`.
  - Null items, on which `Priority.equals` would throw, are not modelled.
- The constructor and accessors of `Priority` (lines 8-15) are the
  datatype's constructor and fields. They have no separate members.
- The `SimpleQueue` interface is not part of this model. The class's
  methods are modelled directly.
- The generic casts and `Object[]` buffer of the source become an array of
  `Option<Priority<X>>`. A `ClassCastException` cannot arise there.
- Output is not modelled: `prettyPrint`, `System.out` and printing of the random priorities.
- `WeightedDie`, `SixSidedWeightedDie`, `WeightedDiceTest` and
  `QueueTestTask` are outside the queue's core.
- Random numbers in the tests become arbitrary entries, the inputs of `Fill` and `FillAndDrain`.
- PriorityQueue.ThreadSafePriorityQueue.Add: states that the entry lands at
  some slot that keeps the order, not which one the binary search picks
  among equal priorities. `FindPosition` states the search itself.
- PriorityQueue.ThreadSafePriorityQueue.InsertAt: requires a position
  within `[0, queueLength]`. Its only caller, `add`, passes the search's
  slot. For `queueLength < pos < queue.length` the source does not throw:
  it writes the entry past the live prefix and breaks the layout. It
  throws only when `pos >= queue.length`, or when the buffer is full and
  `pos > queueLength`.
- PriorityQueue.ThreadSafePriorityQueue.DeleteAt: requires an empty queue or
  a position inside the live prefix. Its callers `poll` and `remove` pass
  only such positions. `System.arraycopy` would throw on a negative length
  for any other position.
- QueueScenarios.Drain: models the drain loop of `test`. It proves the
  drained entries equal the queue's contents in order. The test's own
  check (line 51) is `item.priority >= startPriority` with a
  `startPriority` that stays 0, so it only asks for non-negative
  priorities. That holds because the producers draw priorities from
  `nextInt(100)`: `SequentialChecks` requires non-negative priorities on
  entry and proves every drained priority non-negative. `FillAndDrain` and
  `SequentialChecks` also prove non-decreasing order, the property the
  check evidently aims at; a drain of -3 then -1 meets that order but not
  the literal check.
