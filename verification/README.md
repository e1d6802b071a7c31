# Circular-array list and array priority queue, in Dafny

This project models the two containers of the `edu.sdsu.cs.datastructures`
assignment:

- `CirArrayList<E>`: a `java.util.List` kept in a circular array. The state
  is a backing array `data`, the physical slot `head` of the first element,
  and the element `count`. Logical position `k` lives in slot
  `(head + k) mod capacity`. Prepending steps `head` back one slot, wrapping
  from 0 to the last slot. Appending writes the slot just past the last
  element. A full array is first grown to twice its capacity, with the
  elements copied in order from slot 0. An insertion or removal in the middle
  shifts whichever side of the index is shorter. `removeIf` compacts the
  surviving elements in one pass. `subList(from, to).clear()` moves the
  suffix down over the window.
- `ArrayPriorityQueue<E>`: a `java.util.Queue`. Its visible contract is a
  multiset of elements with `offer`, `poll`, `peek`, `element`, `size`,
  `containsAll` and a copy constructor.

The repository contains only the unit tests of these two classes, not
their implementations. Both are modelled from the behaviour their unit
tests assert
(`CirArrayListTest.java`, `ArrayPriorityQueueTest.java`) and from the
container design above.

Layout:

- `results.dfy`, module `Results`: `Option` (a Java reference that may be
  null), `Result` (a return value or a thrown exception), and `Error`
  (`IndexOutOfBounds`, `IllegalArgument`, `NoSuchElement`).
- `list_spec.dfy`, module `ListSpec`: the list contract on plain sequences.
  It defines insertion, removal, range clearing, `removeIf` and reversal,
  with the lemmas relating them.
- `cir_array_list.dfy`, module `CirArrayList`: the ring state `CirList`, its
  invariant `Valid`, the abstraction `Elems`, and every list operation.
  Each operation is proved against `ListSpec`.
- `cir_array_list_scenarios.dfy`: each list unit test as a method. Its
  postcondition is what the test asserts, for any input size rather than
  the test's fixed 2048 elements.
- `array_priority_queue.dfy` and `array_priority_queue_scenarios.dfy`: the
  same for the queue.

Modelling choices:

- The backing array is a value `seq<Option<T>>`. Each operation takes the
  list state and returns the new one. The list owns its array alone, so this
  matches the in-place Java behaviour. The element moves inside an operation
  are still modelled slot by slot, in the order an in-place shift makes them.
- Indexes are Java `int`s, so they may be negative. An out-of-range index
  gives `Failure(IndexOutOfBounds)` and leaves the list untouched.
  `subList(from, to)` with `from > to` gives `Failure(IllegalArgument)`,
  which is `AbstractList`'s range check.
- The physical slot is written as one conditional wrap, `Phys`. The lemma
  `PhysIsModulo` proves it equal to `(head + k) % capacity`.
  The proofs read the array through a ghost ring view, `Ring`. Position j
  of the view is slot `Phys(capacity, head, j)`. The lemmas `RingAt`,
  `RingUpdate` and `RingStep` say how a slot read, a slot write and a
  head step look in that view.
- The default capacity is 16. A list built from a collection gets exactly
  that collection's size, or 16 if that is more. The repository does not
  show the implementation's own constants.
- `containsAll` follows the `java.util.Collection` contract: each element
  of the argument must occur in the container. Duplicates in the argument
  are not matched one for one against the container's multiset. The tests
  only call it on collections whose every element was added, so both
  readings agree there.
- The queue's `poll` on an empty queue throws `NoSuchElementException`, as
  `ArrayPriorityQueueTest.java` requires. (The general `java.util.Queue`
  contract would return null.) `element` is `peek` that throws when the
  queue is empty.

## Model

| member | source | states |
|---|---|---|
| ListSpec.Insert | assign2/src/test/java/edu/sdsu/cs/datastructures/CirArrayListTest.java:70-93 | `add(i, v)` on the abstract list: one longer, v at i, earlier elements kept, later ones one position up |
| ListSpec.RemoveAt | assign2/src/test/java/edu/sdsu/cs/datastructures/CirArrayListTest.java:141-150 | `remove(i)` on the abstract list: one shorter, earlier elements kept, later ones one position down |
| ListSpec.ClearRange | assign2/src/test/java/edu/sdsu/cs/datastructures/CirArrayListTest.java:185-195 | `subList(from, to).clear()` on the abstract list: shorter by to - from, prefix kept, suffix moved down by to - from |
| ListSpec.Reject | assign2/src/test/java/edu/sdsu/cs/datastructures/CirArrayListTest.java:173-183 | `removeIf(p)` on the abstract list: no surviving element matches p, and the list never grows |
| ListSpec.Reverse | assign2/src/test/java/edu/sdsu/cs/datastructures/CirArrayListTest.java:82-93 | position j of the reversal holds element n-1-j, as the test's reverse-sorted expectation reads |
| ListSpec.InsertFront | assign2/src/test/java/edu/sdsu/cs/datastructures/CirArrayListTest.java:82-93 | `add(0, v)` prepends v |
| ListSpec.RemoveInsert | assign2/src/test/java/edu/sdsu/cs/datastructures/CirArrayListTest.java:141-150 | removing at i right after inserting at i restores the list |
| ListSpec.InsertRemove | assign2/src/test/java/edu/sdsu/cs/datastructures/CirArrayListTest.java:141-150 | re-inserting the removed element at its index restores the list |
| ListSpec.ReverseSnoc | assign2/src/test/java/edu/sdsu/cs/datastructures/CirArrayListTest.java:82-93 | prepending the next value to the reversed prefix gives the reversal of the longer prefix |
| ListSpec.RejectAppend | assign2/src/test/java/edu/sdsu/cs/datastructures/CirArrayListTest.java:173-183 | `removeIf` distributes over concatenation, so one element-by-element pass computes it |
| ListSpec.RejectMembers | assign2/src/test/java/edu/sdsu/cs/datastructures/CirArrayListTest.java:173-183 | after `removeIf(p)`, x is contained exactly when it was contained before and p does not match it |
| ListSpec.RejectKeepsAll | assign2/src/test/java/edu/sdsu/cs/datastructures/CirArrayListTest.java:177 | `removeIf` removes nothing exactly when no element matches |
| ListSpec.RejectPartition | assign2/src/test/java/edu/sdsu/cs/datastructures/CirArrayListTest.java:173-183 | the removed and the kept elements together are the original multiset |
| ListSpec.ClearInnerKeepsEnds | assign2/src/test/java/edu/sdsu/cs/datastructures/CirArrayListTest.java:185-195 | clearing `subList(1, size-1)` of a list of two or more leaves exactly its first and last element |
| CirArrayList.Valid | assign2/src/test/java/edu/sdsu/cs/datastructures/CirArrayListTest.java:42-50 | the representation invariant every operation keeps: a non-empty ring, head inside it, at most capacity elements, each logical position in an occupied slot |
| CirArrayList.Elems | assign2/src/test/java/edu/sdsu/cs/datastructures/CirArrayListTest.java:70-80 | the abstraction: the list has count elements, and element k is the value in the slot (head + k) mod capacity |
| CirArrayList.Phys | assign2/src/test/java/edu/sdsu/cs/datastructures/CirArrayListTest.java:109-124 | the physical slot of a logical offset always lies inside the array |
| CirArrayList.PhysIsModulo | assign2/src/test/java/edu/sdsu/cs/datastructures/CirArrayListTest.java:109-124 | the wrap-around slot is (head + k) mod capacity |
| CirArrayList.New | assign2/src/test/java/edu/sdsu/cs/datastructures/CirArrayListTest.java:42-50 | the default constructor gives a valid empty list of the default capacity |
| CirArrayList.Size | assign2/src/test/java/edu/sdsu/cs/datastructures/CirArrayListTest.java:47-50 | `size()` is the length of the abstract list |
| CirArrayList.IsEmpty | assign2/src/test/java/edu/sdsu/cs/datastructures/CirArrayListTest.java:47-50 | `isEmpty()` holds exactly when the abstract list is empty |
| CirArrayList.FromSeq | assign2/src/test/java/edu/sdsu/cs/datastructures/CirArrayListTest.java:52-60 | the copy constructor gives a valid list whose abstract content is the source sequence, with head 0 |
| CirArrayList.Grow | assign2/src/test/java/edu/sdsu/cs/datastructures/CirArrayListTest.java:95-107 | growth doubles the capacity, resets head to 0, leaves room for one more, and keeps the logical order |
| CirArrayList.EnsureRoom | assign2/src/test/java/edu/sdsu/cs/datastructures/CirArrayListTest.java:95-107 | before an insertion there is a free slot and the content is unchanged |
| CirArrayList.PrevHead | assign2/src/test/java/edu/sdsu/cs/datastructures/CirArrayListTest.java:82-93 | the slot before head, wrapping from 0 to the last slot: stepping forward one from it returns to head |
| CirArrayList.PushFront | assign2/src/test/java/edu/sdsu/cs/datastructures/CirArrayListTest.java:82-93 | prepending through a wrapped head gives [v] followed by the old content |
| CirArrayList.PushBack | assign2/src/test/java/edu/sdsu/cs/datastructures/CirArrayListTest.java:109-124 | `add(v)` gives the old content followed by v |
| CirArrayList.MoveLeft | assign2/src/test/java/edu/sdsu/cs/datastructures/CirArrayListTest.java:141-150 | the in-place shift toward the front: each ring position in [lo, hi) takes its successor's value, all others are kept |
| CirArrayList.MoveRight | assign2/src/test/java/edu/sdsu/cs/datastructures/CirArrayListTest.java:70-80 | the in-place shift toward the back: each ring position in (lo, hi] takes its predecessor's value, all others are kept |
| CirArrayList.ShiftFrontInsert | assign2/src/test/java/edu/sdsu/cs/datastructures/CirArrayListTest.java:70-80 | shifting the prefix toward the front opens position i: the result is the abstract insertion |
| CirArrayList.ShiftBackInsert | assign2/src/test/java/edu/sdsu/cs/datastructures/CirArrayListTest.java:70-80 | shifting the suffix toward the back opens position i: the result is the abstract insertion |
| CirArrayList.Insert | assign2/src/test/java/edu/sdsu/cs/datastructures/CirArrayListTest.java:70-107 | `add(i, v)` succeeds exactly for 0 <= i <= size and then equals the abstract insertion; otherwise IndexOutOfBounds |
| CirArrayList.Get | assign2/src/test/java/edu/sdsu/cs/datastructures/CirArrayListTest.java:76-79 | `get(i)` succeeds exactly for 0 <= i < size and returns the i-th abstract element |
| CirArrayList.Set | assign2/src/test/java/edu/sdsu/cs/datastructures/CirArrayListTest.java:152-163 | `set(i, v)` succeeds exactly for 0 <= i < size; only position i changes, to v, and the old element is returned |
| CirArrayList.ShiftFrontRemove | assign2/src/test/java/edu/sdsu/cs/datastructures/CirArrayListTest.java:141-150 | closing the gap from the front, with head stepping forward, gives the abstract removal |
| CirArrayList.ShiftBackRemove | assign2/src/test/java/edu/sdsu/cs/datastructures/CirArrayListTest.java:141-150 | closing the gap from the back gives the abstract removal |
| CirArrayList.RemoveAt | assign2/src/test/java/edu/sdsu/cs/datastructures/CirArrayListTest.java:141-150 | `remove(i)` succeeds exactly for 0 <= i < size, returns the element at i, and leaves the abstract removal |
| CirArrayList.Contains | assign2/src/test/java/edu/sdsu/cs/datastructures/CirArrayListTest.java:121-123 | `contains(v)` holds exactly when v occurs in the abstract list |
| CirArrayList.ContainsAll | assign2/src/test/java/edu/sdsu/cs/datastructures/CirArrayListTest.java:59 | `containsAll(c)` holds exactly when every element of c occurs in the list |
| CirArrayList.Compact | assign2/src/test/java/edu/sdsu/cs/datastructures/CirArrayListTest.java:173-183 | the one-pass compaction writes exactly the elements p rejects, in order, at the front |
| CirArrayList.RemoveIf | assign2/src/test/java/edu/sdsu/cs/datastructures/CirArrayListTest.java:173-183 | `removeIf(p)` leaves exactly the non-matching elements in order, and reports true exactly when some element matched |
| CirArrayList.MoveDown | assign2/src/test/java/edu/sdsu/cs/datastructures/CirArrayListTest.java:185-195 | the in-place move keeps the prefix and moves the suffix down by the window's width |
| CirArrayList.CloseGap | assign2/src/test/java/edu/sdsu/cs/datastructures/CirArrayListTest.java:185-195 | closing the window gives the abstract range clearing |
| CirArrayList.ClearRange | assign2/src/test/java/edu/sdsu/cs/datastructures/CirArrayListTest.java:185-195 | `subList(from, to).clear()` succeeds exactly for 0 <= from <= to <= size; a bad bound gives IndexOutOfBounds and from > to gives IllegalArgument |
| CirArrayListScenarios.ConstructDefault | assign2/src/test/java/edu/sdsu/cs/datastructures/CirArrayListTest.java:47-50 | a default-constructed list reports `isEmpty()` true and `size()` 0 |
| CirArrayListScenarios.ConstructFromSeq | assign2/src/test/java/edu/sdsu/cs/datastructures/CirArrayListTest.java:52-60 | a copy is non-empty exactly when the source is, has its size, and contains all of it |
| CirArrayListScenarios.AppendEach | assign2/src/test/java/edu/sdsu/cs/datastructures/CirArrayListTest.java:70-80 | inserting each value at index size rebuilds the values in order |
| CirArrayListScenarios.PrependEach | assign2/src/test/java/edu/sdsu/cs/datastructures/CirArrayListTest.java:82-93 | inserting each value at index 0 gives the values in reverse order |
| CirArrayListScenarios.PrependOntoCopy | assign2/src/test/java/edu/sdsu/cs/datastructures/CirArrayListTest.java:95-107 | prepending N values onto a copy of them gives size 2N: the new values first, then the originals unchanged |
| CirArrayListScenarios.AddRemoveRounds | assign2/src/test/java/edu/sdsu/cs/datastructures/CirArrayListTest.java:109-124 | any number of add/remove(0) rounds, then remove(0) and add(valid), leaves exactly [valid] |
| CirArrayListScenarios.AddTwoRemoveOne | assign2/src/test/java/edu/sdsu/cs/datastructures/CirArrayListTest.java:126-139 | n rounds of add, add, remove(0) leave exactly n .. 2n-1 in order |
| CirArrayListScenarios.RemoveAllFromFront | assign2/src/test/java/edu/sdsu/cs/datastructures/CirArrayListTest.java:141-150 | repeated remove(0) returns the elements in order, each size one less, each removed value gone when values are distinct |
| CirArrayListScenarios.SetEach | assign2/src/test/java/edu/sdsu/cs/datastructures/CirArrayListTest.java:152-163 | setting every position rewrites the list to the new values at the same size |
| CirArrayListScenarios.Odd | assign2/src/test/java/edu/sdsu/cs/datastructures/CirArrayListTest.java:177 | the lambda `integer % 2 == 1` matches x exactly when Java's truncating remainder of x by 2 is 1, so it never matches a negative value |
| CirArrayListScenarios.RemoveOddValues | assign2/src/test/java/edu/sdsu/cs/datastructures/CirArrayListTest.java:173-183 | after removing odd values from 0..n-1, exactly the even ones are contained |
| CirArrayListScenarios.ClearMiddle | assign2/src/test/java/edu/sdsu/cs/datastructures/CirArrayListTest.java:185-195 | clearing the middle leaves the two valid ends, size 2, with no invalid value left |
| ArrayPriorityQueue.New | assign2/src/test/java/edu/sdsu/cs/datastructures/ArrayPriorityQueueTest.java:41-44 | a new queue has size 0 and no element |
| ArrayPriorityQueue.Size | assign2/src/test/java/edu/sdsu/cs/datastructures/ArrayPriorityQueueTest.java:46-50 | `size()` is 0 exactly when the queue holds no element |
| ArrayPriorityQueue.Offer | assign2/src/test/java/edu/sdsu/cs/datastructures/ArrayPriorityQueueTest.java:82-90 | `offer(v)` grows the queue by one, adds v, and changes nothing else |
| ArrayPriorityQueue.FromSeq | assign2/src/test/java/edu/sdsu/cs/datastructures/ArrayPriorityQueueTest.java:46-50 | the copy constructor holds exactly the source's multiset, so its size is the source's length |
| ArrayPriorityQueue.ContainsAll | assign2/src/test/java/edu/sdsu/cs/datastructures/ArrayPriorityQueueTest.java:82-90 | `containsAll(c)` holds exactly when every element of c is in the queue |
| ArrayPriorityQueue.Peek | assign2/src/test/java/edu/sdsu/cs/datastructures/ArrayPriorityQueueTest.java:41-44 | `peek()` is null exactly on an empty queue, otherwise some element of it |
| ArrayPriorityQueue.Element | assign2/src/test/java/edu/sdsu/cs/datastructures/ArrayPriorityQueueTest.java:73-80 | `element()` throws NoSuchElement exactly on an empty queue, otherwise returns some element of it |
| ArrayPriorityQueue.Poll | assign2/src/test/java/edu/sdsu/cs/datastructures/ArrayPriorityQueueTest.java:52-71 | `poll()` throws NoSuchElement exactly on an empty queue; otherwise it removes one occurrence of an element and returns it |
| ArrayPriorityQueue.OfferToEmptyThenRemove | assign2/src/test/java/edu/sdsu/cs/datastructures/ArrayPriorityQueueTest.java:61-71 | the only element of a queue that was empty before one `offer(v)` is v, and removing it empties the queue |
| ArrayPriorityQueueScenarios.PeekOnNew | assign2/src/test/java/edu/sdsu/cs/datastructures/ArrayPriorityQueueTest.java:41-44 | a new queue has size 0 and `peek` answers null without throwing |
| ArrayPriorityQueueScenarios.ConstructFromSeq | assign2/src/test/java/edu/sdsu/cs/datastructures/ArrayPriorityQueueTest.java:46-50 | a queue copied from N items has `size()` N |
| ArrayPriorityQueueScenarios.PollOnNew | assign2/src/test/java/edu/sdsu/cs/datastructures/ArrayPriorityQueueTest.java:52-59 | `poll` on a new queue throws NoSuchElement |
| ArrayPriorityQueueScenarios.PollPastEmpty | assign2/src/test/java/edu/sdsu/cs/datastructures/ArrayPriorityQueueTest.java:61-71 | offer then poll returns the offered element and size 0; the next poll throws NoSuchElement |
| ArrayPriorityQueueScenarios.ElementOnNew | assign2/src/test/java/edu/sdsu/cs/datastructures/ArrayPriorityQueueTest.java:73-80 | `element` on a new queue throws NoSuchElement |
| ArrayPriorityQueueScenarios.OfferEach | assign2/src/test/java/edu/sdsu/cs/datastructures/ArrayPriorityQueueTest.java:82-90 | offering N items one at a time gives size N, contains all of them, and equals the copy of the items |

## Left out

- `NameGenerator` (src/main/java/edu/sdsu/cs/util/NameGenerator.java) loads word lists through the class loader and draws names from a seeded `java.util.Random`. It only produces test data, so it is not modelled. The queue scenarios take their items as a parameter instead.
- The JUnit and Hamcrest scaffolding (`suite`, `setUp`, matchers) and the test-data helper loops are not modelled. Their arrays become sequence parameters.
- The test's literal round count `Integer.MAX_VALUE >> 6` is not modelled. `AddRemoveRounds` is proved for any number of rounds.
- ArrayPriorityQueue.Poll: does not say which element is removed, because the repository does not define the priority order and no test asserts it.
- ArrayPriorityQueue.Peek: does not say which element is returned, for the same reason.
- ArrayPriorityQueue.Element: does not say which element is returned, and is not tied to the element `poll` would take.
- Iteration (including fail-fast iterators) is not modelled. Sublist views are modelled only through `subList(from, to).clear()`.
- `remove(Object)` (remove the first occurrence of a value) is not exercised by the tests and is not modelled.
- Any shrink policy and all amortized-cost behaviour are left out. They affect performance, not content. Only growth is modelled, and it keeps the logical order.
- Vacated slots are not reset to null after removals. No public operation can observe their contents.
- Java's 32-bit `int` limits on size and capacity are not modelled. Sizes are unbounded naturals, so the overflow of capacity doubling past 2^30 is out of scope.
- Java `equals` and boxing are not modelled. Elements are compared with Dafny equality on a type with equality.
- Allocation failure during growth is not modelled.
