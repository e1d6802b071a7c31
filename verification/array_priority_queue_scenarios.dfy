/** The usage patterns the array priority queue's unit tests exercise,
    each written as a method whose postcondition is what the test asserts. */
module ArrayPriorityQueueScenarios {
  import opened Results
  import opened ArrayPriorityQueue

  /** A new queue is empty and `peek` answers null rather than throwing. */
  method PeekOnNew<T(==)>() returns (size: nat, p: Option<T>)
    ensures size == 0
    ensures p == None
  {
    var q: PQueue<T> := New();
    size := Size(q);
    p := Peek(q);
  }

  /** Copy construction: the queue has as many elements as the source. */
  method ConstructFromSeq<T(==)>(items: seq<T>) returns (size: nat)
    ensures size == |items|
  {
    var q := FromSeq(items);
    size := Size(q);
  }

  /** `poll` on a new queue throws NoSuchElementException. */
  method PollOnNew<T(==)>() returns (r: Result<(PQueue<T>, T)>)
    ensures r == Failure(NoSuchElement)
  {
    r := Poll(New());
  }

  /** After one `offer` and one `poll` the queue is empty again, polling it
      once more throws, and the polled element was the offered one. */
  method PollPastEmpty<T(==)>(v: T) returns (first: Result<(PQueue<T>, T)>, second: Result<(PQueue<T>, T)>)
    ensures first.Success? && first.value.1 == v && Size(first.value.0) == 0
    ensures second == Failure(NoSuchElement)
  {
    var q := Offer(New(), v);
    first := Poll(q);
    OfferToEmptyThenRemove(v, first.value.1);
    second := Poll(first.value.0);
  }

  /** `element` on a new queue throws NoSuchElementException. */
  method ElementOnNew<T(==)>() returns (r: Result<T>)
    ensures r == Failure(NoSuchElement)
  {
    r := Element(New());
  }

  /** Offering items one at a time gives a queue of their number that
      contains all of them, the same queue the copy constructor builds. */
  method OfferEach<T(==)>(items: seq<T>) returns (q: PQueue<T>)
    ensures Size(q) == |items|
    ensures ContainsAll(q, items)
    ensures q == FromSeq(items)
  {
    q := New();
    var k := 0;
    while k < |items|
      invariant k <= |items|
      invariant q.items == multiset(items[..k])
    {
      assert items[..k + 1] == items[..k] + [items[k]];
      q := Offer(q, items[k]);
      k := k + 1;
    }
    assert items[..|items|] == items;
  }
}
