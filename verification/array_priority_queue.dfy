/** The array priority queue `ArrayPriorityQueue<E>`, as its queue contract
    describes it: a multiset of elements. Which element `poll`, `peek` and
    `element` pick is the queue's priority order, which is not modelled:
    each of them picks some element of the queue, and nothing more is
    promised about which. */
module ArrayPriorityQueue {
  import opened Results

  datatype PQueue<T(==)> = PQueue(items: multiset<T>)

  /** `size()`. */
  function Size<T(==)>(q: PQueue<T>): (n: nat)
    ensures n == 0 <==> q.items == multiset{}
  {
    |q.items|
  }

  /** The default constructor. */
  function New<T(==)>(): (q: PQueue<T>)
    ensures Size(q) == 0
    ensures forall x :: x !in q.items
  {
    PQueue(multiset{})
  }

  /** `offer(v)`: v joins the queue, which grows by one, and nothing else
      changes. */
  function Offer<T(==)>(q: PQueue<T>, v: T): (r: PQueue<T>)
    ensures Size(r) == Size(q) + 1
    ensures v in r.items
    ensures r.items - multiset{v} == q.items
  {
    PQueue(q.items + multiset{v})
  }

  /** The copy constructor: the copy holds every element of src, with its
      multiplicity. */
  function FromSeq<T(==)>(src: seq<T>): (q: PQueue<T>)
    ensures q.items == multiset(src)
    ensures Size(q) == |src|
  {
    if src == [] then New()
    else
      assert src == src[..|src| - 1] + [src[|src| - 1]];
      Offer(FromSeq(src[..|src| - 1]), src[|src| - 1])
  }

  /** `containsAll(c)`: each element of c is looked up in turn. */
  predicate ContainsAll<T(==)>(q: PQueue<T>, c: seq<T>)
    ensures ContainsAll(q, c) <==> forall j :: 0 <= j < |c| ==> c[j] in q.items
  {
    c == [] || (c[0] in q.items && ContainsAll(q, c[1..]))
  }

  /** `peek()`: some element of a non-empty queue, or null when empty. */
  method Peek<T(==)>(q: PQueue<T>) returns (r: Option<T>)
    ensures r.None? <==> Size(q) == 0
    ensures r.Some? ==> r.value in q.items
  {
    if |q.items| == 0 {
      return None;
    }
    var x :| x in q.items;
    return Some(x);
  }

  /** `element()`: like `peek`, but an empty queue throws NoSuchElementException. */
  method Element<T(==)>(q: PQueue<T>) returns (r: Result<T>)
    ensures r.Success? <==> Size(q) > 0
    ensures r.Failure? ==> r.error == NoSuchElement
    ensures r.Success? ==> r.value in q.items
  {
    var p := Peek(q);
    if p.None? {
      return Failure(NoSuchElement);
    }
    return Success(p.value);
  }

  /** `poll()`: removes and returns some element; an empty queue throws
      NoSuchElementException. */
  method Poll<T(==)>(q: PQueue<T>) returns (r: Result<(PQueue<T>, T)>)
    ensures r.Success? <==> Size(q) > 0
    ensures r.Failure? ==> r.error == NoSuchElement
    ensures r.Success? ==> r.value.1 in q.items
    ensures r.Success? ==> Size(r.value.0) == Size(q) - 1
    ensures r.Success? ==> r.value.0.items + multiset{r.value.1} == q.items
  {
    if |q.items| == 0 {
      return Failure(NoSuchElement);
    }
    var x :| x in q.items;
    return Success((PQueue(q.items - multiset{x}), x));
  }

  /** Offering to an empty queue and polling gives the offered element
      back and leaves the queue empty. */
  lemma OfferToEmptyThenRemove<T>(v: T, x: T)
    requires x in Offer(New(), v).items
    ensures x == v
    ensures Offer(New(), v).items - multiset{x} == multiset{}
  {
    assert Offer(New(), v).items == multiset{v};
  }
}
