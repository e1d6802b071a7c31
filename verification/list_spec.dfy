/** The abstract list contract, stated on plain sequences. Every operation of
    the circular-array list is specified against these definitions; they say
    nothing about storage, heads or capacities. */
module ListSpec {

  /** `add(i, v)`: v lands at position i, later elements move up by one. */
  function Insert<T>(s: seq<T>, i: nat, v: T): (r: seq<T>)
    requires i <= |s|
    ensures |r| == |s| + 1
    ensures r[i] == v
    ensures forall j :: 0 <= j < i ==> r[j] == s[j]
    ensures forall j :: i < j < |r| ==> r[j] == s[j - 1]
  {
    s[..i] + [v] + s[i..]
  }

  /** `remove(i)`: the element at i disappears, later elements move down by one. */
  function RemoveAt<T>(s: seq<T>, i: nat): (r: seq<T>)
    requires i < |s|
    ensures |r| == |s| - 1
    ensures forall j :: 0 <= j < i ==> r[j] == s[j]
    ensures forall j :: i <= j < |r| ==> r[j] == s[j + 1]
  {
    s[..i] + s[i + 1..]
  }

  /** `subList(from, to).clear()`: the half-open window [from, to) disappears. */
  function ClearRange<T>(s: seq<T>, from: nat, to: nat): (r: seq<T>)
    requires from <= to <= |s|
    ensures |r| == |s| - (to - from)
    ensures forall j :: 0 <= j < from ==> r[j] == s[j]
    ensures forall j :: from <= j < |r| ==> r[j] == s[j + (to - from)]
  {
    s[..from] + s[to..]
  }

  /** `removeIf(p)`: the elements p rejects are dropped, the others keep
      their relative order. */
  function Reject<T>(s: seq<T>, p: T -> bool): (r: seq<T>)
    ensures |r| <= |s|
    ensures forall j :: 0 <= j < |r| ==> !p(r[j])
  {
    if s == [] then []
    else if p(s[0]) then Reject(s[1..], p)
    else [s[0]] + Reject(s[1..], p)
  }

  /** An element survives `Reject` exactly when it occurs in the list and
      the predicate does not match it. */
  lemma {:induction false} RejectMembers<T>(s: seq<T>, p: T -> bool, x: T)
    ensures x in Reject(s, p) <==> x in s && !p(x)
  {
    if s != [] {
      RejectMembers(s[1..], p, x);
      assert s == [s[0]] + s[1..];
    }
  }

  /** Front-to-back reading of a list built by repeated `add(0, v)`. */
  function Reverse<T>(s: seq<T>): (r: seq<T>)
    ensures |r| == |s|
    ensures forall j :: 0 <= j < |s| ==> r[j] == s[|s| - 1 - j]
  {
    if s == [] then [] else [s[|s| - 1]] + Reverse(s[..|s| - 1])
  }

  /** Java's `containsAll`: every element of c occurs in s. */
  predicate ContainsAll<T(==)>(s: seq<T>, c: seq<T>)
  {
    forall j :: 0 <= j < |c| ==> c[j] in s
  }

  /** Inserting at position 0 prepends. */
  lemma InsertFront<T>(s: seq<T>, v: T)
    ensures Insert(s, 0, v) == [v] + s
  {
  }

  /** Removing what was just inserted gives back the original list. */
  lemma RemoveInsert<T>(s: seq<T>, i: nat, v: T)
    requires i <= |s|
    ensures RemoveAt(Insert(s, i, v), i) == s
  {
  }

  /** Re-inserting the removed element at its index gives back the original list. */
  lemma InsertRemove<T>(s: seq<T>, i: nat)
    requires i < |s|
    ensures Insert(RemoveAt(s, i), i, s[i]) == s
  {
  }

  /** Prepending to a reversed list is reversing a list extended at the back. */
  lemma {:induction false} ReverseSnoc<T>(s: seq<T>, x: T)
    ensures Reverse(s + [x]) == [x] + Reverse(s)
  {
    assert (s + [x])[..|s|] == s;
  }

  /** Rejection distributes over concatenation, so a left-to-right scan may
      reject element by element. */
  lemma {:induction false} RejectAppend<T>(s: seq<T>, t: seq<T>, p: T -> bool)
    ensures Reject(s + t, p) == Reject(s, p) + Reject(t, p)
  {
    if s == [] {
      assert s + t == t;
    } else {
      assert (s + t)[1..] == s[1..] + t;
      RejectAppend(s[1..], t, p);
    }
  }

  /** Nothing was removed exactly when no element matches the predicate. */
  lemma {:induction false} RejectKeepsAll<T>(s: seq<T>, p: T -> bool)
    ensures |Reject(s, p)| == |s| <==> forall j :: 0 <= j < |s| ==> !p(s[j])
  {
    if s != [] {
      RejectKeepsAll(s[1..], p);
      assert forall j :: 1 <= j < |s| ==> s[1..][j - 1] == s[j];
    }
  }

  /** Rejection partitions the elements: what is dropped and what is kept
      together make up the original multiset. */
  lemma {:induction false} RejectPartition<T>(s: seq<T>, p: T -> bool, q: T -> bool)
    requires forall x :: q(x) == !p(x)
    ensures multiset(Reject(s, p)) + multiset(Reject(s, q)) == multiset(s)
  {
    if s != [] {
      var x, rest := s[0], s[1..];
      RejectPartition(rest, p, q);
      assert multiset(s) == multiset{x} + multiset(rest) by {
        assert s == [x] + rest;
      }
      if p(x) {
        assert Reject(s, q) == [x] + Reject(rest, q);
      } else {
        assert Reject(s, p) == [x] + Reject(rest, p);
      }
    }
  }

  /** Clearing the inner window of a list of at least two elements leaves
      exactly its two ends. */
  lemma ClearInnerKeepsEnds<T>(s: seq<T>)
    requires |s| >= 2
    ensures ClearRange(s, 1, |s| - 1) == [s[0], s[|s| - 1]]
  {
  }
}
