/** The usage patterns the circular-array list's unit tests exercise,
    each written as a method over the list model whose postcondition is
    what the test asserts, for every input size instead of the tests'
    fixed 2048 elements. */
module CirArrayListScenarios {
  import opened Results
  import ListSpec
  import opened CirArrayList

  /** Default construction: the list is empty and has size 0. */
  method ConstructDefault<T>() returns (empty: bool, size: nat)
    ensures empty
    ensures size == 0
  {
    var l: CirList<T> := New();
    empty := IsEmpty(l);
    size := Size(l);
  }

  /** Copy construction: the list is non-empty exactly when the source is,
      has the source's size, and contains all of its elements. */
  method ConstructFromSeq<T(==)>(src: seq<T>) returns (l: CirList<T>, empty: bool, size: nat, all: bool)
    ensures Valid(l) && Elems(l) == src
    ensures empty <==> |src| == 0
    ensures size == |src|
    ensures all
  {
    l := FromSeq(src);
    empty := IsEmpty(l);
    size := Size(l);
    all := ContainsAll(l, src);
  }

  /** `add(position, values[position])` for each position in turn
      rebuilds values exactly. */
  method AppendEach<T>(values: seq<T>) returns (l: CirList<T>)
    ensures Valid(l)
    ensures Elems(l) == values
  {
    l := New();
    var k := 0;
    while k < |values|
      invariant k <= |values|
      invariant Valid(l) && Elems(l) == values[..k]
    {
      var r := Insert(l, k, values[k]);
      l := r.value;
      assert values[..k + 1] == values[..k] + [values[k]];
      k := k + 1;
    }
    assert values[..|values|] == values;
  }

  /** `add(0, v)` for each value in turn leaves the values in reverse
      order, the size growing by one each time. */
  method PrependEach<T>(values: seq<T>) returns (l: CirList<T>)
    ensures Valid(l)
    ensures Elems(l) == ListSpec.Reverse(values)
  {
    l := New();
    var k := 0;
    while k < |values|
      invariant k <= |values|
      invariant Valid(l) && Elems(l) == ListSpec.Reverse(values[..k])
    {
      var r := Insert(l, 0, values[k]);
      assert values[..k + 1] == values[..k] + [values[k]];
      ListSpec.ReverseSnoc(values[..k], values[k]);
      l := r.value;
      k := k + 1;
    }
    assert values[..|values|] == values;
  }

  /** Prepending the values of a list built from them, last value first,
      doubles it: the new values come first in order, the original ones
      follow unchanged across growth and wrap-around. */
  method PrependOntoCopy<T>(values: seq<T>) returns (l: CirList<T>)
    ensures Valid(l)
    ensures Elems(l) == values + values
    ensures |Elems(l)| == 2 * |values|
  {
    l := FromSeq(values);
    ghost var target := values + values;
    var k := |values|;
    while k > 0
      invariant 0 <= k <= |values|
      invariant Valid(l) && Elems(l) == target[k..]
    {
      var r := Insert(l, 0, values[k - 1]);
      ListSpec.InsertFront(target[k..], values[k - 1]);
      assert target[k - 1..] == [values[k - 1]] + target[k..];
      l := r.value;
      k := k - 1;
    }
  }

  /** One element, then any number of rounds of `add` at the back and
      `remove(0)` at the front, then one more `remove(0)` and `add(valid)`:
      only valid remains. */
  method AddRemoveRounds<T(==)>(rounds: nat, invalid: T, valid: T)
    returns (l: CirList<T>, hasValid: bool, hasInvalid: bool)
    requires invalid != valid
    ensures Valid(l) && Elems(l) == [valid]
    ensures Size(l) == 1
    ensures hasValid && !hasInvalid
  {
    l := PushBack(New(), invalid);
    var k := 0;
    while k < rounds
      invariant Valid(l) && Elems(l) == [invalid]
    {
      l := PushBack(l, invalid);
      var r := RemoveAt(l, 0);
      l := r.value.0;
      k := k + 1;
    }
    var r := RemoveAt(l, 0);
    l := PushBack(r.value.0, valid);
    hasValid := Contains(l, valid);
    hasInvalid := Contains(l, invalid);
  }

  /** `cycles` rounds of two appends of a running counter and one
      `remove(0)`: the list is exactly cycles, cycles + 1, ...,
      2 * cycles - 1, so none of 0 .. cycles - 1 remains. */
  method AddTwoRemoveOne(cycles: nat) returns (l: CirList<int>)
    ensures Valid(l)
    ensures Elems(l) == seq(cycles, j => cycles + j)
    ensures forall i :: 0 <= i < cycles ==> i !in Elems(l)
  {
    l := New();
    var counter := 0;
    var c := 0;
    while c < cycles
      invariant c <= cycles
      invariant counter == 2 * c
      invariant Valid(l) && Elems(l) == seq(c, j => c + j)
    {
      l := PushBack(l, counter);
      counter := counter + 1;
      l := PushBack(l, counter);
      counter := counter + 1;
      var r := RemoveAt(l, 0);
      l := r.value.0;
      assert Elems(l) == seq(c + 1, j => c + 1 + j);
      c := c + 1;
    }
  }

  /** Repeated `remove(0)` on a copy of src returns the elements of src in
      order, the size falling by one each time; when src has no duplicates
      each removed element is gone from the list. */
  method RemoveAllFromFront<T(==)>(src: seq<T>) returns (removed: seq<T>, sizesOk: bool, goneOk: bool)
    ensures removed == src
    ensures sizesOk
    ensures (forall a, b :: 0 <= a < b < |src| ==> src[a] != src[b]) ==> goneOk
  {
    var l := FromSeq(src);
    removed := [];
    sizesOk := true;
    goneOk := true;
    var k := 0;
    while k < |src|
      invariant k <= |src|
      invariant Valid(l) && Elems(l) == src[k..]
      invariant removed == src[..k]
      invariant sizesOk
      invariant (forall a, b :: 0 <= a < b < |src| ==> src[a] != src[b]) ==> goneOk
    {
      var r := RemoveAt(l, 0);
      l := r.value.0;
      var still := Contains(l, r.value.1);
      sizesOk := sizesOk && Size(l) == |src| - k - 1;
      goneOk := goneOk && !still;
      assert src[..k + 1] == src[..k] + [src[k]];
      removed := removed + [r.value.1];
      k := k + 1;
    }
    assert src[..|src|] == src;
  }

  /** `set(i, values[i])` for each position of a list built from src
      turns it into values, at the same size. */
  method SetEach<T>(src: seq<T>, values: seq<T>) returns (l: CirList<T>)
    requires |values| == |src|
    ensures Valid(l)
    ensures Elems(l) == values
  {
    l := FromSeq(src);
    var k := 0;
    while k < |values|
      invariant k <= |values|
      invariant Valid(l) && |Elems(l)| == |values|
      invariant forall j :: 0 <= j < k ==> Elems(l)[j] == values[j]
    {
      var r := Set(l, k, values[k]);
      l := r.value.0;
      k := k + 1;
    }
  }

  /** Java's `x % m` for m > 0: the remainder takes the sign of x. */
  function JavaRem(x: int, m: nat): int
    requires m > 0
  {
    if x >= 0 then x % m else -((-x) % m)
  }

  /** The predicate `x % 2 == 1` of the removeIf test. Java's `%`
      truncates toward zero, so a negative x leaves a remainder of 0 or -1
      and never matches; Dafny's `%` is Euclidean, hence the sign test. */
  predicate Odd(x: int)
    ensures Odd(x) <==> JavaRem(x, 2) == 1
  {
    x > 0 && x % 2 == 1
  }

  /** `removeIf` of the odd values from 0 .. n - 1 keeps exactly the even ones. */
  method RemoveOddValues(n: nat) returns (l: CirList<int>)
    ensures Valid(l)
    ensures forall i :: 0 <= i < n ==> (i in Elems(l) <==> i % 2 == 0)
    ensures Elems(l) == ListSpec.Reject(seq(n, i => i), Odd)
  {
    var full := FromSeq(seq(n, i => i));
    var anyRemoved;
    l, anyRemoved := RemoveIf(full, Odd);
    forall i | 0 <= i < n
      ensures i in Elems(l) <==> i % 2 == 0
    {
      ListSpec.RejectMembers(seq(n, i => i), Odd, i);
      assert seq(n, i => i)[i] == i;
    }
  }

  /** A list of n copies of invalid with valid written at both ends:
      clearing `subList(1, size - 1)` leaves only the two valid ends. */
  method ClearMiddle<T(==)>(n: nat, invalid: T, valid: T)
    returns (l: CirList<T>, before: bool, after: bool)
    requires n >= 2
    requires invalid != valid
    ensures Valid(l) && Elems(l) == [valid, valid]
    ensures Size(l) == 2
    ensures n > 2 ==> before
    ensures !after
  {
    var full := FromSeq(seq(n, _ => invalid));
    var r1 := Set(full, 0, valid);
    var r2 := Set(r1.value.0, Size(r1.value.0) - 1, valid);
    var ends := r2.value.0;
    before := Contains(ends, invalid);
    if n > 2 {
      assert Elems(ends)[1] == invalid;
    }
    var r3 := ClearRange(ends, 1, Size(ends) - 1);
    ListSpec.ClearInnerKeepsEnds(Elems(ends));
    l := r3.value;
    after := Contains(l, invalid);
  }
}
