/** The circular-array list `CirArrayList<E>`: a backing array `data`, the
    physical slot `head` of the first element and the element `count`.
    Logical position k lives in physical slot (head + k) mod capacity.

    The backing array is a value here: each operation takes the list state
    and returns the new one. A slot holds `None` where the Java array holds
    null. Every operation is specified against the abstraction `Elems`,
    the logical content read front to back, and the plain-sequence contract
    of module ListSpec. */
module CirArrayList {
  import opened Results
  import ListSpec

  /** Capacity of a list made by the default constructor. */
  const DefaultCapacity: nat := 16

  datatype CirList<T> = CirList(data: seq<Option<T>>, head: nat, count: nat)

  /** Physical slot of logical offset k from head in a ring of cap slots:
      (head + k) mod cap, written as a single wrap because k <= cap. */
  function Phys(cap: nat, head: nat, k: nat): (p: nat)
    requires head < cap && k <= cap
    ensures p < cap
  {
    if head + k < cap then head + k else head + k - cap
  }

  /** Phys is the modulo mapping of the design: (head + k) mod cap. */
  lemma PhysIsModulo(cap: nat, head: nat, k: nat)
    requires head < cap && k <= cap
    ensures Phys(cap, head, k) == (head + k) % cap
  {
    if head + k >= cap {
      assert head + k == 1 * cap + (head + k - cap);
    }
  }

  /** Distinct logical offsets below cap occupy distinct physical slots. */
  lemma PhysDistinct(cap: nat, head: nat, a: nat)
    requires head < cap && a < cap
    ensures forall j :: 0 <= j < cap && j != a ==> Phys(cap, head, j) != Phys(cap, head, a)
  {
  }

  /** Physical slot of logical position k of l. */
  function Slot<T>(l: CirList<T>, k: nat): (p: nat)
    requires l.head < |l.data| && k <= |l.data|
    ensures p < |l.data|
  {
    Phys(|l.data|, l.head, k)
  }

  /** The representation invariant: a non-empty ring, head inside it, at
      most capacity elements, and every logical position maps to an
      occupied slot. */
  predicate Valid<T>(l: CirList<T>)
    ensures Valid(l) ==> |l.data| > 0 && l.count <= |l.data|
  {
    && l.head < |l.data|
    && l.count <= |l.data|
    && forall k :: 0 <= k < l.count ==> l.data[Slot(l, k)].Some?
  }

  /** The abstraction: the list's elements in logical order. */
  function Elems<T>(l: CirList<T>): (s: seq<T>)
    requires Valid(l)
    ensures |s| == l.count
    ensures forall k :: 0 <= k < l.count ==> l.data[Slot(l, k)] == Some(s[k])
  {
    seq(l.count, k requires 0 <= k < l.count => l.data[Slot(l, k)].value)
  }

  /** The first n positions of the array d read as a ring from head h. */
  ghost function RingPrefix<T>(d: seq<Option<T>>, h: nat, n: nat): (v: seq<Option<T>>)
    requires h < |d| && n <= |d|
    ensures |v| == n
  {
    if n == 0 then [] else RingPrefix(d, h, n - 1) + [d[Phys(|d|, h, n - 1)]]
  }

  /** The array d read as a ring from head h: position j of the view is
      the slot that holds logical position j. Its meaning is used only
      through the lemmas below. */
  ghost function Ring<T>(d: seq<Option<T>>, h: nat): (v: seq<Option<T>>)
    requires h < |d|
    ensures |v| == |d|
  {
    RingPrefix(d, h, |d|)
  }

  lemma {:induction false} RingPrefixAll<T>(d: seq<Option<T>>, h: nat, n: nat)
    requires h < |d| && n <= |d|
    ensures forall j :: 0 <= j < n ==> RingPrefix(d, h, n)[j] == d[Phys(|d|, h, j)]
  {
    if n > 0 {
      RingPrefixAll(d, h, n - 1);
    }
  }

  /** Every position of the ring view is the slot Phys names. */
  lemma RingAll<T>(d: seq<Option<T>>, h: nat)
    requires h < |d|
    ensures forall j :: 0 <= j < |d| ==> Ring(d, h)[j] == d[Phys(|d|, h, j)]
  {
    RingPrefixAll(d, h, |d|);
  }

  /** One position of the ring view is the slot Phys names. */
  lemma RingAt<T>(d: seq<Option<T>>, h: nat, j: nat)
    requires h < |d| && j < |d|
    ensures Ring(d, h)[j] == d[Phys(|d|, h, j)]
  {
    RingAll(d, h);
  }

  /** Writing the slot of logical position a updates position a of the
      ring view and nothing else. */
  lemma RingUpdate<T>(d: seq<Option<T>>, h: nat, a: nat, x: Option<T>)
    requires h < |d| && a < |d|
    ensures Ring(d[Phys(|d|, h, a) := x], h) == Ring(d, h)[a := x]
  {
    PhysDistinct(|d|, h, a);
    RingAll(d, h);
    RingAll(d[Phys(|d|, h, a) := x], h);
  }

  /** Moving head one slot forward rotates the ring view by one position. */
  lemma RingStep<T>(d: seq<Option<T>>, h: nat)
    requires h < |d|
    ensures forall j :: 0 <= j < |d| - 1 ==> Ring(d, Phys(|d|, h, 1))[j] == Ring(d, h)[j + 1]
  {
    RingAll(d, h);
    RingAll(d, Phys(|d|, h, 1));
  }

  /** A valid list's ring view holds its elements at positions [0, count). */
  lemma RingOfValid<T>(l: CirList<T>)
    requires Valid(l)
    ensures forall j :: 0 <= j < l.count ==> Ring(l.data, l.head)[j] == Some(Elems(l)[j])
  {
    RingAll(l.data, l.head);
  }

  /** A ring whose view holds exactly the elements of s at positions
      [0, |s|) is a valid list whose abstraction is s. */
  lemma Represents<T>(d: seq<Option<T>>, h: nat, s: seq<T>)
    requires h < |d| && |s| <= |d|
    requires forall j :: 0 <= j < |s| ==> Ring(d, h)[j] == Some(s[j])
    ensures Valid(CirList(d, h, |s|))
    ensures Elems(CirList(d, h, |s|)) == s
  {
    RingAll(d, h);
    assert forall j :: 0 <= j < |s| ==> d[Phys(|d|, h, j)] == Some(s[j]);
  }

  /** The default constructor: an empty list of the default capacity. */
  function New<T>(): (l: CirList<T>)
    ensures Valid(l)
    ensures Elems(l) == []
    ensures |l.data| == DefaultCapacity
  {
    CirList(seq(DefaultCapacity, _ => None), 0, 0)
  }

  /** `size()`. */
  function Size<T>(l: CirList<T>): (n: nat)
    requires Valid(l)
    ensures n == |Elems(l)|
  {
    l.count
  }

  /** `isEmpty()`. */
  predicate IsEmpty<T>(l: CirList<T>)
    requires Valid(l)
    ensures IsEmpty(l) <==> Elems(l) == []
  {
    l.count == 0
  }

  /** The copy constructor: the elements of src in order from slot 0, in an
      array of the default capacity or exactly |src| slots if that is more. */
  method FromSeq<T>(src: seq<T>) returns (l: CirList<T>)
    ensures Valid(l)
    ensures Elems(l) == src
    ensures l.head == 0
    ensures |l.data| == if |src| < DefaultCapacity then DefaultCapacity else |src|
  {
    var cap := if |src| < DefaultCapacity then DefaultCapacity else |src|;
    var data: seq<Option<T>> := [];
    var k := 0;
    while k < |src|
      invariant k <= |src|
      invariant |data| == k
      invariant forall j :: 0 <= j < k ==> data[j] == Some(src[j])
    {
      data := data + [Some(src[k])];
      k := k + 1;
    }
    data := data + seq(cap - |src|, _ => None);
    l := CirList(data, 0, |src|);
    assert forall j :: 0 <= j < |src| ==> Slot(l, j) == j && l.data[j] == Some(src[j]);
  }

  /** Growth: the logical elements are copied in order into slots 0.. of an
      array twice as large, and head restarts at 0. */
  method Grow<T>(l: CirList<T>) returns (g: CirList<T>)
    requires Valid(l)
    ensures Valid(g)
    ensures Elems(g) == Elems(l)
    ensures g.head == 0
    ensures |g.data| == 2 * |l.data|
    ensures g.count < |g.data|
  {
    var cap := 2 * |l.data|;
    var data: seq<Option<T>> := [];
    var k := 0;
    while k < l.count
      invariant k <= l.count
      invariant |data| == k
      invariant forall j :: 0 <= j < k ==> data[j] == Some(Elems(l)[j])
    {
      data := data + [l.data[Slot(l, k)]];
      k := k + 1;
    }
    data := data + seq(cap - l.count, _ => None);
    g := CirList(data, 0, l.count);
    assert forall j :: 0 <= j < l.count ==> Slot(g, j) == j && g.data[j] == Some(Elems(l)[j]);
  }

  /** Grows l if it is full, so that one more element fits. */
  method EnsureRoom<T>(l: CirList<T>) returns (g: CirList<T>)
    requires Valid(l)
    ensures Valid(g)
    ensures Elems(g) == Elems(l)
    ensures g.count < |g.data|
  {
    if l.count < |l.data| {
      g := l;
    } else {
      g := Grow(l);
    }
  }

  /** The slot before head, wrapping from 0 to the last slot. */
  function PrevHead(cap: nat, h: nat): (p: nat)
    requires h < cap
    ensures p < cap && Phys(cap, p, 1) == h
  {
    if h == 0 then cap - 1 else h - 1
  }

  /** `add(0, v)`: head steps back one slot, wrapping from 0 to the last
      slot, and v is written there. */
  method PushFront<T>(l: CirList<T>, v: T) returns (r: CirList<T>)
    requires Valid(l)
    ensures Valid(r)
    ensures Elems(r) == [v] + Elems(l)
  {
    var g := EnsureRoom(l);
    ghost var e := Elems(g);
    var h := PrevHead(|g.data|, g.head);
    RingOfValid(g);
    RingStep(g.data, h);
    RingUpdate(g.data, h, 0, Some(v));
    var d := g.data[h := Some(v)];
    assert Phys(|d|, h, 0) == h;
    Represents(d, h, [v] + e);
    r := CirList(d, h, g.count + 1);
  }

  /** `add(v)`: v is written in the slot just past the last element. */
  method PushBack<T>(l: CirList<T>, v: T) returns (r: CirList<T>)
    requires Valid(l)
    ensures Valid(r)
    ensures Elems(r) == Elems(l) + [v]
  {
    var g := EnsureRoom(l);
    ghost var e := Elems(g);
    RingOfValid(g);
    RingUpdate(g.data, g.head, g.count, Some(v));
    var d := g.data[Slot(g, g.count) := Some(v)];
    Represents(d, g.head, e + [v]);
    r := CirList(d, g.head, g.count + 1);
  }

  /** Ring positions [lo, hi) of d, read from head h, each take the value
      of the position after them; everything else is kept. */
  method MoveLeft<T>(d: seq<Option<T>>, h: nat, lo: nat, hi: nat) returns (d': seq<Option<T>>)
    requires h < |d| && lo <= hi < |d|
    ensures |d'| == |d|
    ensures forall j :: lo <= j < hi ==> Ring(d', h)[j] == Ring(d, h)[j + 1]
    ensures forall j :: 0 <= j < lo || hi <= j < |d| ==> Ring(d', h)[j] == Ring(d, h)[j]
  {
    ghost var v0 := Ring(d, h);
    d' := d;
    var k := lo;
    while k < hi
      invariant lo <= k <= hi
      invariant |d'| == |d|
      invariant forall j :: lo <= j < k ==> Ring(d', h)[j] == v0[j + 1]
      invariant forall j :: 0 <= j < lo || k <= j < |d| ==> Ring(d', h)[j] == v0[j]
    {
      ghost var view := Ring(d', h);
      RingAt(d', h, k + 1);
      RingUpdate(d', h, k, view[k + 1]);
      d' := d'[Phys(|d|, h, k) := d'[Phys(|d|, h, k + 1)]];
      assert Ring(d', h) == view[k := view[k + 1]];
      k := k + 1;
    }
  }

  /** Ring positions (lo, hi] of d, read from head h, each take the value
      of the position before them; everything else is kept. */
  method MoveRight<T>(d: seq<Option<T>>, h: nat, lo: nat, hi: nat) returns (d': seq<Option<T>>)
    requires h < |d| && lo <= hi < |d|
    ensures |d'| == |d|
    ensures forall j :: lo < j <= hi ==> Ring(d', h)[j] == Ring(d, h)[j - 1]
    ensures forall j :: 0 <= j <= lo || hi < j < |d| ==> Ring(d', h)[j] == Ring(d, h)[j]
  {
    ghost var v0 := Ring(d, h);
    d' := d;
    var k := hi;
    while k > lo
      invariant lo <= k <= hi
      invariant |d'| == |d|
      invariant forall j :: k < j <= hi ==> Ring(d', h)[j] == v0[j - 1]
      invariant forall j :: 0 <= j <= k || hi < j < |d| ==> Ring(d', h)[j] == v0[j]
    {
      ghost var view := Ring(d', h);
      RingAt(d', h, k - 1);
      RingUpdate(d', h, k, view[k - 1]);
      d' := d'[Phys(|d|, h, k) := d'[Phys(|d|, h, k - 1)]];
      assert Ring(d', h) == view[k := view[k - 1]];
      k := k - 1;
    }
  }

  /** Insertion on the front side: head steps back one slot, the prefix
      [0, i) moves one slot toward the front, and v fills position i. */
  method ShiftFrontInsert<T>(g: CirList<T>, i: nat, v: T) returns (r: CirList<T>)
    requires Valid(g)
    requires g.count < |g.data|
    requires i <= g.count
    ensures Valid(r)
    ensures Elems(r) == ListSpec.Insert(Elems(g), i, v)
  {
    var cap := |g.data|;
    var h := PrevHead(cap, g.head);
    ghost var e := Elems(g);
    RingOfValid(g);
    RingStep(g.data, h);
    var d := MoveLeft(g.data, h, 0, i);
    RingUpdate(d, h, i, Some(v));
    d := d[Phys(cap, h, i) := Some(v)];
    Represents(d, h, ListSpec.Insert(e, i, v));
    r := CirList(d, h, g.count + 1);
  }

  /** Insertion on the back side: the suffix [i, count) moves one slot
      toward the back, and v fills position i. */
  method ShiftBackInsert<T>(g: CirList<T>, i: nat, v: T) returns (r: CirList<T>)
    requires Valid(g)
    requires g.count < |g.data|
    requires i <= g.count
    ensures Valid(r)
    ensures Elems(r) == ListSpec.Insert(Elems(g), i, v)
  {
    var cap := |g.data|;
    var h := g.head;
    ghost var e := Elems(g);
    RingOfValid(g);
    var d := MoveRight(g.data, h, i, g.count);
    RingUpdate(d, h, i, Some(v));
    d := d[Phys(cap, h, i) := Some(v)];
    Represents(d, h, ListSpec.Insert(e, i, v));
    r := CirList(d, h, g.count + 1);
  }

  /** `add(i, v)`: fails on an index outside [0, size]; prepends and appends
      directly; otherwise shifts whichever side of i is shorter. */
  method Insert<T>(l: CirList<T>, i: int, v: T) returns (r: Result<CirList<T>>)
    requires Valid(l)
    ensures r.Success? <==> 0 <= i <= |Elems(l)|
    ensures r.Failure? ==> r.error == IndexOutOfBounds
    ensures r.Success? ==> Valid(r.value) && Elems(r.value) == ListSpec.Insert(Elems(l), i, v)
  {
    if i < 0 || i > l.count {
      return Failure(IndexOutOfBounds);
    }
    var n: CirList<T>;
    if i == 0 {
      n := PushFront(l, v);
    } else if i == l.count {
      n := PushBack(l, v);
    } else {
      var g := EnsureRoom(l);
      if i <= g.count / 2 {
        n := ShiftFrontInsert(g, i, v);
      } else {
        n := ShiftBackInsert(g, i, v);
      }
    }
    return Success(n);
  }

  /** `get(i)`. */
  function Get<T>(l: CirList<T>, i: int): (r: Result<T>)
    requires Valid(l)
    ensures r.Success? <==> 0 <= i < |Elems(l)|
    ensures r.Failure? ==> r.error == IndexOutOfBounds
    ensures r.Success? ==> r.value == Elems(l)[i]
  {
    if 0 <= i < l.count then Success(l.data[Slot(l, i)].value) else Failure(IndexOutOfBounds)
  }

  /** `set(i, v)`: overwrites the slot of position i and returns the
      element it held. */
  function Set<T>(l: CirList<T>, i: int, v: T): (r: Result<(CirList<T>, T)>)
    requires Valid(l)
    ensures r.Success? <==> 0 <= i < |Elems(l)|
    ensures r.Failure? ==> r.error == IndexOutOfBounds
    ensures r.Success? ==> Valid(r.value.0)
    ensures r.Success? ==> Elems(r.value.0) == Elems(l)[i := v] && r.value.1 == Elems(l)[i]
  {
    if 0 <= i < l.count then
      var n := CirList(l.data[Slot(l, i) := Some(v)], l.head, l.count);
      RingOfValid(l);
      RingUpdate(l.data, l.head, i, Some(v));
      Represents(n.data, n.head, Elems(l)[i := v]);
      Success((n, l.data[Slot(l, i)].value))
    else
      Failure(IndexOutOfBounds)
  }

  /** Removal on the front side: the prefix [0, i) moves one slot toward
      the back over the removed element, and head steps forward. */
  method ShiftFrontRemove<T>(l: CirList<T>, i: nat) returns (r: CirList<T>)
    requires Valid(l)
    requires i < l.count
    ensures Valid(r)
    ensures Elems(r) == ListSpec.RemoveAt(Elems(l), i)
  {
    var cap := |l.data|;
    var h := l.head;
    ghost var e := Elems(l);
    RingOfValid(l);
    var d := MoveRight(l.data, h, 0, i);
    var h2 := Phys(cap, h, 1);
    RingStep(d, h);
    Represents(d, h2, ListSpec.RemoveAt(e, i));
    r := CirList(d, h2, l.count - 1);
  }

  /** Removal on the back side: the suffix (i, count) moves one slot toward
      the front over the removed element. */
  method ShiftBackRemove<T>(l: CirList<T>, i: nat) returns (r: CirList<T>)
    requires Valid(l)
    requires i < l.count
    ensures Valid(r)
    ensures Elems(r) == ListSpec.RemoveAt(Elems(l), i)
  {
    var cap := |l.data|;
    var h := l.head;
    ghost var e := Elems(l);
    RingOfValid(l);
    var d := MoveLeft(l.data, h, i, l.count - 1);
    Represents(d, h, ListSpec.RemoveAt(e, i));
    r := CirList(d, h, l.count - 1);
  }

  /** `remove(i)`: fails on an index outside [0, size); otherwise returns
      the element at i and closes the gap from whichever side is shorter. */
  method RemoveAt<T>(l: CirList<T>, i: int) returns (r: Result<(CirList<T>, T)>)
    requires Valid(l)
    ensures r.Success? <==> 0 <= i < |Elems(l)|
    ensures r.Failure? ==> r.error == IndexOutOfBounds
    ensures r.Success? ==> Valid(r.value.0)
    ensures r.Success? ==>
      r.value.1 == Elems(l)[i] && Elems(r.value.0) == ListSpec.RemoveAt(Elems(l), i)
  {
    if i < 0 || i >= l.count {
      return Failure(IndexOutOfBounds);
    }
    var removed := l.data[Slot(l, i)].value;
    var n: CirList<T>;
    if i < l.count / 2 {
      n := ShiftFrontRemove(l, i);
    } else {
      n := ShiftBackRemove(l, i);
    }
    return Success((n, removed));
  }

  /** `contains(v)`: a front-to-back scan of the logical positions. */
  method Contains<T(==)>(l: CirList<T>, v: T) returns (b: bool)
    requires Valid(l)
    ensures b <==> v in Elems(l)
  {
    var k := 0;
    while k < l.count
      invariant k <= l.count
      invariant forall j :: 0 <= j < k ==> Elems(l)[j] != v
    {
      if l.data[Slot(l, k)] == Some(v) {
        return true;
      }
      k := k + 1;
    }
    return false;
  }

  /** `containsAll(c)`: each element of c is looked up with `contains`. */
  method ContainsAll<T(==)>(l: CirList<T>, c: seq<T>) returns (b: bool)
    requires Valid(l)
    ensures b <==> ListSpec.ContainsAll(Elems(l), c)
  {
    var k := 0;
    while k < |c|
      invariant k <= |c|
      invariant forall j :: 0 <= j < k ==> c[j] in Elems(l)
    {
      var found := Contains(l, c[k]);
      if !found {
        return false;
      }
      k := k + 1;
    }
    return true;
  }

  /** The in-place pass behind `RemoveIf`: ring positions [0, n) of d,
      read from head h, are scanned once; each element p rejects is written
      to the next free position from the front. */
  method Compact<T>(d: seq<Option<T>>, h: nat, n: nat, p: T -> bool, ghost e: seq<T>)
    returns (d': seq<Option<T>>, w: nat)
    requires n == |e|
    requires h < |d| && n <= |d|
    requires forall j :: 0 <= j < n ==> Ring(d, h)[j] == Some(e[j])
    ensures |d'| == |d|
    ensures w == |ListSpec.Reject(e, p)|
    ensures forall j :: 0 <= j < w ==> Ring(d', h)[j] == Some(ListSpec.Reject(e, p)[j])
  {
    d' := d;
    var k := 0;
    w := 0;
    while k < n
      invariant w <= k <= n
      invariant |d'| == |d|
      invariant |ListSpec.Reject(e[..k], p)| == w
      invariant forall j :: 0 <= j < w ==> Ring(d', h)[j] == Some(ListSpec.Reject(e[..k], p)[j])
      invariant forall j :: k <= j < n ==> Ring(d', h)[j] == Some(e[j])
    {
      ghost var before := ListSpec.Reject(e[..k], p);
      RingAt(d', h, k);
      var x := d'[Phys(|d|, h, k)].value;
      assert e[..k + 1] == e[..k] + [x];
      ListSpec.RejectAppend(e[..k], [x], p);
      assert ListSpec.Reject([x], p) == if p(x) then [] else [x];
      if !p(x) {
        assert ListSpec.Reject(e[..k + 1], p) == before + [x];
        RingUpdate(d', h, w, Some(x));
        d' := d'[Phys(|d|, h, w) := Some(x)];
        w := w + 1;
      } else {
        assert ListSpec.Reject(e[..k + 1], p) == before;
      }
      k := k + 1;
    }
    assert e[..n] == e;
  }

  /** `removeIf(p)`: the elements p rejects are compacted toward the front
      in their order; reports whether anything was removed. */
  method RemoveIf<T>(l: CirList<T>, p: T -> bool) returns (r: CirList<T>, removed: bool)
    requires Valid(l)
    ensures Valid(r)
    ensures Elems(r) == ListSpec.Reject(Elems(l), p)
    ensures removed <==> exists j :: 0 <= j < |Elems(l)| && p(Elems(l)[j])
  {
    ghost var e := Elems(l);
    RingOfValid(l);
    var d, w := Compact(l.data, l.head, l.count, p, e);
    Represents(d, l.head, ListSpec.Reject(e, p));
    r := CirList(d, l.head, w);
    removed := w < l.count;
    ListSpec.RejectKeepsAll(e, p);
  }

  /** The in-place move behind `CloseGap`: ring positions [to, n) of d,
      read from head h, are copied down by to - from positions. */
  method MoveDown<T>(d: seq<Option<T>>, h: nat, n: nat, from: nat, to: nat, ghost e: seq<T>)
    returns (d': seq<Option<T>>)
    requires n == |e|
    requires h < |d| && from <= to <= n <= |d|
    requires forall j :: 0 <= j < n ==> Ring(d, h)[j] == Some(e[j])
    ensures |d'| == |d|
    ensures forall j :: 0 <= j < n - (to - from) ==> Ring(d', h)[j] == Some(ListSpec.ClearRange(e, from, to)[j])
  {
    var gap := to - from;
    ghost var c := ListSpec.ClearRange(e, from, to);
    d' := d;
    var k := to;
    while k < n
      invariant to <= k <= n
      invariant |d'| == |d|
      invariant forall j :: 0 <= j < k - gap ==> Ring(d', h)[j] == Some(c[j])
      invariant forall j :: k <= j < n ==> Ring(d', h)[j] == Some(e[j])
    {
      ghost var view := Ring(d', h);
      RingAt(d', h, k);
      assert view[k] == Some(c[k - gap]);
      RingUpdate(d', h, k - gap, view[k]);
      d' := d'[Phys(|d|, h, k - gap) := d'[Phys(|d|, h, k)]];
      assert Ring(d', h) == view[k - gap := view[k]];
      k := k + 1;
    }
  }

  /** The suffix [to, count) moves down over the window [from, to). */
  method CloseGap<T>(l: CirList<T>, from: nat, to: nat) returns (r: CirList<T>)
    requires Valid(l)
    requires from <= to <= l.count
    ensures Valid(r)
    ensures Elems(r) == ListSpec.ClearRange(Elems(l), from, to)
  {
    ghost var e := Elems(l);
    RingOfValid(l);
    var d := MoveDown(l.data, l.head, l.count, from, to, e);
    Represents(d, l.head, ListSpec.ClearRange(e, from, to));
    r := CirList(d, l.head, l.count - (to - from));
  }

  /** `subList(from, to).clear()`: the range check of `subList`, then the
      window is closed. */
  method ClearRange<T>(l: CirList<T>, from: int, to: int) returns (r: Result<CirList<T>>)
    requires Valid(l)
    ensures r.Success? <==> 0 <= from <= to <= |Elems(l)|
    ensures r.Failure? && (from < 0 || to > |Elems(l)|) ==> r.error == IndexOutOfBounds
    ensures r.Failure? && 0 <= from && to <= |Elems(l)| ==> r.error == IllegalArgument
    ensures r.Success? ==> Valid(r.value) && Elems(r.value) == ListSpec.ClearRange(Elems(l), from, to)
  {
    if from < 0 || to > l.count {
      return Failure(IndexOutOfBounds);
    }
    if from > to {
      return Failure(IllegalArgument);
    }
    var n := CloseGap(l, from, to);
    return Success(n);
  }
}
