/** Ring iterators over one allocation, and the element loops that run along them.

    Seen from a base slot, the ring is a sequence: its view.  A loop that runs past the end of the
    allocation and on from its start is a loop along the view. */
module Rings {
  import opened Sequences
  import opened Slots

  // Iterators.

  function Wrap(i: nat, cap: nat): nat {
    if i < cap then i else i - cap
  }

  /** operator++ */
  function Inc(cur: nat, cap: nat): (r: nat)
    requires cur < cap
    ensures r < cap
  {
    if cur + 1 == cap then 0 else cur + 1
  }

  /** operator-- */
  function Dec(cur: nat, cap: nat): (r: nat)
    requires cur < cap
    ensures r < cap
  {
    if cur == 0 then cap - 1 else cur - 1
  }

  /** operator+=: an iterator never stands at the end of the allocation; without one it stays null. */
  function Plus(cur: nat, n: int, cap: nat): (r: nat)
    requires -(cap as int) <= n <= cap && (cur < cap || cur == cap == 0)
    ensures r < cap || r == cap == 0
  {
    var c := cur + n;
    if c >= cap then c - cap else if c < 0 then c + cap else c
  }

  /** operator-, which tells by begin whether the iterators have wrapped. */
  function Minus(lhs: nat, rhs: nat, begin: nat, cap: nat): int {
    if lhs >= begin then
      if rhs >= begin then lhs - rhs else lhs - rhs - cap
    else if rhs >= begin then lhs - rhs + cap
    else lhs - rhs
  }

  /** The slot at offset k from begin. */
  function Place(begin: nat, k: nat, cap: nat): nat {
    if cap == 0 then 0 else Wrap(begin + k, cap)
  }

  /** Subtraction gives the difference of the offsets, wherever the ring wraps. */
  lemma MinusIsDifference(begin: nat, i: nat, j: nat, cap: nat)
    requires begin < cap && i < cap && j < cap
    ensures Minus(Place(begin, i, cap), Place(begin, j, cap), begin, cap) == i - j
  {
  }

  /** Adding moves the offset by n and wraps at the capacity. */
  lemma PlusMovesOffset(begin: nat, i: nat, n: int, cap: nat)
    requires begin < cap && i < cap && -(cap as int) <= n <= cap
    ensures Plus(Place(begin, i, cap), n, cap)
         == Place(begin, if i + n < 0 then i + n + cap else if i + n >= cap then i + n - cap else i + n, cap)
    ensures 0 <= i + n < cap ==> Plus(Place(begin, i, cap), n, cap) == Place(begin, i + n, cap)
  {
  }

  /** Different offsets are different slots. */
  lemma PlaceInjective(begin: nat, i: nat, j: nat, cap: nat)
    requires begin < cap && i < cap && j < cap
    ensures Place(begin, i, cap) == Place(begin, j, cap) <==> i == j
    ensures Place(begin, i, cap) < cap
    ensures Inc(Place(begin, i, cap), cap) == if i + 1 < cap then Place(begin, i + 1, cap) else begin
    ensures Dec(Place(begin, i, cap), cap) == if i > 0 then Place(begin, i - 1, cap) else Place(begin, cap - 1, cap)
  {
  }

  // Views.

  ghost function View<X>(s: seq<X>, base: nat): (v: seq<X>)
    requires base <= |s|
    ensures |v| == |s|
  {
    s[base..] + s[..base]
  }

  /** An update of a slot is an update of the view. */
  lemma ViewUpdate<X>(s: seq<X>, base: nat, k: nat, x: X)
    requires base < |s| && k < |s|
    ensures var i := Place(base, k, |s|);
      i < |s| && s[i] == View(s, base)[k] && View(s[i := x], base) == View(s, base)[k := x]
  {
  }

  /** The view from another base. */
  lemma Rebase<X>(s: seq<X>, base: nat, d: nat)
    requires base < |s| && d < |s|
    ensures View(s, Place(base, d, |s|)) == View(s, base)[d..] + View(s, base)[..d]
  {
  }

  /** v with m in the place that starts at lo. */
  ghost function Patched<X>(v: seq<X>, lo: nat, m: seq<X>): (r: seq<X>)
    requires lo + |m| <= |v|
    ensures |r| == |v|
  {
    v[..lo] + m + v[lo + |m|..]
  }

  lemma PatchNothing<X>(v: seq<X>, lo: nat)
    requires lo <= |v|
    ensures Patched(v, lo, []) == v
  {
  }

  lemma PatchMore<X>(v: seq<X>, lo: nat, m: seq<X>, x: X)
    requires lo + |m| < |v|
    ensures Patched(v, lo, m)[lo + |m|] == v[lo + |m|]
    ensures Patched(v, lo, m)[lo + |m| := x] == Patched(v, lo, m + [x])
  {
  }

  lemma PatchBefore<X>(v: seq<X>, lo: nat, m: seq<X>, x: X)
    requires 0 < lo && lo + |m| <= |v|
    ensures Patched(v, lo, m)[lo - 1] == v[lo - 1]
    ensures Patched(v, lo, m)[lo - 1 := x] == Patched(v, lo - 1, [x] + m)
  {
  }

  lemma PatchElsewhere<X>(v: seq<X>, lo: nat, m: seq<X>, k: nat, x: X)
    requires lo + |m| <= |v| && k < |v| && !(lo <= k < lo + |m|)
    ensures Patched(v, lo, m)[k] == v[k]
    ensures Patched(v, lo, m)[k := x] == Patched(v[k := x], lo, m)
  {
  }

  ghost function Raws<T>(n: nat): seq<Slot<T>> {
    seq(n, _ => Raw)
  }

  ghost function Moveds<T>(n: nat): seq<Slot<T>> {
    seq(n, _ => Moved)
  }

  // One slot of the ring, at offset k from the base.

  method ConstructAt<T>(a: array<Slot<T>>, i: nat, v: T, ghost base: nat, ghost k: nat)
    requires base < a.Length && k < a.Length && i == Place(base, k, a.Length) && View(a[..], base)[k].Raw?
    modifies a
    ensures View(a[..], base) == old(View(a[..], base))[k := Live(v)]
  {
    ViewUpdate(a[..], base, k, Live(v));
    Construct(a, i, v);
    assert a[..] == old(a[..])[i := Live(v)];
  }

  method AssignAt<T>(a: array<Slot<T>>, i: nat, v: T, ghost base: nat, ghost k: nat)
    requires base < a.Length && k < a.Length && i == Place(base, k, a.Length) && !View(a[..], base)[k].Raw?
    modifies a
    ensures View(a[..], base) == old(View(a[..], base))[k := Live(v)]
  {
    ViewUpdate(a[..], base, k, Live(v));
    Assign(a, i, v);
    assert a[..] == old(a[..])[i := Live(v)];
  }

  method DestroyAt<T>(a: array<Slot<T>>, i: nat, ghost base: nat, ghost k: nat)
    requires base < a.Length && k < a.Length && i == Place(base, k, a.Length) && !View(a[..], base)[k].Raw?
    modifies a
    ensures View(a[..], base) == old(View(a[..], base))[k := Raw]
  {
    ViewUpdate(a[..], base, k, Slot<T>.Raw);
    Destroy(a, i);
    assert a[..] == old(a[..])[i := Raw];
  }

  /** Construct b[j] by moving the value at offset k of the ring a. */
  method MoveOutAt<T>(b: array<Slot<T>>, j: nat, a: array<Slot<T>>, i: nat, ghost base: nat, ghost k: nat)
    requires a != b && base < a.Length && k < a.Length && i == Place(base, k, a.Length) && View(a[..], base)[k].Live?
    requires j < b.Length && b[j].Raw?
    modifies a, b
    ensures View(a[..], base) == old(View(a[..], base))[k := Moved]
    ensures b[..] == old(b[..])[j := old(View(a[..], base)[k])]
  {
    ViewUpdate(a[..], base, k, Slot<T>.Moved);
    MoveConstruct(b, j, a, i);
    assert a[..] == old(a[..])[i := Moved];
    assert b[..] == old(b[..])[j := old(a[i])];
  }

  /** Assign the object at offset d by moving the value at offset k. */
  method MoveAssignAt<T>(a: array<Slot<T>>, j: nat, i: nat, ghost base: nat, ghost d: nat, ghost k: nat)
    requires base < a.Length && k < a.Length && d < a.Length && d != k
    requires i == Place(base, k, a.Length) && j == Place(base, d, a.Length)
    requires View(a[..], base)[k].Live? && !View(a[..], base)[d].Raw?
    modifies a
    ensures View(a[..], base) == old(View(a[..], base))[k := Moved][d := old(View(a[..], base)[k])]
  {
    ghost var x := View(a[..], base)[k];
    PlaceInjective(base, k, d, a.Length);
    ViewUpdate(a[..], base, k, Slot<T>.Moved);
    ViewUpdate(a[..], base, d, x);
    ViewUpdate(a[..][i := Moved], base, d, x);
    MoveAssign(a, j, i);
    assert a[..] == old(a[..])[i := Moved][j := x];
  }

  method SwapAt<T>(a: array<Slot<T>>, i: nat, j: nat, ghost base: nat, ghost k: nat, ghost d: nat)
    requires base < a.Length && k < a.Length && d < a.Length
    requires i == Place(base, k, a.Length) && j == Place(base, d, a.Length)
    requires View(a[..], base)[k].Live? && View(a[..], base)[d].Live?
    modifies a
    ensures var v := old(View(a[..], base)); View(a[..], base) == v[k := v[d]][d := v[k]]
  {
    ghost var v := View(a[..], base);
    ViewUpdate(a[..], base, k, v[d]);
    ViewUpdate(a[..], base, d, v[k]);
    ViewUpdate(a[..][i := v[d]], base, d, v[k]);
    SwapSlots(a, i, j);
  }

  // Loops along the ring.  Every iterator is given with its offset from the base.

  ghost predicate AtOffset(i: nat, base: nat, k: nat, cap: nat) {
    base < cap && k <= cap && i == Place(base, if k < cap then k else 0, cap)
  }

  lemma NextOffset(i: nat, base: nat, k: nat, cap: nat)
    requires AtOffset(i, base, k, cap)
    ensures k < cap ==> i == Place(base, k, cap) && i < cap && AtOffset(Inc(i, cap), base, k + 1, cap)
    ensures k > 0 ==> i < cap && AtOffset(Dec(i, cap), base, k - 1, cap) && Dec(i, cap) == Place(base, k - 1, cap)
  {
  }

  /** Iterators less than a whole ring apart are equal only at the same offset. */
  lemma SameOffset(i: nat, j: nat, base: nat, k: nat, d: nat, cap: nat)
    requires AtOffset(i, base, k, cap) && AtOffset(j, base, d, cap) && d <= k && k - d < cap
    ensures i == j <==> k == d
  {
  }

  /** alloc_range_destroy: from last back to first. */
  method DestroyRing<T>(a: array<Slot<T>>, first: nat, last: nat, ghost base: nat, ghost lo: nat, ghost hi: nat)
    returns (it: nat)
    requires base < a.Length && lo <= hi <= a.Length && hi - lo < a.Length
    requires AtOffset(first, base, lo, a.Length) && AtOffset(last, base, hi, a.Length)
    requires forall k :: lo <= k < hi ==> !View(a[..], base)[k].Raw?
    modifies a
    ensures View(a[..], base) == Patched(old(View(a[..], base)), lo, Raws(hi - lo)) && it == first
  {
    hide View, Patched, Place, AtOffset, Dec;
    ghost var v := View(a[..], base);
    ghost var k := hi;
    it := last;
    PatchNothing(v, hi);
    assert Raws<T>(0) == [];
    SameOffset(last, first, base, hi, lo, a.Length);
    NextOffset(last, base, hi, a.Length);
    while it != first
      invariant lo <= k <= hi && AtOffset(it, base, k, a.Length) && (it == first <==> k == lo)
      invariant View(a[..], base) == Patched(v, k, Raws(hi - k))
      decreases k
    {
      NextOffset(it, base, k, a.Length);
      it := Dec(it, a.Length);
      PatchBefore(v, k, Raws(hi - k), Slot<T>.Raw);
      k := k - 1;
      DestroyAt(a, it, base, k);
      assert [Slot<T>.Raw] + Raws(hi - k - 1) == Raws(hi - k);
      SameOffset(it, first, base, k, lo, a.Length);
    }
  }

  /** alloc_range_construct */
  method ConstructRing<T>(a: array<Slot<T>>, first: nat, vs: seq<T>, ghost base: nat, ghost lo: nat) returns (it: nat)
    requires base < a.Length && lo + |vs| <= a.Length && AtOffset(first, base, lo, a.Length)
    requires forall k :: lo <= k < lo + |vs| ==> View(a[..], base)[k].Raw?
    modifies a
    ensures View(a[..], base) == Patched(old(View(a[..], base)), lo, Holding(vs))
    ensures AtOffset(it, base, lo + |vs|, a.Length)
  {
    hide View, Patched, Place, AtOffset, Inc;
    ghost var v := View(a[..], base);
    it := first;
    var i := 0;
    PatchNothing(v, lo);
    assert Holding<T>([]) == [] && vs[..0] == [];
    while i != |vs|
      invariant i <= |vs| && AtOffset(it, base, lo + i, a.Length)
      invariant View(a[..], base) == Patched(v, lo, Holding(vs[..i]))
    {
      NextOffset(it, base, lo + i, a.Length);
      PatchMore(v, lo, Holding(vs[..i]), Live(vs[i]));
      ConstructAt(a, it, vs[i], base, lo + i);
      assert Holding(vs[..i]) + [Live(vs[i])] == Holding(vs[..i + 1]);
      it := Inc(it, a.Length);
      i := i + 1;
    }
    assert vs[..i] == vs;
  }

  /** range_assign */
  method AssignRing<T>(a: array<Slot<T>>, first: nat, vs: seq<T>, ghost base: nat, ghost lo: nat) returns (it: nat)
    requires base < a.Length && lo + |vs| <= a.Length && AtOffset(first, base, lo, a.Length)
    requires forall k :: lo <= k < lo + |vs| ==> !View(a[..], base)[k].Raw?
    modifies a
    ensures View(a[..], base) == Patched(old(View(a[..], base)), lo, Holding(vs))
    ensures AtOffset(it, base, lo + |vs|, a.Length)
  {
    hide View, Patched, Place, AtOffset, Inc;
    ghost var v := View(a[..], base);
    it := first;
    var i := 0;
    PatchNothing(v, lo);
    assert Holding<T>([]) == [] && vs[..0] == [];
    while i != |vs|
      invariant i <= |vs| && AtOffset(it, base, lo + i, a.Length)
      invariant View(a[..], base) == Patched(v, lo, Holding(vs[..i]))
    {
      NextOffset(it, base, lo + i, a.Length);
      PatchMore(v, lo, Holding(vs[..i]), Live(vs[i]));
      AssignAt(a, it, vs[i], base, lo + i);
      assert Holding(vs[..i]) + [Live(vs[i])] == Holding(vs[..i + 1]);
      it := Inc(it, a.Length);
      i := i + 1;
    }
    assert vs[..i] == vs;
  }

  /** alloc_range_move: the values from first up to last go to the slots of b from begin on. */
  method MoveRingTo<T>(b: array<Slot<T>>, begin: nat, a: array<Slot<T>>, first: nat, last: nat,
                       ghost base: nat, ghost lo: nat, ghost hi: nat)
    requires a != b && base < a.Length && lo <= hi <= a.Length && hi - lo < a.Length && begin + (hi - lo) <= b.Length
    requires AtOffset(first, base, lo, a.Length) && AtOffset(last, base, hi, a.Length)
    requires forall k :: lo <= k < hi ==> View(a[..], base)[k].Live?
    requires forall k :: begin <= k < begin + (hi - lo) ==> b[k].Raw?
    modifies a, b
    ensures View(a[..], base) == Patched(old(View(a[..], base)), lo, Moveds(hi - lo))
    ensures b[..] == Patched(old(b[..]), begin, old(View(a[..], base))[lo..hi])
  {
    hide View, Patched, Place, AtOffset, Inc;
    ghost var v, w := View(a[..], base), b[..];
    var it, i := first, 0;
    PatchNothing(v, lo);
    PatchNothing(w, begin);
    assert Moveds<T>(0) == [] && v[lo..lo + i] == [];
    SameOffset(last, first, base, hi, lo, a.Length);
    while it != last
      invariant lo + i <= hi && AtOffset(it, base, lo + i, a.Length) && (it == last <==> lo + i == hi)
      invariant View(a[..], base) == Patched(v, lo, Moveds(i)) && b[..] == Patched(w, begin, v[lo..lo + i])
      decreases hi - i
    {
      NextOffset(it, base, lo + i, a.Length);
      PatchMore(v, lo, Moveds(i), Slot<T>.Moved);
      PatchMore(w, begin, v[lo..lo + i], v[lo + i]);
      assert b[begin + i] == b[..][begin + i] == w[begin + i];
      MoveOutAt(b, begin + i, a, it, base, lo + i);
      assert Moveds(i) + [Slot<T>.Moved] == Moveds(i + 1) && v[lo..lo + i] + [v[lo + i]] == v[lo..lo + i + 1];
      it := Inc(it, a.Length);
      i := i + 1;
      SameOffset(last, it, base, hi, lo + i, a.Length);
    }
  }

  /** The view after the first i values from lo on have moved to the slots from d on. */
  ghost function MovedDown<T>(v: seq<Slot<T>>, lo: nat, d: nat, i: nat): (r: seq<Slot<T>>)
    requires d < lo && lo + i <= |v|
    ensures |r| == |v|
  {
    Patched(Patched(v, lo, Moveds(i)), d, v[lo..lo + i])
  }

  lemma MovedDownStep<T>(v: seq<Slot<T>>, lo: nat, d: nat, i: nat)
    requires d < lo && lo + i < |v|
    ensures MovedDown(v, lo, d, i)[lo + i] == v[lo + i]
    ensures d + i < lo ==> MovedDown(v, lo, d, i)[d + i] == v[d + i]
    ensures lo <= d + i ==> MovedDown(v, lo, d, i)[d + i] == Moved
    ensures MovedDown(v, lo, d, i)[lo + i := Moved][d + i := v[lo + i]] == MovedDown(v, lo, d, i + 1)
  {
    var u := Patched(v, lo, Moveds(i));
    PatchElsewhere(u, d, v[lo..lo + i], lo + i, Slot<T>.Moved);
    PatchMore(v, lo, Moveds(i), Slot<T>.Moved);
    assert Moveds<T>(i) + [Slot<T>.Moved] == Moveds(i + 1);
    assert v[lo..lo + i] + [v[lo + i]] == v[lo..lo + i + 1];
    PatchMore(Patched(v, lo, Moveds(i + 1)), d, v[lo..lo + i], v[lo + i]);
  }

  lemma MovedDownStart<T>(v: seq<Slot<T>>, lo: nat, d: nat)
    requires d < lo <= |v|
    ensures MovedDown(v, lo, d, 0) == v
  {
    assert v[lo..lo] == [];
    PatchNothing(v, lo);
    PatchNothing(v, d);
  }

  /** move: the values from first up to last go to the objects from dFirst on. */
  method MoveForwardRing<T>(a: array<Slot<T>>, first: nat, last: nat, dFirst: nat,
                            ghost base: nat, ghost lo: nat, ghost hi: nat, ghost d: nat)
    returns (it: nat)
    requires base < a.Length && d < lo <= hi < a.Length
    requires AtOffset(first, base, lo, a.Length) && AtOffset(last, base, hi, a.Length)
    requires AtOffset(dFirst, base, d, a.Length)
    requires forall k :: d <= k < hi ==> View(a[..], base)[k].Live?
    modifies a
    ensures View(a[..], base) == MovedDown(old(View(a[..], base)), lo, d, hi - lo)
    ensures AtOffset(it, base, d + (hi - lo), a.Length)
  {
    hide View, MovedDown, Place, AtOffset, Inc;
    ghost var v := View(a[..], base);
    var src, i := first, 0;
    it := dFirst;
    MovedDownStart(v, lo, d);
    SameOffset(last, first, base, hi, lo, a.Length);
    while src != last
      invariant lo + i <= hi && AtOffset(src, base, lo + i, a.Length) && (src == last <==> lo + i == hi)
      invariant AtOffset(it, base, d + i, a.Length)
      invariant View(a[..], base) == MovedDown(v, lo, d, i)
      decreases hi - i
    {
      NextOffset(src, base, lo + i, a.Length);
      NextOffset(it, base, d + i, a.Length);
      MovedDownStep(v, lo, d, i);
      MoveAssignAt(a, it, src, base, d + i, lo + i);
      src := Inc(src, a.Length);
      it := Inc(it, a.Length);
      i := i + 1;
      SameOffset(last, src, base, hi, lo + i, a.Length);
    }
  }

  /** The view after the last i values before hi have moved to the slots before d. */
  ghost function MovedUp<T>(v: seq<Slot<T>>, hi: nat, d: nat, i: nat): (r: seq<Slot<T>>)
    requires i <= hi < d <= |v|
    ensures |r| == |v|
  {
    Patched(Patched(v, hi - i, Moveds(i)), d - i, v[hi - i..hi])
  }

  lemma MovedUpPieces<T>(v: seq<Slot<T>>, hi: nat, d: nat, i: nat)
    requires i < hi < d <= |v|
    ensures [Slot<T>.Moved] + Moveds<T>(i) == Moveds(i + 1)
    ensures [v[hi - i - 1]] + v[hi - i..hi] == v[hi - i - 1..hi]
  {
  }

  lemma PatchedAt<X>(v: seq<X>, lo: nat, m: seq<X>, k: nat)
    requires lo + |m| <= |v| && k < |v|
    ensures Patched(v, lo, m)[k] == if lo <= k < lo + |m| then m[k - lo] else v[k]
  {
  }

  lemma MovedUpAt<T>(v: seq<Slot<T>>, hi: nat, d: nat, i: nat)
    requires i < hi < d <= |v|
    ensures MovedUp(v, hi, d, i)[hi - i - 1] == v[hi - i - 1]
    ensures d - i - 1 >= hi ==> MovedUp(v, hi, d, i)[d - i - 1] == v[d - i - 1]
    ensures d - i - 1 < hi ==> MovedUp(v, hi, d, i)[d - i - 1] == Moved
  {
    hide Patched;
    var u := Patched(v, hi - i, Moveds(i));
    PatchedAt(u, d - i, v[hi - i..hi], hi - i - 1);
    PatchedAt(u, d - i, v[hi - i..hi], d - i - 1);
    PatchedAt(v, hi - i, Moveds(i), hi - i - 1);
    PatchedAt(v, hi - i, Moveds(i), d - i - 1);
  }

  lemma MovedUpStep<T>(v: seq<Slot<T>>, hi: nat, d: nat, i: nat)
    requires i < hi < d <= |v|
    ensures MovedUp(v, hi, d, i)[hi - i - 1] == v[hi - i - 1]
    ensures d - i - 1 >= hi ==> MovedUp(v, hi, d, i)[d - i - 1] == v[d - i - 1]
    ensures d - i - 1 < hi ==> MovedUp(v, hi, d, i)[d - i - 1] == Moved
    ensures MovedUp(v, hi, d, i)[hi - i - 1 := Moved][d - i - 1 := v[hi - i - 1]] == MovedUp(v, hi, d, i + 1)
  {
    hide *;
    MovedUpAt(v, hi, d, i);
    MovedUpIs(v, hi, d, i);
    MovedUpNext(v, hi, d, i);
    BothPatched(v, hi - i, Moveds(i), d - i, v[hi - i..hi], Slot<T>.Moved, v[hi - i - 1]);
  }

  lemma MovedUpNext<T>(v: seq<Slot<T>>, hi: nat, d: nat, i: nat)
    requires i < hi < d <= |v|
    ensures |Moveds<T>(i)| == i
    ensures MovedUp(v, hi, d, i + 1)
         == Patched(Patched(v, hi - i - 1, [Slot<T>.Moved] + Moveds<T>(i)), d - i - 1, [v[hi - i - 1]] + v[hi - i..hi])
  {
    MovedsLength<T>(i);
    hide Patched, Moveds;
    MovedUpPieces(v, hi, d, i);
  }

  lemma BothPatched<X>(v: seq<X>, a: nat, m: seq<X>, b: nat, w: seq<X>, x: X, y: X)
    requires 0 < a < b && a + |m| <= |v| && b + |w| <= |v|
    ensures Patched(Patched(v, a, m), b, w)[a - 1 := x][b - 1 := y]
         == Patched(Patched(v, a - 1, [x] + m), b - 1, [y] + w)
  {
    hide Patched;
    var u := Patched(v, a, m);
    PatchElsewhere(u, b, w, a - 1, x);
    PatchBefore(v, a, m, x);
    PatchBefore(u[a - 1 := x], b, w, y);
  }

  lemma MovedUpIs<T>(v: seq<Slot<T>>, hi: nat, d: nat, i: nat)
    requires i <= hi < d <= |v|
    ensures |Moveds<T>(i)| == i && MovedUp(v, hi, d, i) == Patched(Patched(v, hi - i, Moveds(i)), d - i, v[hi - i..hi])
  {
  }

  lemma MovedsLength<T>(n: nat)
    ensures |Moveds<T>(n)| == n && |Moveds<T>(n + 1)| == n + 1
  {
  }

  lemma MovedUpStart<T>(v: seq<Slot<T>>, hi: nat, d: nat)
    requires hi < d <= |v|
    ensures MovedUp(v, hi, d, 0) == v
  {
    assert v[hi..hi] == [];
    PatchNothing(v, hi);
    PatchNothing(v, d);
  }

  /** move_backward: the values from first up to last go to the objects before dLast. */
  method MoveBackwardRing<T>(a: array<Slot<T>>, first: nat, last: nat, dLast: nat,
                             ghost base: nat, ghost lo: nat, ghost hi: nat, ghost d: nat)
    returns (it: nat)
    requires base < a.Length && lo <= hi < d < a.Length
    requires AtOffset(first, base, lo, a.Length) && AtOffset(last, base, hi, a.Length)
    requires AtOffset(dLast, base, d, a.Length)
    requires forall k :: lo <= k < d ==> View(a[..], base)[k].Live?
    modifies a
    ensures View(a[..], base) == MovedUp(old(View(a[..], base)), hi, d, hi - lo)
    ensures AtOffset(it, base, d - (hi - lo), a.Length)
  {
    hide View, MovedUp, Place, AtOffset, Dec;
    ghost var v := View(a[..], base);
    var src := last;
    ghost var i := 0;
    it := dLast;
    MovedUpStart(v, hi, d);
    SameOffset(src, first, base, hi, lo, a.Length);
    while src != first
      invariant lo + i <= hi && AtOffset(src, base, hi - i, a.Length) && (src == first <==> lo + i == hi)
      invariant AtOffset(it, base, d - i, a.Length)
      invariant View(a[..], base) == MovedUp(v, hi, d, i)
      decreases hi - i
    {
      NextOffset(src, base, hi - i, a.Length);
      NextOffset(it, base, d - i, a.Length);
      MovedUpStep(v, hi, d, i);
      src := Dec(src, a.Length);
      it := Dec(it, a.Length);
      MoveAssignAt(a, it, src, base, d - i - 1, hi - i - 1);
      i := i + 1;
      SameOffset(src, first, base, hi - i, lo, a.Length);
    }
  }

  lemma RotatedTrivially<X>(v: seq<X>, lo: nat, mid: nat, hi: nat)
    requires lo <= mid <= hi <= |v|
    ensures lo == mid || mid == hi ==> Patched(v, lo, v[mid..hi] + v[lo..mid]) == v
  {
    PatchedBySame(v, lo, hi);
    hide Patched;
    if lo == mid {
      assert v[mid..hi] + v[lo..mid] == v[lo..hi];
    } else if mid == hi {
      assert v[mid..hi] + v[lo..mid] == v[lo..hi];
    }
  }

  lemma PatchedBySame<X>(v: seq<X>, lo: nat, hi: nat)
    requires lo <= hi <= |v|
    ensures Patched(v, lo, v[lo..hi]) == v
  {
  }

  /** The view u during the rotation of v. */
  ghost predicate RotatingIn<T>(u: seq<Slot<T>>, v: seq<Slot<T>>, lo: nat, w: nat, n: nat, r: nat, hi: nat, mid: nat) {
    && lo <= mid <= hi <= |v| == |u| && Rotating(u, lo, w, n, r, hi, v[lo..mid], v[mid..hi])
    && u[..lo] == v[..lo] && u[hi..] == v[hi..] && forall k :: lo <= k < hi ==> u[k].Live?
  }

  lemma RotatingInStart<T>(v: seq<Slot<T>>, lo: nat, mid: nat, hi: nat)
    requires lo <= mid <= hi <= |v| && forall k :: lo <= k < hi ==> v[k].Live?
    ensures RotatingIn(v, v, lo, lo, lo, mid, hi, mid)
  {
    RotateStart(v, lo, mid, hi);
  }

  lemma RotatingInStep<T>(u: seq<Slot<T>>, v: seq<Slot<T>>, lo: nat, w: nat, n: nat, r: nat, hi: nat, mid: nat)
    requires RotatingIn(u, v, lo, w, n, r, hi, mid) && r < hi && lo < mid && w <= r
    ensures u[w].Live? && u[r].Live?
    ensures RotatingIn(u[w := u[r]][r := u[w]], v, lo, w + 1, if w == n then r else n, r + 1, hi, mid)
    ensures w + 1 <= if w == n then r else n
  {
    RotateStep(u, lo, w, n, r, hi, v[lo..mid], v[mid..hi]);
  }

  lemma RotatingInEnd<T>(u: seq<Slot<T>>, v: seq<Slot<T>>, lo: nat, w: nat, n: nat, hi: nat, mid: nat)
    requires RotatingIn(u, v, lo, w, n, hi, hi, mid)
    ensures forall k :: w <= k < hi ==> u[k].Live?
    ensures lo <= w <= n <= hi <= |u| == |v|
    ensures Patched(u, w, u[n..hi] + u[w..n]) == Patched(v, lo, v[mid..hi] + v[lo..mid])
  {
    var r := Patched(u, w, u[n..hi] + u[w..n]);
    assert r[w..hi] == u[n..hi] + u[w..n] && r[..w] == u[..w];
    RotateEnd(u, lo, w, n, hi, v[lo..mid], v[mid..hi], r);
    assert r == r[..lo] + r[lo..hi] + r[hi..];
    assert r[..lo] == u[..lo] && r[hi..] == u[hi..];
  }

  /** rotate */
  method RotateRing<T>(a: array<Slot<T>>, first: nat, middle: nat, last: nat,
                       ghost base: nat, ghost lo: nat, ghost mid: nat, ghost hi: nat)
    requires base < a.Length && lo <= mid <= hi < a.Length
    requires AtOffset(first, base, lo, a.Length) && AtOffset(middle, base, mid, a.Length)
    requires AtOffset(last, base, hi, a.Length)
    requires forall k :: lo <= k < hi ==> View(a[..], base)[k].Live?
    modifies a
    ensures var v := old(View(a[..], base)); View(a[..], base) == Patched(v, lo, v[mid..hi] + v[lo..mid])
    decreases hi - lo
  {
    hide View, Patched, Place, AtOffset, Inc, RotatingIn;
    ghost var v := View(a[..], base);
    SameOffset(middle, first, base, mid, lo, a.Length);
    SameOffset(last, middle, base, hi, mid, a.Length);
    RotatedTrivially(v, lo, mid, hi);
    if first == middle || middle == last {
      return;
    }
    var write, nextRead, read := first, first, middle;
    ghost var w, n, r := lo, lo, mid;
    RotatingInStart(v, lo, mid, hi);
    while read != last
      invariant lo <= w <= n <= r <= hi && mid <= r && r - w == mid - lo && (read == last <==> r == hi)
      invariant AtOffset(write, base, w, a.Length) && AtOffset(nextRead, base, n, a.Length)
      invariant AtOffset(read, base, r, a.Length)
      invariant RotatingIn(View(a[..], base), v, lo, w, n, r, hi, mid)
      decreases hi - r
    {
      SameOffset(nextRead, write, base, n, w, a.Length);
      NextOffset(read, base, r, a.Length);
      NextOffset(write, base, w, a.Length);
      RotatingInStep(View(a[..], base), v, lo, w, n, r, hi, mid);
      if write == nextRead {
        nextRead := read;
        n := r;
      }
      SwapAt(a, write, read, base, w, r);
      write := Inc(write, a.Length);
      read := Inc(read, a.Length);
      w, r := w + 1, r + 1;
      SameOffset(last, read, base, hi, r, a.Length);
    }
    RotatingInEnd(View(a[..], base), v, lo, w, n, hi, mid);
    RotateRing(a, write, nextRead, last, base, w, n, hi);
  }

  // A ring of values seen from the first of them.

  /** The values c and then raw memory. */
  ghost function Ringed<T>(c: seq<T>, cap: nat): (v: seq<Slot<T>>)
    requires |c| <= cap
    ensures |v| == cap
    ensures forall k :: 0 <= k < |c| ==> v[k] == Live(c[k])
    ensures forall k :: |c| <= k < cap ==> v[k] == Raw
  {
    Holding(c) + Raws(cap - |c|)
  }

  lemma PatchStart<X>(v: seq<X>, m: seq<X>)
    requires |m| <= |v|
    ensures Patched(v, 0, m) == m + v[|m|..]
  {
  }

  /** Moving all values out and destroying what is left makes the ring raw. */
  lemma Emptied<T>(c: seq<T>, cap: nat)
    requires |c| <= cap
    ensures Ringed(c, cap)[0..|c|] == Holding(c)
    ensures var w := Patched(Ringed(c, cap), 0, Moveds(|c|));
      && (forall k :: 0 <= k < |c| ==> w[k] == Moved) && Patched(w, 0, Raws(|c|)) == Raws(cap)
    ensures Patched(Ringed(c, cap), 0, Raws(|c|)) == Raws(cap)
  {
  }

  lemma RawRing<T>(s: seq<Slot<T>>, base: nat)
    requires base <= |s| && View(s, base) == Raws(|s|)
    ensures s == Raws(|s|)
  {
    forall k: nat | k < |s| ensures s[k] == Raw {
      assert k >= base ==> View(s, base)[k - base] == s[k];
      assert k < base ==> View(s, base)[|s| - base + k] == s[k];
    }
  }

  // What the element loops make of a ring of values.

  lemma RingedAppend<T>(c: seq<T>, vs: seq<T>, cap: nat)
    requires |c| + |vs| <= cap
    ensures Patched(Ringed(c, cap), |c|, Holding(vs)) == Ringed(c + vs, cap)
  {
  }

  lemma RingedOnly<T>(vs: seq<T>, cap: nat)
    requires |vs| <= cap
    ensures Patched(Raws(cap), 0, Holding(vs)) == Ringed(vs, cap)
  {
  }

  lemma RingedDrop<T>(c: seq<T>, n: nat, cap: nat)
    requires n <= |c| <= cap
    ensures Patched(Ringed(c, cap), n, Raws(|c| - n)) == Ringed(c[..n], cap)
  {
  }

  /** Without its first n values the ring begins n slots later. */
  lemma RingedSkip<T>(c: seq<T>, n: nat, cap: nat)
    requires n <= |c| <= cap
    ensures var v := Patched(Ringed(c, cap), 0, Raws(n)); v[n..] + v[..n] == Ringed(c[n..], cap)
  {
  }

  /** Seen from n slots earlier, new values in front. */
  lemma RingedPrepend<T>(vs: seq<T>, c: seq<T>, cap: nat)
    requires |vs| + |c| <= cap
    ensures var v := Ringed(c, cap)[cap - |vs|..] + Ringed(c, cap)[..cap - |vs|];
      (forall k :: 0 <= k < |vs| ==> v[k] == Raw) && Patched(v, 0, Holding(vs)) == Ringed(vs + c, cap)
  {
  }

  lemma RingedRotate<T>(c: seq<T>, lo: nat, mid: nat, hi: nat, cap: nat)
    requires lo <= mid <= hi <= |c| <= cap
    ensures var v := Ringed(c, cap);
      Patched(v, lo, v[mid..hi] + v[lo..mid]) == Ringed(c[..lo] + c[mid..hi] + c[lo..mid] + c[hi..], cap)
  {
  }

  lemma PatchedEnds<X>(v: seq<X>, lo: nat, m: seq<X>, k: nat)
    requires lo + |m| <= |v| && k <= |v|
    ensures k <= lo ==> Patched(v, lo, m)[..k] == v[..k]
    ensures k >= lo + |m| ==> Patched(v, lo, m)[k..] == v[k..]
    ensures Patched(v, lo, m)[lo..] == m + v[lo + |m|..]
    ensures Patched(v, lo, m)[..lo + |m|] == v[..lo] + m
  {
  }

  lemma PatchedBetween<X>(v: seq<X>, lo: nat, m: seq<X>, r: seq<X>, q: seq<X>)
    requires lo + |m| <= |v| && v[..lo] == r && v[lo + |m|..] == q
    ensures Patched(v, lo, m) == r + m + q
  {
  }

  lemma PiecesOf<X>(r: seq<X>, p: seq<X>, x: seq<X>, q: seq<X>)
    ensures var v, a, b, c := r + p + x + q, |r|, |r| + |p|, |r| + |p| + |x|;
      v[..a] == r && v[a..b] == p && v[b..c] == x && v[c..] == q
  {
  }

  /** Moving p up over x and then overwriting the slots it leaves. */
  lemma ClosedUp<T>(r: seq<Slot<T>>, p: seq<Slot<T>>, x: seq<Slot<T>>, q: seq<Slot<T>>, m: seq<Slot<T>>)
    requires |m| == |x| > 0
    ensures var v, lo, hi, d := r + p + x + q, |r|, |r| + |p|, |r| + |p| + |x|;
      Patched(MovedUp(v, hi, d, |p|), lo, m) == r + m + p + q
  {
    var v, lo, hi, d := r + p + x + q, |r|, |r| + |p|, |r| + |p| + |x|;
    hide *;
    PiecesOf(r, p, x, q);
    MovedUpIs(v, hi, d, |p|);
    var s := Patched(v, lo, Moveds(|p|));
    var u := Patched(s, d - |p|, p);
    PatchedEnds(v, lo, Moveds(|p|), lo);
    PatchedEnds(v, lo, Moveds(|p|), d);
    PatchedEnds(s, d - |p|, p, lo);
    PatchedBetween(u, lo, m, r, p + q);
    Associative(r + m, p, q);
  }

  /** Moving p down over x and then overwriting the slots behind it. */
  lemma ClosedDown<T>(r: seq<Slot<T>>, x: seq<Slot<T>>, p: seq<Slot<T>>, q: seq<Slot<T>>, m: seq<Slot<T>>)
    requires |m| == |x| > 0
    ensures var v, d, lo := r + x + p + q, |r|, |r| + |x|;
      Patched(MovedDown(v, lo, d, |p|), d + |p|, m) == r + p + m + q
  {
    var v, d, lo := r + x + p + q, |r|, |r| + |x|;
    hide *;
    PiecesOf(r, x, p, q);
    MovedDownIs(v, lo, d, |p|);
    var s := Patched(v, lo, Moveds(|p|));
    var u := Patched(s, d, p);
    PatchedEnds(v, lo, Moveds(|p|), d);
    PatchedEnds(v, lo, Moveds(|p|), lo + |p|);
    PatchedEnds(s, d, p, lo + |p|);
    PatchedBetween(u, d + |p|, m, r + p, q);
  }

  lemma MovedDownIs<T>(v: seq<Slot<T>>, lo: nat, d: nat, i: nat)
    requires d < lo && lo + i <= |v|
    ensures |Moveds<T>(i)| == i && MovedDown(v, lo, d, i) == Patched(Patched(v, lo, Moveds(i)), d, v[lo..lo + i])
  {
  }

  /** No slot that is left behind is raw. */
  lemma LeftBehind<T>(v: seq<Slot<T>>, lo: nat, hi: nat, d: nat)
    requires lo <= hi < d <= |v| && forall k :: lo <= k < d ==> v[k].Live?
    ensures var u := MovedUp(v, hi, d, hi - lo); forall k :: lo <= k < lo + (d - hi) ==> !u[k].Raw?
  {
    hide Patched;
    var i := hi - lo;
    forall k | lo <= k < lo + (d - hi)
      ensures !MovedUp(v, hi, d, i)[k].Raw?
    {
      PatchedAt(v, lo, Moveds(i), k);
      PatchedAt(Patched(v, lo, Moveds(i)), d - i, v[lo..hi], k);
    }
  }

  lemma LeftAbove<T>(v: seq<Slot<T>>, d: nat, lo: nat, hi: nat)
    requires d < lo <= hi <= |v| && forall k :: d <= k < hi ==> v[k].Live?
    ensures var u := MovedDown(v, lo, d, hi - lo); forall k :: hi - (lo - d) <= k < hi ==> !u[k].Raw?
  {
    hide Patched;
    var i := hi - lo;
    forall k | hi - (lo - d) <= k < hi
      ensures !MovedDown(v, lo, d, i)[k].Raw?
    {
      PatchedAt(v, lo, Moveds(i), k);
      PatchedAt(Patched(v, lo, Moveds(i)), d, v[lo..hi], k);
    }
  }

  lemma HoldingJoined<T>(a: seq<T>, b: seq<T>)
    ensures Holding(a + b) == Holding(a) + Holding(b) && |Holding(a)| == |a| && |Holding(b)| == |b|
  {
  }

  /** A ring of values in three pieces. */
  lemma RingedPieces<T>(a: seq<T>, x: seq<T>, b: seq<T>, cap: nat)
    requires |a + x + b| <= cap
    ensures |Holding(a)| == |a| && |Holding(x)| == |x| && |Holding(b)| == |b|
    ensures Ringed(a + x + b, cap) == [] + Holding(a) + Holding(x) + (Holding(b) + Raws(cap - |a + x + b|))
  {
    HoldingJoined(a, x);
    HoldingJoined(a + x, b);
    hide Holding, Raws;
  }

  lemma RingedTwo<T>(a: seq<T>, b: seq<T>, n: nat, cap: nat)
    requires |a| + |b| + n <= cap
    ensures Ringed(a + b, cap) == Holding(a) + Holding(b) + Raws(cap - |a| - |b| - n) + Raws(n)
  {
    HoldingJoined(a, b);
    RawsJoined<T>(cap - |a| - |b| - n, n);
    hide Holding, Raws;
  }

  lemma RawsJoined<T>(m: nat, n: nat)
    ensures Raws<T>(m) + Raws(n) == Raws(m + n) && |Raws<T>(m)| == m && |Raws<T>(n)| == n
  {
  }

  lemma RingedClosedUp<T>(a: seq<T>, x: seq<T>, b: seq<T>, cap: nat)
    requires |a| + |x| + |b| <= cap && x != []
    ensures var n := |x|; var v := Patched(MovedUp(Ringed(a + x + b, cap), |a|, |a| + n, |a|), 0, Raws(n));
      v[n..] + v[..n] == Ringed(a + b, cap)
  {
    hide *;
    var n, rest := |x|, cap - |a| - |x| - |b|;
    var p, q, m := Holding(a), Holding(b) + Raws(rest), Raws<T>(n);
    assert |a + x + b| == |a| + |x| + |b|;
    RawsJoined<T>(rest, n);
    RingedPieces(a, x, b, cap);
    RingedTwo(a, b, n, cap);
    ClosedUp([], p, Holding(x), q, m);
    FrontToBack(m, p, Holding(b), Raws(rest));
  }

  lemma FrontToBack<X>(m: seq<X>, p: seq<X>, b: seq<X>, r: seq<X>)
    ensures var v := [] + m + p + (b + r); v[|m|..] + v[..|m|] == p + b + r + m
  {
  }

  lemma RingedCloseUp<T>(c: seq<T>, i: nat, j: nat, cap: nat)
    requires i < j <= |c| <= cap
    ensures var v := Patched(MovedUp(Ringed(c, cap), i, j, i), 0, Raws(j - i));
      v[j - i..] + v[..j - i] == Ringed(c[..i] + c[j..], cap)
    ensures var u := MovedUp(Ringed(c, cap), i, j, i); forall k :: 0 <= k < j - i ==> !u[k].Raw?
  {
    hide *;
    ThreePieces(c, i, j);
    RingedClosedUp(c[..i], c[i..j], c[j..], cap);
    LeftBehind(Ringed(c, cap), 0, i, j);
  }

  lemma RingedClosedDown<T>(a: seq<T>, x: seq<T>, b: seq<T>, cap: nat)
    requires |a| + |x| + |b| <= cap && x != []
    ensures var n := |x|;
      Patched(MovedDown(Ringed(a + x + b, cap), |a| + n, |a|, |b|), |a| + |b|, Raws(n)) == Ringed(a + b, cap)
  {
    hide *;
    var n, rest := |x|, cap - |a| - |x| - |b|;
    var p, m := Holding(a), Raws<T>(n);
    assert |a + x + b| == |a| + |x| + |b|;
    RawsJoined<T>(n, rest);
    RingedPieces(a, x, b, cap);
    RingedTwo(a, b, rest, cap);
    ClosedDown(p, Holding(x), Holding(b), Raws(rest), m);
    assert [] + p + Holding(x) + (Holding(b) + Raws(rest)) == p + Holding(x) + Holding(b) + Raws(rest);
  }

  lemma RingedCloseDown<T>(c: seq<T>, i: nat, j: nat, cap: nat)
    requires i < j <= |c| <= cap
    ensures Patched(MovedDown(Ringed(c, cap), j, i, |c| - j), |c| - (j - i), Raws(j - i))
         == Ringed(c[..i] + c[j..], cap)
    ensures var u := MovedDown(Ringed(c, cap), j, i, |c| - j);
      forall k :: |c| - (j - i) <= k < |c| ==> !u[k].Raw?
  {
    hide *;
    ThreePieces(c, i, j);
    RingedClosedDown(c[..i], c[i..j], c[j..], cap);
    LeftAbove(Ringed(c, cap), i, j, |c|);
  }

  /** Values at the start of a new allocation that holds one more already, behind them or, wrapping
      around, in front of them. */
  lemma RingedGrown<T>(c: seq<T>, x: T, cap: nat)
    requires |c| + 1 < cap
    ensures Holding(c) + Raws(cap)[|c| := Live(x)][|c|..] == Ringed(c + [x], cap)
    ensures View(Holding(c) + Raws(cap)[cap - 1 := Live(x)][|c|..], cap - 1) == Ringed([x] + c, cap)
  {
  }

  /** A ring seen from its first slot is the allocation itself. */
  lemma ViewLinear<X>(s: seq<X>)
    ensures View(s, 0) == s
  {
  }

  /** Building c[..i] + vs + c[i..] in raw memory, vs first. */
  lemma BuiltAround<T>(c: seq<T>, i: nat, vs: seq<T>, cap: nat, src: nat)
    requires i <= |c| <= src && |c| + |vs| <= cap
    ensures var u, v := Patched(Raws(cap), i, Holding(vs)), Ringed(c, src);
      && (forall k :: 0 <= k < i || i + |vs| <= k < cap ==> u[k] == Raw)
      && var w := Patched(u, 0, v[0..i]);
         && (forall k :: i + |vs| <= k < cap ==> w[k] == Raw)
         && var t := Patched(v, 0, Moveds(i));
            && (forall k :: i <= k < |c| ==> t[k].Live?)
            && Patched(w, i + |vs|, t[i..|c|]) == Ringed(c[..i] + vs + c[i..], cap)
            && var z := Patched(t, i, Moveds(|c| - i));
               && (forall k :: 0 <= k < |c| ==> z[k] == Moved)
               && Patched(z, 0, Raws(|c|)) == Raws(src)
  {
    var a, b := c[..i], c[i..];
    assert a + b == c;
    hide *;
    NewSide(a, vs, b, cap);
    OldSide(a, b, src);
  }

  /** A new allocation: the new values, then those before them, then those behind them. */
  lemma NewSide<T>(a: seq<T>, vs: seq<T>, b: seq<T>, cap: nat)
    requires |a| + |vs| + |b| <= cap
    ensures var u := Patched(Raws(cap), |a|, Holding(vs));
      && (forall k :: 0 <= k < |a| || |a| + |vs| <= k < cap ==> u[k] == Raw)
      && |Holding(a)| == |a| && |Holding(b)| == |b|
      && var w := Patched(u, 0, Holding(a));
         && (forall k :: |a| + |vs| <= k < cap ==> w[k] == Raw)
         && Patched(w, |a| + |vs|, Holding(b)) == Ringed(a + vs + b, cap)
  {
    HoldingJoined(a, vs);
    HoldingJoined(a + vs, b);
    var rest := cap - |a| - |vs| - |b|;
    RawsJoined<T>(|b|, rest);
    RawsJoined<T>(|vs|, |b| + rest);
    RawsJoined<T>(|a|, |vs| + (|b| + rest));
    NewPieces(Raws(|a|), Raws(|vs|), Raws(|b|), Raws(rest), Holding(a), Holding(vs), Holding(b));
    assert Raws(cap) == Raws<T>(|a|) + (Raws(|vs|) + (Raws(|b|) + Raws(rest)));
    var u := Patched(Raws(cap), |a|, Holding(vs));
    forall k | 0 <= k < |a| || |a| + |vs| <= k < cap ensures u[k] == Raw { PatchedAt(Raws(cap), |a|, Holding(vs), k); }
    forall k | |a| + |vs| <= k < cap ensures Patched(u, 0, Holding(a))[k] == Raw { PatchedAt(u, 0, Holding(a), k); }
  }

  lemma NewPieces<X>(r: seq<X>, m: seq<X>, n: seq<X>, e: seq<X>, a: seq<X>, v: seq<X>, b: seq<X>)
    requires |r| == |a| && |m| == |v| && |n| == |b|
    ensures Patched(Patched(Patched(r + (m + (n + e)), |r|, v), 0, a), |r| + |m|, b) == a + v + b + e
  {
    var s := r + (m + (n + e));
    PatchedBetween(s, |r|, v, r, n + e);
    PatchedBetween(r + v + (n + e), 0, a, [], v + (n + e));
    assert [] + a + (v + (n + e)) == a + v + n + e;
    PatchedBetween(a + v + n + e, |r| + |m|, b, a + v, e);
  }

  /** The old ring: moved from, first up to the position and then from there on, and then raw. */
  lemma OldSide<T>(a: seq<T>, b: seq<T>, src: nat)
    requires |a| + |b| <= src
    ensures var v, i, n := Ringed(a + b, src), |a|, |a| + |b|;
      && v[0..i] == Holding(a) && |Moveds<T>(i)| == i && |Moveds<T>(|b|)| == |b|
      && var t := Patched(v, 0, Moveds(i));
         && (forall k :: i <= k < n ==> t[k].Live?) && t[i..n] == Holding(b)
         && var z := Patched(t, i, Moveds(|b|));
            (forall k :: 0 <= k < n ==> z[k] == Moved) && Patched(z, 0, Raws(n)) == Raws(src)
  {
    HoldingJoined(a, b);
    var i, n, e := |a|, |a| + |b|, Raws<T>(src - |a| - |b|);
    RawsJoined<T>(n, src - n);
    OldPieces(Holding(a), Holding(b), e, Moveds(i), Moveds(|b|), Raws(n));
  }

  lemma OldPieces<X>(a: seq<X>, b: seq<X>, e: seq<X>, m: seq<X>, n: seq<X>, r: seq<X>)
    requires |m| == |a| && |n| == |b| && |r| == |a| + |b|
    ensures var v := a + b + e;
      v[0..|a|] == a && Patched(v, 0, m) == m + b + e && (m + b + e)[|a|..|a| + |b|] == b
    ensures Patched(m + b + e, |a|, n) == m + n + e && Patched(m + n + e, 0, r) == r + e
  {
  }
}
