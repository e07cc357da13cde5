/** A queue in a ring: the values run from begin around the allocation up to end, and at least one
    slot is always free so that a full ring and an empty one differ. */
module CircularBuffers {
  import opened Arithmetic
  import opened Slots
  import opened Rings

  /** The first of base, 3 * base, 9 * base and so on above n. */
  ghost predicate FirstTripleAbove(base: nat, n: nat, cap: nat) {
    n < cap && exists k: nat :: cap == base * Power(3, k) && (k > 0 ==> base * Power(3, k - 1) <= n)
  }

  lemma TripleMore(base: nat, k: nat, cap: nat)
    requires cap == base * Power(3, k)
    ensures cap * 3 == base * Power(3, k + 1)
  {
    assert Power(3, k + 1) == 3 * Power(3, k);
  }

  lemma TripleNone(base: nat)
    ensures base == base * Power(3, 0)
  {
  }

  class CircularBuffer<T> {
    /** The allocation, of length zero when there is none. */
    var slots: array<Slot<T>>
    var begin: nat
    var end: nat

    function Size(): (n: nat)
      reads this
      requires InBounds()
      ensures n == Minus(end, begin, begin, slots.Length)
      ensures begin < slots.Length ==> n < slots.Length && end == Place(begin, n, slots.Length)
    {
      if end >= begin then end - begin else end + slots.Length - begin
    }

    function Capacity(): nat
      reads this
    {
      if slots.Length > 0 then slots.Length - 1 else 0
    }

    /** Neither end of the values ever stands at the end of the allocation. */
    ghost predicate InBounds()
      reads this
    {
      if slots.Length == 0 then begin == end == 0 else begin < slots.Length && end < slots.Length
    }

    ghost function Ring(): seq<Slot<T>>
      requires InBounds()
      reads this, slots
    {
      View(slots[..], begin)
    }

    ghost predicate Valid()
      reads this, slots
    {
      && InBounds() && Size() <= slots.Length
      && AllLive(Ring()[..Size()]) && AllRaw(Ring()[Size()..])
    }

    ghost function Contents(): seq<T>
      requires Valid()
      reads this, slots
    {
      Values(Ring()[..Size()])
    }

    lemma RingIs()
      requires Valid()
      ensures InBounds() && |Contents()| == Size() <= slots.Length && (slots.Length > 0 ==> Size() < slots.Length)
      ensures Ring() == Ringed(Contents(), slots.Length)
    {
    }

    lemma FromRing(c: seq<T>)
      requires InBounds() && Size() == |c| <= slots.Length
      requires Ring() == Ringed(c, slots.Length)
      ensures Valid() && Contents() == c
    {
      assert Ring()[..Size()] == Holding(c) && Ring()[Size()..] == Raws<T>(slots.Length - |c|);
    }

    constructor ()
      ensures Valid() && Contents() == [] && slots.Length == 0 && fresh(slots)
    {
      slots := new Slot<T>[0];
      begin, end := 0, 0;
    }

    static method Deallocate(a: array<Slot<T>>)
      requires AllRaw(a[..])
    {
    }

    static method Allocate(n: nat) returns (a: array<Slot<T>>)
      ensures fresh(a) && a[..] == Raws(n)
    {
      a := new Slot<T>[n](_ => Raw);
    }

    // Offsets of the ends.

    lemma EndOffsets()
      requires InBounds() && slots.Length > 0
      ensures Size() < slots.Length
      ensures AtOffset(begin, begin, 0, slots.Length) && AtOffset(end, begin, Size(), slots.Length)
    {
    }

    // Growing.

    /** Move all values to the start of a, which keeps what it holds behind them, and destroy the
        objects left behind. */
    method MoveAll(a: array<Slot<T>>)
      requires Valid() && a != slots && Size() <= a.Length
      requires forall k :: 0 <= k < Size() ==> a[k].Raw?
      modifies slots, a
      ensures a[..] == Holding(old(Contents())) + old(a[Size()..])
      ensures AllRaw(slots[..])
    {
      hide View, Patched, Place, Values, Ringed, AtOffset, Valid, Contents;
      RingIs();
      ghost var c, n, o := Contents(), Size(), a[..];
      if slots.Length != 0 {
        EndOffsets();
        Emptied(c, slots.Length);
        MoveRingTo(a, 0, slots, begin, end, begin, 0, n);
        PatchStart(o, Holding(c));
        var it := DestroyRing(slots, begin, end, begin, 0, n);
        RawRing(slots[..], begin);
      }
    }

    /** Move the values to the start of a new allocation and release the old one. */
    method ReserveTo(newSlots: array<Slot<T>>)
      requires Valid() && newSlots != slots && Size() < newSlots.Length
      requires forall k :: 0 <= k < Size() ==> newSlots[k].Raw?
      modifies this, slots, newSlots
      ensures slots == newSlots && begin == 0 && end == old(Size())
      ensures slots[..] == Holding(old(Contents())) + old(newSlots[Size()..])
      ensures AllRaw(old(slots)[..])
    {
      var oldSize := Size();
      MoveAll(newSlots);
      if slots.Length != 0 {
        Deallocate(slots);
      }
      slots := newSlots;
      begin := 0;
      end := begin + oldSize;
    }

    /** The size read off the iterators. */
    lemma SizeAt(n: nat)
      requires begin < slots.Length && AtOffset(end, begin, n, slots.Length) && n < slots.Length
      ensures InBounds() && Size() == n
    {
    }

    static lemma LinearOffset(i: nat, cap: nat)
      requires i < cap
      ensures AtOffset(i, 0, i, cap)
    {
    }

    lemma LinearRing()
      requires InBounds() && begin == 0
      ensures Ring() == slots[..]
    {
    }

    // At the ends.

    method EmplaceBack(v: T)
      requires Valid()
      modifies this, slots
      ensures Valid() && Contents() == old(Contents()) + [v]
      ensures var cap := old(slots.Length);
        if cap == 0 || old(Size()) + 1 == cap then fresh(slots) && slots.Length == Max(2, 3 * (cap - 1))
        else slots == old(slots)
    {
      var newCap := Capacity();
      if Size() == newCap {
        newCap := if newCap != 0 then 3 * newCap else 2;
        GrowBack(newCap, v);
      } else {
        ConstructBack([v]);
      }
    }

    /** Construct values behind the last, in free slots but for one. */
    method ConstructBack(vs: seq<T>)
      requires Valid() && Size() + |vs| <= Capacity()
      modifies `end, slots
      ensures Valid() && slots == old(slots) && Contents() == old(Contents()) + vs
    {
      hide View, Patched, Place, Values, Ringed, AtOffset, Valid, Contents;
      RingIs();
      ghost var c := Contents();
      if slots.Length != 0 {
        EndOffsets();
        RingedAppend(c, vs, slots.Length);
        end := ConstructRing(slots, end, vs, begin, |c|);
        SizeAt(|c| + |vs|);
      }
      FromRing(c + vs);
    }

    method GrowBack(newCap: nat, v: T)
      requires Valid() && Size() + 1 < newCap
      modifies this, slots
      ensures Valid() && Contents() == old(Contents()) + [v] && fresh(slots) && slots.Length == newCap
    {
      hide View, Patched, Values, Ringed, Valid, Contents;
      RingIs();
      ghost var c := Contents();
      RingedGrown(c, v, newCap);
      var newSlots := Allocate(newCap);
      Construct(newSlots, Plus(0, Size(), newCap), v);
      assert newSlots[..] == Raws(newCap)[|c| := Live(v)];
      ReserveTo(newSlots);
      end := end + 1;
      LinearRing();
      FromRing(c + [v]);
    }

    method EmplaceFront(v: T)
      requires Valid()
      modifies this, slots
      ensures Valid() && Contents() == [v] + old(Contents())
      ensures var cap := old(slots.Length);
        if cap == 0 || old(Size()) + 1 == cap then fresh(slots) && slots.Length == Max(2, 3 * (cap - 1))
        else slots == old(slots)
    {
      var newCap := Capacity();
      if Size() == newCap {
        newCap := if newCap != 0 then 3 * newCap else 2;
        GrowFront(newCap, v);
      } else {
        ConstructFront(v);
      }
    }

    method ConstructFront(v: T)
      requires Valid() && Size() < Capacity()
      modifies `begin, slots
      ensures Valid() && slots == old(slots) && Contents() == [v] + old(Contents())
    {
      hide View, Patched, Values, Ringed, Valid, Contents;
      RingIs();
      ghost var c := Contents();
      RingedPrepend([v], c, slots.Length);
      var front := Dec(begin, slots.Length);
      Rebase(slots[..], begin, slots.Length - 1);
      var it := ConstructRing(slots, front, [v], front, 0);
      begin := Dec(begin, slots.Length);
      FromRing([v] + c);
    }

    method GrowFront(newCap: nat, v: T)
      requires Valid() && Size() + 1 < newCap
      modifies this, slots
      ensures Valid() && Contents() == [v] + old(Contents()) && fresh(slots) && slots.Length == newCap
    {
      hide View, Patched, Values, Ringed, Valid, Contents;
      RingIs();
      ghost var c := Contents();
      RingedGrown(c, v, newCap);
      var newSlots := Allocate(newCap);
      Construct(newSlots, Plus(0, newCap - 1, newCap), v);
      assert newSlots[..] == Raws(newCap)[newCap - 1 := Live(v)];
      ReserveTo(newSlots);
      begin := newCap - 1;
      FromRing([v] + c);
    }

    method PopBack()
      requires Valid() && Size() > 0
      modifies `end, slots
      ensures Valid() && slots == old(slots) && Contents() == old(Contents())[..old(Size()) - 1]
    {
      hide View, Patched, Values, Ringed, Valid, Contents;
      RingIs();
      ghost var c := Contents();
      EndOffsets();
      RingedDrop(c, |c| - 1, slots.Length);
      end := DestroyRing(slots, Dec(end, slots.Length), end, begin, |c| - 1, |c|);
      SizeAt(|c| - 1);
      FromRing(c[..|c| - 1]);
    }

    method PopFront()
      requires Valid() && Size() > 0
      modifies `begin, slots
      ensures Valid() && slots == old(slots) && Contents() == old(Contents())[1..]
    {
      hide View, Patched, Values, Ringed, Valid, Contents;
      RingIs();
      ghost var c := Contents();
      EndOffsets();
      RingedSkip(c, 1, slots.Length);
      var it := DestroyRing(slots, begin, Inc(begin, slots.Length), begin, 0, 1);
      Rebase(slots[..], begin, 1);
      begin := Inc(begin, slots.Length);
      FromRing(c[1..]);
    }

    method Clear()
      requires Valid()
      modifies `end, slots
      ensures Valid() && slots == old(slots) && Contents() == [] && begin == end
    {
      hide View, Patched, Values, Ringed, Valid, Contents;
      RingIs();
      ghost var c := Contents();
      if slots.Length != 0 {
        EndOffsets();
        RingedDrop(c, 0, slots.Length);
        end := DestroyRing(slots, begin, end, begin, 0, |c|);
      }
      FromRing([]);
    }

    // In the middle.  pos is the iterator at offset i.

    ghost predicate IsAt(pos: nat, i: nat)
      requires InBounds()
      reads this
    {
      i <= Size() && pos == Place(begin, i, slots.Length)
    }

    lemma IsAtMeans(pos: nat, i: nat)
      requires InBounds() && IsAt(pos, i)
      ensures Minus(pos, begin, begin, slots.Length) == i && Minus(end, pos, begin, slots.Length) == Size() - i
      ensures slots.Length > 0 ==> AtOffset(pos, begin, i, slots.Length)
      ensures Plus(begin, i, slots.Length) == pos
    {
    }

    /** The iterator begin() + i. */
    lemma PlusIsAt(i: nat)
      requires InBounds() && i <= Size()
      ensures IsAt(Plus(begin, i, slots.Length), i)
    {
    }

    /** Iterators seen from a begin that has moved down by k. */
    static lemma Lowered(begin: nat, pos: nat, i: nat, end: nat, n: nat, k: nat, cap: nat)
      requires 0 < k && i <= n && n + k < cap && begin < cap
      requires AtOffset(pos, begin, i, cap) && AtOffset(end, begin, n, cap)
      ensures var b := Plus(begin, -(k as int), cap);
        && b < cap && b == Place(begin, cap - k, cap) && AtOffset(b, b, 0, cap) && AtOffset(begin, b, k, cap)
        && AtOffset(pos, b, k + i, cap) && AtOffset(end, b, k + n, cap)
    {
    }

    static lemma HoldingLength(vs: seq<T>)
      ensures |Holding(vs)| == |vs|
    {
    }

    static lemma LiveBelow(c: seq<T>, i: nat, cap: nat)
      requires i <= |c| <= cap
      ensures forall j :: 0 <= j < i ==> Ringed(c, cap)[j].Live?
    {
    }

    /** m is u with the values from lo up to mid and those from there up to hi exchanged. */
    static ghost predicate Exchanged(u: seq<T>, lo: nat, mid: nat, hi: nat, m: seq<T>) {
      lo <= mid <= hi <= |u| && m == u[..lo] + u[mid..hi] + u[lo..mid] + u[hi..]
    }

    static lemma InFrontMoved(c: seq<T>, vs: seq<T>, i: nat)
      requires i <= |c|
      ensures Exchanged(vs + c, 0, |vs|, |vs| + i, c[..i] + vs + c[i..])
    {
      ghost var u, k := vs + c, |vs|;
      assert u[..0] == [] && u[k..k + i] == c[..i] && u[0..k] == vs && u[k + i..] == c[i..];
      assert [] + c[..i] + vs + c[i..] == c[..i] + vs + c[i..];
    }

    static lemma BehindMoved(c: seq<T>, vs: seq<T>, i: nat)
      requires i <= |c|
      ensures Exchanged(c + vs, i, |c|, |c| + |vs|, c[..i] + vs + c[i..])
    {
      ghost var u, n, k := c + vs, |c|, |vs|;
      assert u[..i] == c[..i] && u[n..n + k] == vs && u[i..n] == c[i..] && u[n + k..] == [];
      assert c[..i] + vs + c[i..] + [] == c[..i] + vs + c[i..];
    }

    /** Seen from b, the ring holds the values c and nothing else. */
    ghost predicate RingFrom(b: nat, c: seq<T>)
      reads this, slots
    {
      b <= slots.Length && |c| <= slots.Length && View(slots[..], b) == Ringed(c, slots.Length)
    }

    lemma ValidRing()
      requires Valid()
      ensures InBounds() && |Contents()| == Size() && RingFrom(begin, Contents())
      ensures slots.Length > 0 ==> Size() < slots.Length
    {
      RingIs();
    }

    lemma FromRingFrom(c: seq<T>)
      requires InBounds() && Size() == |c| && RingFrom(begin, c)
      ensures Valid() && Contents() == c
    {
      FromRing(c);
    }

    /** begin moves down by k; the offsets of the other iterators go up by k. */
    method LowerBegin(k: nat, pos: nat, ghost i: nat, ghost n: nat)
      requires InBounds() && slots.Length > 0 && n == Size() && 0 < k && n + k < slots.Length && i <= n
      requires AtOffset(pos, begin, i, slots.Length)
      modifies `begin
      ensures InBounds() && Size() == n + k && begin == Place(old(begin), slots.Length - k, slots.Length)
      ensures AtOffset(begin, begin, 0, slots.Length) && AtOffset(old(begin), begin, k, slots.Length)
      ensures AtOffset(pos, begin, k + i, slots.Length)
    {
      EndOffsets();
      Lowered(begin, pos, i, end, n, k, slots.Length);
      begin := Plus(begin, -(k as int), slots.Length);
      hide *;
      SizeAt(k + n);
    }

    /** Construct values in the free slots before begin, which has moved down. */
    method ConstructInFront(vs: seq<T>, ghost c: seq<T>, ghost oldBegin: nat)
      requires InBounds() && 0 < |vs| && Size() == |vs| + |c| < slots.Length && oldBegin < slots.Length
      requires begin == Place(oldBegin, slots.Length - |vs|, slots.Length)
      requires RingFrom(oldBegin, c)
      modifies slots
      ensures InBounds() && RingFrom(begin, vs + c)
    {
      ghost var cap := slots.Length;
      FreeInFront(vs, c, oldBegin);
      HoldingLength(vs);
      BeginOffset();
      hide *;
      var it := ConstructRing(slots, begin, vs, begin, 0);
      NowRingFrom(begin, vs + c);
    }

    /** Seen from where begin has moved to, the free slots come first. */
    lemma FreeInFront(vs: seq<T>, c: seq<T>, oldBegin: nat)
      requires 0 < |vs| && |vs| + |c| < slots.Length && oldBegin < slots.Length && begin < slots.Length
      requires begin == Place(oldBegin, slots.Length - |vs|, slots.Length) && RingFrom(oldBegin, c)
      ensures forall k :: 0 <= k < |vs| ==> View(slots[..], begin)[k].Raw?
      ensures Patched(View(slots[..], begin), 0, Holding(vs)) == Ringed(vs + c, slots.Length)
    {
      RingedPrepend(vs, c, slots.Length);
      hide View, Patched, Ringed, Place;
      Rebase(slots[..], oldBegin, slots.Length - |vs|);
    }

    lemma NowRingFrom(b: nat, c: seq<T>)
      requires b <= slots.Length && |c| <= slots.Length && View(slots[..], b) == Ringed(c, slots.Length)
      ensures RingFrom(b, c)
    {
    }

    lemma BeginOffset()
      requires InBounds() && slots.Length > 0
      ensures AtOffset(begin, begin, 0, slots.Length) && begin < slots.Length
    {
    }

    /** Construct values in the free slots from end on, which moves up. */
    method ConstructBehind(vs: seq<T>, ghost c: seq<T>)
      requires InBounds() && |c| == Size() && |c| + |vs| < slots.Length && RingFrom(begin, c)
      modifies `end, slots
      ensures InBounds() && AtOffset(end, begin, |c| + |vs|, slots.Length) && Size() == |c| + |vs|
      ensures RingFrom(begin, c + vs)
    {
      ghost var cap := slots.Length;
      EndOffsets();
      RingedAppend(c, vs, cap);
      hide View, Patched, Ringed, AtOffset, Place, Inc;
      end := ConstructRing(slots, end, vs, begin, |c|);
      SizeAt(|c| + |vs|);
    }

    /** Exchange the values from lo up to mid with those from there up to hi. */
    method RotateValues(first: nat, middle: nat, last: nat, ghost u: seq<T>, ghost lo: nat, ghost mid: nat, ghost hi: nat,
                        ghost m: seq<T>)
      requires InBounds() && |u| < slots.Length && Exchanged(u, lo, mid, hi, m) && RingFrom(begin, u)
      requires AtOffset(first, begin, lo, slots.Length) && AtOffset(middle, begin, mid, slots.Length)
      requires AtOffset(last, begin, hi, slots.Length)
      modifies slots
      ensures InBounds() && |m| == |u| && RingFrom(begin, m)
    {
      RingedRotate(u, lo, mid, hi, slots.Length);
      LiveBelow(u, hi, slots.Length);
      hide View, Patched, Ringed, AtOffset;
      RotateRing(slots, first, middle, last, begin, lo, mid, hi);
    }

    method InsertMovingLeft(pos: nat, vs: seq<T>, ghost i: nat)
      requires Valid() && IsAt(pos, i) && 0 < |vs| && Size() + |vs| <= Capacity()
      modifies `begin, slots
      ensures Valid() && slots == old(slots)
      ensures Contents() == old(Contents())[..i] + vs + old(Contents())[i..]
    {
      ValidRing();
      IsAtMeans(pos, i);
      BeginOffset();
      hide *;
      ghost var c := Contents();
      InFrontMoved(c, vs, i);
      var oldBegin := begin;
      LowerBegin(|vs|, pos, i, |c|);
      ConstructInFront(vs, c, oldBegin);
      RotateValues(begin, oldBegin, pos, vs + c, 0, |vs|, |vs| + i, c[..i] + vs + c[i..]);
      FromRingFrom(c[..i] + vs + c[i..]);
    }

    method InsertMovingRight(pos: nat, vs: seq<T>, ghost i: nat)
      requires Valid() && IsAt(pos, i) && 0 < |vs| && Size() + |vs| <= Capacity()
      modifies `end, slots
      ensures Valid() && slots == old(slots)
      ensures Contents() == old(Contents())[..i] + vs + old(Contents())[i..]
    {
      ValidRing();
      EndOffsets();
      IsAtMeans(pos, i);
      hide *;
      ghost var c, n := Contents(), Size();
      BehindMoved(c, vs, i);
      var oldEnd := end;
      ConstructBehind(vs, c);
      RotateValues(pos, oldEnd, end, c + vs, i, n, n + |vs|, c[..i] + vs + c[i..]);
      FromRingFrom(c[..i] + vs + c[i..]);
    }

    /** The tripled real capacity, tripled again until a slot stays free. */
    method CapacityFor(newSize: nat) returns (newCap: nat)
      ensures FirstTripleAbove(if slots.Length == 0 then 2 else slots.Length * 3, newSize, newCap)
    {
      newCap := if slots.Length != 0 then slots.Length * 3 else 2;
      ghost var base, k := newCap, 0;
      TripleNone(base);
      hide Power;
      while newSize >= newCap
        invariant newCap > 0 && newCap == base * Power(3, k) && (k > 0 ==> base * Power(3, k - 1) <= newSize)
        decreases newSize - newCap
      {
        TripleMore(base, k, newCap);
        newCap := newCap * 3;
        k := k + 1;
      }
    }

    /** Build the result in a new allocation: the new values first, the others moved around them. */
    method InsertGrowing(pos: nat, vs: seq<T>, ghost i: nat)
      requires Valid() && IsAt(pos, i) && 0 < |vs|
      modifies this, slots
      ensures Valid() && fresh(slots)
      ensures FirstTripleAbove(if old(slots.Length) == 0 then 2 else old(slots.Length) * 3, old(Size()) + |vs|,
                               slots.Length)
      ensures Contents() == old(Contents())[..i] + vs + old(Contents())[i..]
    {
      hide View, Patched, Values, Ringed, Valid, Contents;
      RingIs();
      ghost var c := Contents();
      IsAtMeans(pos, i);
      var posIndex := Minus(pos, begin, begin, slots.Length);
      var newSize := Size() + |vs|;
      var newCap := CapacityFor(newSize);
      assert newSize < newCap;
      hide FirstTripleAbove;
      var newSlots := Allocate(newCap);
      BuildAround(newSlots, pos, posIndex, vs);
      if slots.Length != 0 {
        Deallocate(slots);
      }
      slots := newSlots;
      begin, end := 0, newSize;
      LinearRing();
      FromRing(c[..i] + vs + c[i..]);
    }

    /** The values before pos, vs and the values from pos on, at the start of the new allocation a. */
    method BuildAround(a: array<Slot<T>>, pos: nat, posIndex: nat, vs: seq<T>)
      requires Valid() && a != slots && a[..] == Raws(a.Length) && Size() + |vs| < a.Length
      requires IsAt(pos, posIndex)
      modifies slots, a
      ensures a[..] == Ringed(old(Contents())[..posIndex] + vs + old(Contents())[posIndex..], a.Length)
      ensures AllRaw(slots[..])
    {
      hide View, Patched, Place, Values, Ringed, AtOffset, Valid, Contents;
      RingIs();
      ghost var c, n, cap := Contents(), Size(), a.Length;
      BuiltAround(c, posIndex, vs, cap, slots.Length);
      IsAtMeans(pos, posIndex);
      ViewLinear(a[..]);
      LinearOffset(posIndex, a.Length);
      var it := ConstructRing(a, posIndex, vs, 0, posIndex);
      if slots.Length != 0 {
        EndOffsets();
        ViewLinear(a[..]);
        MoveRingTo(a, 0, slots, begin, pos, begin, 0, posIndex);
        MoveRingTo(a, posIndex + |vs|, slots, pos, end, begin, posIndex, n);
        var e := DestroyRing(slots, begin, end, begin, 0, n);
        RawRing(slots[..], begin);
      } else {
        RingedOnly(vs, cap);
        ViewLinear(a[..]);
        assert c[..posIndex] + vs + c[posIndex..] == vs;
      }
    }

    /** insert: all three ways put vs in front of pos. */
    method Insert(pos: nat, vs: seq<T>, ghost i: nat) returns (at: nat)
      requires Valid() && IsAt(pos, i)
      modifies this, slots
      ensures Valid() && IsAt(at, i)
      ensures Contents() == old(Contents())[..i] + vs + old(Contents())[i..]
      ensures var cap, newSize := old(slots.Length), old(Size()) + |vs|;
        if vs == [] || newSize < cap then slots == old(slots)
        else fresh(slots) && FirstTripleAbove(if cap == 0 then 2 else cap * 3, newSize, slots.Length)
    {
      RingIs();
      IsAtMeans(pos, i);
      ghost var c := Contents();
      hide Ring, Valid, Contents, Place, FirstTripleAbove;
      if |vs| == 0 {
        assert c == c[..i] + vs + c[i..];
        return pos;
      }
      var posIndex := Minus(pos, begin, begin, slots.Length);
      if Capacity() - Size() < |vs| {
        InsertGrowing(pos, vs, i);
      } else if posIndex < Minus(end, pos, begin, slots.Length) {
        InsertMovingLeft(pos, vs, i);
      } else {
        InsertMovingRight(pos, vs, i);
      }
      RingIs();
      PlusIsAt(posIndex);
      at := Plus(begin, posIndex, slots.Length);
    }

    /** emplace */
    method Emplace(pos: nat, v: T, ghost i: nat) returns (at: nat)
      requires Valid() && IsAt(pos, i)
      modifies this, slots
      ensures Valid() && (slots == old(slots) || fresh(slots)) && IsAt(at, i)
      ensures Contents() == old(Contents())[..i] + [v] + old(Contents())[i..]
    {
      RingIs();
      IsAtMeans(pos, i);
      ghost var c := Contents();
      hide Ring, Valid, Contents;
      if pos == end {
        EmplaceBack(v);
        RingIs();
        EndOffsets();
        NextOffset(end, begin, i + 1, slots.Length);
        at := Dec(end, slots.Length);
      } else if pos == begin {
        EmplaceFront(v);
        RingIs();
        at := begin;
      } else {
        at := Insert(pos, [v], i);
      }
    }

    /** erase: the values from first up to last go, and the shorter side moves. */
    method Erase(first: nat, last: nat, ghost i: nat, ghost j: nat) returns (at: nat)
      requires Valid() && IsAt(first, i) && IsAt(last, j)
      modifies `begin, `end, slots
      ensures Valid() && slots == old(slots)
      ensures j <= i ==> at == last && Contents() == old(Contents())
      ensures i < j ==> IsAt(at, i) && Contents() == old(Contents())[..i] + old(Contents())[j..]
    {
      RingIs();
      IsAtMeans(first, i);
      IsAtMeans(last, j);
      if slots.Length == 0 {
        return last;
      }
      MinusIsDifference(begin, j, i, slots.Length);
      hide Ring, Valid, Contents, Place;
      if Minus(last, first, begin, slots.Length) <= 0 {
        return last;
      }
      var beginFirstDistance := Minus(first, begin, begin, slots.Length);
      if beginFirstDistance < Minus(end, last, begin, slots.Length) {
        EraseMovingRight(first, last, i, j);
      } else {
        EraseMovingLeft(first, last, i, j);
      }
      RingIs();
      PlusIsAt(beginFirstDistance);
      at := Plus(begin, beginFirstDistance, slots.Length);
    }

    method EraseMovingRight(first: nat, last: nat, ghost i: nat, ghost j: nat)
      requires Valid() && IsAt(first, i) && IsAt(last, j) && i < j
      modifies `begin, slots
      ensures Valid() && slots == old(slots) && Contents() == old(Contents())[..i] + old(Contents())[j..]
    {
      hide View, Patched, Values, Ringed, Valid, Contents, MovedUp;
      RingIs();
      ghost var c, cap := Contents(), slots.Length;
      IsAtMeans(first, i);
      IsAtMeans(last, j);
      EndOffsets();
      RingedCloseUp(c, i, j, cap);
      var oldBegin := begin;
      var newBegin := MoveBackwardRing(slots, begin, first, last, begin, 0, i, j);
      var it := DestroyRing(slots, oldBegin, newBegin, begin, 0, j - i);
      Rebase(slots[..], begin, j - i);
      begin := newBegin;
      FromRing(c[..i] + c[j..]);
    }

    method EraseMovingLeft(first: nat, last: nat, ghost i: nat, ghost j: nat)
      requires Valid() && IsAt(first, i) && IsAt(last, j) && i < j
      modifies `end, slots
      ensures Valid() && slots == old(slots) && Contents() == old(Contents())[..i] + old(Contents())[j..]
    {
      hide View, Patched, Values, Ringed, Valid, Contents, MovedDown;
      RingIs();
      ghost var c, n, cap := Contents(), Size(), slots.Length;
      IsAtMeans(first, i);
      IsAtMeans(last, j);
      EndOffsets();
      RingedCloseDown(c, i, j, cap);
      var newEnd := MoveForwardRing(slots, last, end, first, begin, j, n, i);
      end := DestroyRing(slots, newEnd, end, begin, n - (j - i), n);
      SizeAt(n - (j - i));
      FromRing(c[..i] + c[j..]);
    }

    /** operator[] */
    method At(k: nat) returns (v: T)
      requires Valid() && k < Size()
      ensures v == Contents()[k]
    {
      RingIs();
      ViewUpdate(slots[..], begin, k, slots[Place(begin, k, slots.Length)]);
      v := slots[Plus(begin, k, slots.Length)].value;
    }

    // Capacity.

    method Reserve(newCap: nat)
      requires Valid() && (slots.Length == 0 ==> newCap > 0)
      modifies this, slots
      ensures Valid() && Contents() == old(Contents())
      ensures if newCap < old(slots.Length) then slots == old(slots) else fresh(slots) && slots.Length == newCap + 1
    {
      RingIs();
      if newCap < slots.Length {
        return;
      }
      Relocate(newCap + 1);
    }

    /** Into a new allocation of n slots. */
    method Relocate(n: nat)
      requires Valid() && Size() < n
      modifies this, slots
      ensures Valid() && Contents() == old(Contents()) && fresh(slots) && slots.Length == n
    {
      hide View, Patched, Values, Valid, Contents;
      RingIs();
      ghost var c := Contents();
      var newSlots := Allocate(n);
      ReserveTo(newSlots);
      LinearRing();
      assert Raws(n)[|c|..] == Raws<T>(n - |c|);
      FromRing(c);
    }

    method ShrinkToFit()
      requires Valid()
      modifies this, slots
      ensures Valid() && Contents() == old(Contents())
      ensures if old(Size()) == old(Capacity()) then slots == old(slots)
              else fresh(slots) && slots.Length == if Size() == 0 then 0 else Size() + 1
      ensures Size() == Capacity()
    {
      RingIs();
      if Size() == Capacity() {
        return;
      }
      if Size() > 0 {
        Relocate(Size() + 1);
        RingIs();
      } else {
        RawRing(slots[..], begin);
        Deallocate(slots);
        slots := Allocate(0);
        begin, end := 0, 0;
      }
    }

    method Resize(count: nat, v: T)
      requires Valid()
      modifies this, slots
      ensures Valid()
      ensures if count <= old(Size()) || count < old(slots.Length) then slots == old(slots)
              else fresh(slots) && slots.Length == count + 1
      ensures Contents() == if count <= old(Size()) then old(Contents())[..count]
                            else old(Contents()) + seq(count - old(Size()), _ => v)
    {
      RingIs();
      if Size() >= count {
        DropFrom(count);
      } else {
        var more := count - Size();
        if count >= slots.Length {
          Reserve(count);
          RingIs();
        }
        ConstructBack(seq(more, _ => v));
      }
    }

    /** Destroy the values from the k-th on. */
    method DropFrom(k: nat)
      requires Valid() && k <= Size()
      modifies `end, slots
      ensures Valid() && slots == old(slots) && Contents() == old(Contents())[..k]
    {
      hide View, Patched, Values, Ringed, Valid, Contents;
      RingIs();
      ghost var c := Contents();
      if slots.Length != 0 {
        EndOffsets();
        PlusIsAt(k);
        RingedDrop(c, k, slots.Length);
        end := DestroyRing(slots, Plus(begin, k, slots.Length), end, begin, k, |c|);
        SizeAt(k);
      }
      FromRing(c[..k]);
    }

    /** assign: overwrite what is there and construct the rest, in a new allocation if it does not fit. */
    method AssignAll(vs: seq<T>)
      requires Valid()
      modifies this, slots
      ensures Valid() && Contents() == vs
      ensures if |vs| < old(slots.Length) then slots == old(slots) else fresh(slots) && slots.Length == |vs| + 1
    {
      if slots.Length <= |vs| {
        ClearAndGetCapNoLessThan(|vs|);
        RingIs();
        ConstructBack(vs);
        return;
      }
      RingIs();
      if Size() > |vs| {
        DropFrom(|vs|);
        RingIs();
      }
      var mid := Size();
      Overwrite(vs[..mid]);
      RingIs();
      ConstructBack(vs[mid..]);
      assert vs == vs[..mid] + vs[mid..];
    }

    method Overwrite(vs: seq<T>)
      requires Valid() && |vs| == Size() < slots.Length
      modifies slots
      ensures Valid() && Contents() == vs
    {
      hide View, Patched, Values, Valid, Contents;
      RingIs();
      ghost var c := Contents();
      EndOffsets();
      var it := AssignRing(slots, begin, vs, begin, 0);
      assert Patched(Ringed(c, slots.Length), 0, Holding(vs)) == Ringed(vs, slots.Length) by {
        PatchStart(Ringed(c, slots.Length), Holding(vs));
      }
      FromRing(vs);
    }

    method ClearAndGetCapNoLessThan(cap: nat)
      requires Valid()
      modifies this, slots
      ensures Valid() && Contents() == []
      ensures if cap < old(slots.Length) then slots == old(slots) else fresh(slots) && slots.Length == cap + 1
    {
      Clear();
      if slots.Length <= cap {
        hide View, Patched, Values, Ringed, Contents, Valid;
        if slots.Length != 0 {
          EmptyRing();
          RawRing(slots[..], begin);
          Deallocate(slots);
        }
        slots := Allocate(cap + 1);
        begin := 0;
        end := begin;
        NothingStored();
      }
    }

    lemma EmptyRing()
      requires Valid() && Contents() == []
      ensures InBounds() && View(slots[..], begin) == Raws(slots.Length)
    {
      RingIs();
      assert Ringed<T>([], slots.Length) == Raws(slots.Length);
    }

    lemma NothingStored()
      requires InBounds() && begin == end && AllRaw(slots[..])
      ensures Valid() && Contents() == []
    {
    }
  }
}
