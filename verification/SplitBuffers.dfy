/** A vector that grows at both ends: the values stand in the middle of one allocation, with spare
    raw memory before and after them. */
module SplitBuffers {
  import opened Slots
  import opened Arithmetic
  import opened Sequences

  /** The sizes of the spare memory in front, of the contents and of the spare memory at the back. */
  datatype Shape = Shape(front: nat, size: nat, back: nat) {
    function Capacity(): nat {
      front + size + back
    }

    function Doubled(): nat {
      if Capacity() == 0 then 1 else 2 * Capacity()
    }
  }

  function HalfOrOne(n: nat): nat {
    if n / 2 == 0 then 1 else n / 2
  }

  /** The first of base, 2 * base, 4 * base and so on that is at least n. */
  ghost predicate FirstDoubleFor(base: nat, n: nat, cap: nat) {
    n <= cap && exists k: nat :: cap == base * Power(2, k) && (k > 0 ==> base * Power(2, k - 1) < n)
  }

  lemma DoubleMore(base: nat, k: nat, cap: nat)
    requires cap == base * Power(2, k)
    ensures cap * 2 == base * Power(2, k + 1)
  {
    assert Power(2, k + 1) == 2 * Power(2, k);
  }

  lemma DoubleNone(base: nat)
    ensures base == base * Power(2, 0)
  {
  }

  class SplitBuffer<T> {
    /** The allocation, of length zero when there is none. */
    var slots: array<Slot<T>>
    var begin: nat
    var end: nat
    /** How many values have been relocated by shifting or growing. */
    ghost var relocated: nat
    /** Whether a value assigned to itself by a move keeps its value; its type decides. */
    const selfMoveKeeps: bool

    ghost predicate Valid()
      reads this, slots
    {
      Filled(slots, begin, end)
    }

    ghost function Contents(): (s: seq<T>)
      requires Valid()
      reads this, slots
    {
      Values(slots[begin..end])
    }

    function FrontSpare(): nat
      reads this
    {
      begin
    }

    function BackSpare(): nat
      requires end <= slots.Length
      reads this
    {
      slots.Length - end
    }

    function Size(): nat
      requires begin <= end
      reads this
    {
      end - begin
    }

    constructor (selfMoveKeeps: bool)
      ensures Valid() && Contents() == [] && slots.Length == 0 && relocated == 0 && fresh(slots)
      ensures this.selfMoveKeeps == selfMoveKeeps
    {
      this.selfMoveKeeps := selfMoveKeeps;
      slots := new Slot<T>[0];
      begin, end, relocated := 0, 0, 0;
    }

    /** Releasing an allocation: no object may be left in it. */
    static method Deallocate(a: array<Slot<T>>)
      requires AllRaw(a[..])
    {
    }

    static method Allocate(n: nat) returns (a: array<Slot<T>>)
      ensures fresh(a) && a.Length == n && forall k :: 0 <= k < n ==> a[k].Raw?
    {
      a := new Slot<T>[n](_ => Raw);
    }

    // Shifting.

    method AssignInPlace()
      requires Valid()
      modifies slots
      ensures Valid() <==> selfMoveKeeps || Size() == 0
      ensures Valid() ==> Contents() == old(Contents())
    {
      ghost var o := slots[..];
      SelfAssign(slots, begin, end, selfMoveKeeps);
      if selfMoveKeeps || begin == end {
        assert slots[..] == o;
        assert slots[begin..end] == o[begin..end];
      } else {
        assert slots[begin] == Moved;
      }
    }

    /** A shift keeps the values.  A shift by zero assigns every value to itself, and so keeps them
        exactly if that does. */
    method LeftShiftN(n: nat)
      requires Valid() && n <= FrontSpare()
      modifies this, slots
      ensures slots == old(slots) && begin == old(begin) - n && end == old(end) - n
      ensures relocated == old(relocated) + old(Size())
      ensures Valid() <==> n > 0 || selfMoveKeeps || old(Size()) == 0
      ensures Valid() ==> Contents() == old(Contents())
    {
      if n == 0 {
        AssignInPlace();
      } else if Size() >= n {
        ShiftLeftOverlapping(slots, begin, end, n, slots[begin..end]);
      } else {
        ShiftLeftApart(slots, begin, end, n, slots[begin..end]);
      }
      relocated := relocated + Size();
      begin, end := begin - n, end - n;
    }

    method RightShiftN(n: nat)
      requires Valid() && n <= BackSpare()
      modifies this, slots
      ensures slots == old(slots) && begin == old(begin) + n && end == old(end) + n
      ensures relocated == old(relocated) + old(Size())
      ensures Valid() <==> n > 0 || selfMoveKeeps || old(Size()) == 0
      ensures Valid() ==> Contents() == old(Contents())
    {
      if n == 0 {
        AssignInPlace();
      } else if Size() >= n {
        ShiftRightOverlapping(slots, begin, end, n, slots[begin..end]);
      } else {
        ShiftRightApart(slots, begin, end, n, slots[begin..end]);
      }
      relocated := relocated + Size();
      begin, end := begin + n, end + n;
    }

    // Growing.

    /** Move the values to offset in a new allocation and release the old one.  The new allocation
        may hold values already, outside the place for the old ones. */
    method ReserveTo(newSlots: array<Slot<T>>, offset: nat)
      requires Valid() && newSlots != slots && 0 < newSlots.Length && offset + Size() <= newSlots.Length
      requires forall k :: offset <= k < offset + Size() ==> newSlots[k].Raw?
      modifies this, slots, newSlots
      ensures slots == newSlots && begin == offset && end == offset + old(Size())
      ensures slots[begin..end] == old(slots[begin..end])
      ensures forall k :: begin <= k < end ==> slots[k].Live?
      ensures forall k :: 0 <= k < begin || end <= k < slots.Length ==> slots[k] == old(newSlots[k])
      ensures AllRaw(old(slots)[..])
      ensures relocated == old(relocated) + old(Size())
    {
      var oldSize := Size();
      MoveRange(newSlots, offset, slots, begin, end);
      DestroyRange(slots, begin, end);
      Deallocate(slots);
      slots := newSlots;
      begin, end := offset, offset + oldSize;
      relocated := relocated + oldSize;
    }

    // At the ends.

    ghost function State(): Shape
      requires Valid()
      reads this, slots
    {
      Shape(begin, end - begin, slots.Length - end)
    }

    lemma SparesAre()
      requires Valid()
      ensures State() == Shape(begin, end - begin, slots.Length - end) && begin <= end <= slots.Length
      ensures FrontSpare() == begin && BackSpare() == slots.Length - end && Size() == end - begin
    {
    }

    method EmplaceBack(v: T)
      requires Valid()
      modifies this, slots
      ensures Valid() && Contents() == old(Contents()) + [v]
      ensures old(BackSpare()) > 0 ==> slots == old(slots) && begin == old(begin) && relocated == old(relocated)
      ensures old(BackSpare()) == 0 && old(FrontSpare() > Size()) ==>
        && slots == old(slots) && relocated == old(relocated + Size())
        && if old(FrontSpare()) == 1 then FrontSpare() == BackSpare() == 0
           else FrontSpare() - 2 <= BackSpare() < FrontSpare()
      ensures old(BackSpare()) == 0 && old(FrontSpare() <= Size()) ==>
        && fresh(slots) && begin == old(begin) && relocated == old(relocated + Size())
        && slots.Length == if old(slots.Length) == 0 then 1 else 2 * old(slots.Length)
      ensures State() == Stepped(old(State()), Op.EmplaceBack) && relocated == old(relocated) + Cost(old(State()), Op.EmplaceBack)
    {
      hide *;
      SparesAre();
      BackStep(State());
      HalfIs(FrontSpare());
      if BackSpare() == 0 {
        if FrontSpare() > Size() {
          LeftShiftN(HalfOrOne(FrontSpare()));
          SparesAre();
          ConstructBack(v);
        } else {
          GrowBack(v);
        }
      } else {
        ConstructBack(v);
      }
      SparesAre();
    }

    /** Construct a value in the first slot of the spare memory at the back. */
    method ConstructBack(v: T)
      requires Valid() && BackSpare() > 0
      modifies `end, slots
      ensures Valid() && slots == old(slots) && Contents() == old(Contents()) + [v]
      ensures end == old(end) + 1
    {
      Construct(slots, end, v);
      end := end + 1;
      assert slots[begin..end] == old(slots[begin..end]) + [Live(v)];
    }

    method GrowBack(v: T)
      requires Valid() && BackSpare() == 0
      modifies this, slots
      ensures Valid() && Contents() == old(Contents()) + [v] && fresh(slots)
      ensures begin == old(begin) && end == old(end) + 1
      ensures slots.Length == (if old(slots.Length) == 0 then 1 else 2 * old(slots.Length))
      ensures relocated == old(relocated + Size())
    {
      var newSlots := AllocateWith(if slots.Length != 0 then slots.Length * 2 else 1, FrontSpare() + Size(), v);
      ReserveTo(newSlots, FrontSpare());
      end := end + 1;
      assert slots[begin..end] == old(slots[begin..end]) + [Live(v)];
    }

    method EmplaceFront(v: T)
      requires Valid()
      modifies this, slots
      ensures Valid() && Contents() == [v] + old(Contents())
      ensures old(FrontSpare()) > 0 ==> slots == old(slots) && end == old(end) && relocated == old(relocated)
      ensures old(FrontSpare()) == 0 && old(BackSpare() > Size()) ==>
        && slots == old(slots) && relocated == old(relocated + Size())
        && if old(BackSpare()) == 1 then FrontSpare() == BackSpare() == 0
           else BackSpare() - 2 <= FrontSpare() < BackSpare()
      ensures old(FrontSpare()) == 0 && old(BackSpare() <= Size()) ==>
        && fresh(slots) && BackSpare() == old(BackSpare()) && relocated == old(relocated + Size())
        && slots.Length == if old(slots.Length) == 0 then 1 else 2 * old(slots.Length)
      ensures State() == Stepped(old(State()), Op.EmplaceFront) && relocated == old(relocated) + Cost(old(State()), Op.EmplaceFront)
    {
      hide *;
      SparesAre();
      FrontStep(State());
      HalfIs(BackSpare());
      if FrontSpare() == 0 {
        if BackSpare() > Size() {
          RightShiftN(HalfOrOne(BackSpare()));
          SparesAre();
          ConstructFront(v);
        } else {
          GrowFront(v);
        }
      } else {
        ConstructFront(v);
      }
      SparesAre();
    }

    method ConstructFront(v: T)
      requires Valid() && FrontSpare() > 0
      modifies `begin, slots
      ensures Valid() && slots == old(slots) && Contents() == [v] + old(Contents())
      ensures begin == old(begin) - 1
    {
      Construct(slots, begin - 1, v);
      begin := begin - 1;
      assert slots[begin..end] == [Live(v)] + old(slots[begin..end]);
    }

    method GrowFront(v: T)
      requires Valid() && FrontSpare() == 0
      modifies this, slots
      ensures Valid() && Contents() == [v] + old(Contents()) && fresh(slots)
      ensures slots.Length - end == old(slots.Length - end) && end - begin == old(end - begin) + 1
      ensures slots.Length == (if old(slots.Length) == 0 then 1 else 2 * old(slots.Length))
      ensures relocated == old(relocated + Size())
    {
      var newCap := if slots.Length != 0 then slots.Length * 2 else 1;
      var newSlots := AllocateWith(newCap, newCap - Size() - BackSpare() - 1, v);
      ReserveTo(newSlots, newCap - Size() - BackSpare());
      begin := begin - 1;
      assert slots[begin..end] == [Live(v)] + old(slots[begin..end]);
    }

    /** A new allocation with one value in it already. */
    static method AllocateWith(n: nat, i: nat, v: T) returns (a: array<Slot<T>>)
      requires i < n
      ensures fresh(a) && a.Length == n && a[i] == Live(v)
      ensures forall k :: 0 <= k < n && k != i ==> a[k].Raw?
    {
      a := Allocate(n);
      Construct(a, i, v);
    }

    method PopBack()
      requires Valid() && Size() > 0
      modifies `end, slots
      ensures Valid() && slots == old(slots) && Contents() == old(Contents())[..old(Size()) - 1]
      ensures State() == Stepped(old(State()), Op.PopBack) && relocated == old(relocated)
    {
      DestroyRange(slots, end - 1, end);
      end := end - 1;
    }

    method PopFront()
      requires Valid() && Size() > 0
      modifies `begin, slots
      ensures Valid() && slots == old(slots) && Contents() == old(Contents())[1..]
      ensures State() == Stepped(old(State()), Op.PopFront) && relocated == old(relocated)
    {
      DestroyRange(slots, begin, begin + 1);
      begin := begin + 1;
    }

    method Clear()
      requires Valid()
      modifies `end, slots
      ensures Valid() && slots == old(slots) && Contents() == [] && end == begin
    {
      DestroyRange(slots, begin, end);
      end := begin;
    }

    // In the middle.  A position is the index of a slot, from begin up to end.

    /** The slots after vs has been put in front of position pos. */
    ghost function SlotsWith(pos: nat, vs: seq<T>): seq<Slot<T>>
      requires Valid() && begin <= pos <= end
      reads this, slots
    {
      slots[begin..pos] + Holding(vs) + slots[pos..end]
    }

    lemma ContentsIs()
      requires Valid()
      ensures begin <= end <= slots.Length && AllLive(slots[begin..end]) && Contents() == Values(slots[begin..end])
    {
      FilledPieces(slots, begin, end);
    }

    lemma Subslices(pos: nat)
      requires begin <= pos <= end <= slots.Length
      ensures slots[begin..end][..pos - begin] == slots[begin..pos]
      ensures slots[begin..end][pos - begin..] == slots[pos..end]
    {
    }

    lemma ContentsWith(pos: nat, vs: seq<T>)
      requires Valid() && begin <= pos <= end
      ensures AllLive(SlotsWith(pos, vs))
      ensures var s, i := Contents(), pos - begin; Values(SlotsWith(pos, vs)) == s[..i] + vs + s[i..]
    {
      FilledPieces(slots, begin, end);
      Joined(slots[begin..pos], Holding(vs));
      Joined(slots[begin..pos] + Holding(vs), slots[pos..end]);
      ValuesCut(slots[begin..end], pos - begin);
      Subslices(pos);
    }

    /** Construct the new values in front and exchange them with the values before pos. */
    method InsertMovingLeft(pos: nat, vs: seq<T>) returns (at: nat)
      requires Valid() && begin <= pos <= end && |vs| <= FrontSpare()
      modifies `begin, slots
      ensures Valid() && slots == old(slots) && at == pos - |vs| && begin == old(begin) - |vs|
      ensures slots[begin..end] == old(SlotsWith(pos, vs))
    {
      ghost var behind := slots[pos..end];
      ConstructBefore(slots, begin, pos, vs);
      begin := begin - |vs|;
      at := pos - |vs|;
      assert slots[pos..end] == behind;
      SlicesJoined(slots, begin, pos, end, end);
    }

    /** Construct the new values at the back and exchange them with the values from pos on. */
    method InsertMovingRight(pos: nat, vs: seq<T>) returns (at: nat)
      requires Valid() && begin <= pos <= end && |vs| <= BackSpare()
      modifies `end, slots
      ensures Valid() && slots == old(slots) && at == pos && end == old(end) + |vs|
      ensures slots[begin..end] == old(SlotsWith(pos, vs))
    {
      ghost var before := slots[begin..pos];
      ConstructBehind(slots, pos, end, vs);
      end := end + |vs|;
      at := pos;
      assert slots[begin..pos] == before;
      SlicesJoined(slots, begin, pos, end, end);
      Associative(before, Holding(vs), old(slots[pos..end]));
    }

    /** The doubled capacity, doubled again until it is enough. */
    method CapacityFor(newSize: nat) returns (newCap: nat)
      ensures FirstDoubleFor(if slots.Length == 0 then 1 else slots.Length * 2, newSize, newCap) && newCap > 0
    {
      newCap := if slots.Length != 0 then slots.Length * 2 else 1;
      ghost var base, k := newCap, 0;
      DoubleNone(base);
      hide Power;
      while newSize > newCap
        invariant newCap > 0 && newCap == base * Power(2, k) && (k > 0 ==> base * Power(2, k - 1) < newSize)
        decreases newSize - newCap
      {
        DoubleMore(base, k, newCap);
        newCap := newCap * 2;
        k := k + 1;
      }
    }

    /** Build the values of o before pos, vs and the values of o from pos on in the new allocation a,
        the new values first. */
    static method BuildAround(a: array<Slot<T>>, vs: seq<T>, o: array<Slot<T>>, begin: nat, pos: nat, end: nat)
      requires a != o && begin <= pos <= end <= o.Length && end - begin + |vs| <= a.Length
      requires Filled(a, 0, 0) && Filled(o, begin, end)
      modifies a, o
      ensures Filled(a, 0, end - begin + |vs|)
      ensures a[0..end - begin + |vs|] == old(o[begin..pos]) + Holding(vs) + old(o[pos..end])
      ensures forall k :: 0 <= k < o.Length ==> o[k] == if begin <= k < end then Moved else Raw
    {
      var idx := pos - begin;
      ConstructRange(a, idx, vs);
      MoveRange(a, 0, o, begin, pos);
      ghost var s := o[..];
      MoveRange(a, idx + |vs|, o, pos, end);
      assert s[pos..end] == old(o[pos..end]);
      SlicesJoined(a, 0, idx, idx + |vs|, end - begin + |vs|);
    }

    /** Build the result in a new allocation and release the old one. */
    method InsertGrowing(pos: nat, vs: seq<T>) returns (at: nat)
      requires Valid() && begin <= pos <= end && FrontSpare() + BackSpare() < |vs|
      modifies this, slots
      ensures Valid() && fresh(slots) && begin == 0 && at == old(pos - begin)
      ensures FirstDoubleFor(if old(slots.Length) == 0 then 1 else old(slots.Length) * 2, old(Size()) + |vs|,
                             slots.Length)
      ensures slots[begin..end] == old(SlotsWith(pos, vs))
      ensures relocated == old(relocated + Size())
    {
      ghost var whole := SlotsWith(pos, vs);
      assert whole == slots[begin..pos] + Holding(vs) + slots[pos..end];
      var newSize := Size() + |vs|;
      var newCap := CapacityFor(newSize);
      assert newSize <= newCap;
      hide FirstDoubleFor, SlotsWith, Holding, Contents, Values;
      var idx := pos - begin;
      var newSlots := Allocate(newCap);
      BuildAround(newSlots, vs, slots, begin, pos, end);
      DestroyRange(slots, begin, end);
      Deallocate(slots);
      relocated := relocated + Size();
      slots := newSlots;
      begin, end := 0, newSize;
      at := idx;
    }

    /** Shift left for n spare slots at the back; the position goes with the values. */
    method MakeBackSpare(pos: nat, n: nat) returns (at: nat)
      requires Valid() && begin <= pos <= end && BackSpare() < n <= FrontSpare() + BackSpare()
      modifies this, slots
      ensures Valid() && slots == old(slots) && Contents() == old(Contents()) && BackSpare() == n
      ensures begin <= at <= end && at - begin == old(pos - begin) && Size() == old(Size())
    {
      ContentsIs();
      hide *;
      var diff := n - BackSpare();
      LeftShiftN(diff);
      at := pos - diff;
    }

    /** The shift and the growth: the values move left for room at the back, or to a new allocation. */
    method InsertWithRoom(pos: nat, vs: seq<T>) returns (at: nat)
      requires Valid() && begin <= pos <= end && 0 < |vs|
      modifies this, slots
      ensures Valid() && begin <= at <= end && at - begin == old(pos - begin)
      ensures var i := old(pos - begin); Contents() == old(Contents())[..i] + vs + old(Contents())[i..]
      ensures var cap, newSize := old(slots.Length), old(Size()) + |vs|;
        if newSize <= cap then slots == old(slots)
        else fresh(slots) && FirstDoubleFor(if cap == 0 then 1 else cap * 2, newSize, slots.Length)
    {
      ContentsIs();
      ContentsWith(pos, vs);
      hide *;
      at := pos;
      if BackSpare() < |vs| && FrontSpare() + BackSpare() >= |vs| {
        at := MakeBackSpare(at, |vs|);
        ContentsWith(at, vs);
      }
      if BackSpare() >= |vs| {
        at := InsertMovingRight(at, vs);
      } else {
        at := InsertGrowing(at, vs);
      }
      ContentsIs();
    }

    /** insert: all four ways put vs in front of pos. */
    method Insert(pos: nat, vs: seq<T>) returns (at: nat)
      requires Valid() && begin <= pos <= end
      modifies this, slots
      ensures Valid() && begin <= at <= end
      ensures at - begin == old(pos - begin)
      ensures var i := old(pos - begin); Contents() == old(Contents())[..i] + vs + old(Contents())[i..]
      ensures var cap, newSize := old(slots.Length), old(Size()) + |vs|;
        if newSize <= cap then slots == old(slots)
        else fresh(slots) && FirstDoubleFor(if cap == 0 then 1 else cap * 2, newSize, slots.Length)
    {
      ContentsIs();
      ContentsWith(pos, vs);
      if |vs| == 0 {
        return pos;
      }
      hide Values, Contents, SlotsWith, Holding, Filled, AllLive, Valid, FirstDoubleFor;
      if FrontSpare() >= |vs| && (pos - begin < end - pos || BackSpare() < |vs|) {
        at := InsertMovingLeft(pos, vs);
        ContentsIs();
        return;
      }
      at := InsertWithRoom(pos, vs);
    }

    static lemma SplicedEnds(c: seq<T>, v: T)
      ensures c[..0] + [v] + c[0..] == [v] + c && c[..|c|] + [v] + c[|c|..] == c + [v]
    {
    }

    lemma ContentsLength()
      requires Valid()
      ensures begin <= end <= slots.Length && |Contents()| == end - begin
    {
    }

    /** emplace */
    method Emplace(pos: nat, v: T) returns (at: nat)
      requires Valid() && begin <= pos <= end
      modifies this, slots
      ensures Valid() && (slots == old(slots) || fresh(slots)) && begin <= at < end
      ensures at - begin == old(pos - begin)
      ensures var i := old(pos - begin); Contents() == old(Contents())[..i] + [v] + old(Contents())[i..]
    {
      hide *;
      ContentsLength();
      SplicedEnds(Contents(), v);
      if pos == end {
        EmplaceBack(v);
        ContentsLength();
        at := end - 1;
      } else if pos == begin {
        EmplaceFront(v);
        ContentsLength();
        at := begin;
      } else {
        at := Insert(pos, [v]);
        ContentsLength();
      }
    }

    /** The shorter side closes the gap. */
    method EraseMovingRight(first: nat, last: nat)
      requires Valid() && begin <= first < last <= end
      modifies `begin, slots
      ensures Valid() && slots == old(slots) && begin == old(begin) + (last - first)
      ensures slots[begin..end] == old(slots[begin..first] + slots[last..end])
    {
      ghost var o := slots[..];
      var oldBegin := begin;
      begin := MoveBackward(slots, begin, first, last);
      assert slots[begin..last] == o[oldBegin..first];
      DestroyRange(slots, oldBegin, begin);
      assert slots[begin..end] == slots[begin..last] + slots[last..end];
    }

    method EraseMovingLeft(first: nat, last: nat)
      requires Valid() && begin <= first < last <= end
      modifies `end, slots
      ensures Valid() && slots == old(slots) && end == old(end) - (last - first)
      ensures slots[begin..end] == old(slots[begin..first] + slots[last..end])
    {
      ghost var o := slots[..];
      var newEnd := MoveForward(slots, last, end, first);
      assert slots[first..newEnd] == o[last..end];
      DestroyRange(slots, newEnd, end);
      end := newEnd;
      assert slots[begin..end] == slots[begin..first] + slots[first..end];
    }

    /** erase: the values from first up to last go, and the shorter side moves. */
    method Erase(first: nat, last: nat) returns (at: nat)
      requires Valid() && begin <= first <= end && begin <= last <= end
      modifies this, slots
      ensures Valid() && slots == old(slots) && begin <= at <= end
      ensures last <= first ==> at == last && Contents() == old(Contents())
      ensures first < last ==> at - begin == old(first - begin)
      ensures first < last ==> Contents() == old(Contents()[..first - begin] + Contents()[last - begin..])
    {
      if last <= first {
        return last;
      }
      var beginFirstDistance := first - begin;
      ContentsWithout(first, last);
      if beginFirstDistance < end - last {
        EraseMovingRight(first, last);
      } else {
        EraseMovingLeft(first, last);
      }
      at := begin + beginFirstDistance;
    }

    lemma ContentsWithout(first: nat, last: nat)
      requires Valid() && begin <= first <= last <= end
      ensures AllLive(slots[begin..first] + slots[last..end])
      ensures Values(slots[begin..first] + slots[last..end])
           == Contents()[..first - begin] + Contents()[last - begin..]
    {
      FilledPieces(slots, begin, end);
      ContentsIs();
      hide *;
      ghost var s := slots[begin..end];
      Subslices(first);
      Subslices(last);
      ValuesCut(s, first - begin);
      ValuesCut(s, last - begin);
      Joined(slots[begin..first], slots[last..end]);
    }

    // Capacity.

    method ReserveFrontSpare(newSpare: nat, expectedCap: nat)
      requires Valid()
      modifies this, slots
      ensures Valid() && Contents() == old(Contents()) && newSpare <= FrontSpare()
      ensures if newSpare + Size() <= old(slots.Length) then slots == old(slots)
              else fresh(slots) && slots.Length == Max(newSpare + Size(), expectedCap)
      ensures newSpare <= old(FrontSpare()) ==> begin == old(begin)
    {
      if newSpare <= FrontSpare() {
        return;
      }
      if newSpare <= FrontSpare() + BackSpare() {
        RightShiftN(newSpare - FrontSpare());
        return;
      }
      var newSlots := Allocate(Max(newSpare + Size(), expectedCap));
      ReserveTo(newSlots, newSpare);
    }

    method ReserveBackSpare(newSpare: nat, expectedCap: nat)
      requires Valid()
      modifies this, slots
      ensures Valid() && Contents() == old(Contents()) && newSpare <= BackSpare()
      ensures if newSpare + Size() <= old(slots.Length) then slots == old(slots)
              else fresh(slots) && slots.Length == Max(newSpare + Size(), expectedCap)
      ensures newSpare <= old(BackSpare()) ==> begin == old(begin)
    {
      if newSpare <= BackSpare() {
        return;
      }
      if newSpare <= FrontSpare() + BackSpare() {
        LeftShiftN(newSpare - BackSpare());
        return;
      }
      var newSlots := Allocate(Max(newSpare + Size(), expectedCap));
      ReserveTo(newSlots, 0);
    }

    method ShrinkToFit()
      requires Valid()
      modifies this, slots
      ensures Valid() && Contents() == old(Contents()) && FrontSpare() == 0 && BackSpare() == 0
      ensures if old(FrontSpare() == BackSpare() == 0) then slots == old(slots) else fresh(slots)
    {
      if FrontSpare() == 0 && BackSpare() == 0 {
        return;
      }
      if Size() > 0 {
        var newSlots := Allocate(Size());
        ReserveTo(newSlots, 0);
      } else {
        Deallocate(slots);
        slots := Allocate(0);
        begin, end := 0, 0;
      }
    }

    method Resize(count: nat, v: T)
      requires Valid()
      modifies this, slots
      ensures Valid()
      ensures if count <= old(slots.Length) then slots == old(slots) else fresh(slots) && slots.Length == count
      ensures Contents() == if count <= old(Size()) then old(Contents())[..count]
                            else old(Contents()) + seq(count - old(Size()), _ => v)
    {
      if Size() >= count {
        DestroyRange(slots, begin + count, end);
        end := begin + count;
        assert slots[begin..end] == old(slots[begin..end])[..count];
      } else {
        var more := count - Size();
        ReserveBackSpare(more, 0);
        ConstructBackAll(seq(more, _ => v));
      }
    }

    /** Construct values in the spare memory at the back. */
    method ConstructBackAll(vs: seq<T>)
      requires Valid() && |vs| <= BackSpare()
      modifies `end, slots
      ensures Valid() && slots == old(slots) && Contents() == old(Contents()) + vs
    {
      FilledPieces(slots, begin, end);
      Joined(slots[begin..end], Holding(vs));
      ConstructRange(slots, end, vs);
      end := end + |vs|;
      assert slots[begin..end] == old(slots[begin..end]) + Holding(vs);
    }

    /** assign: overwrite what is there, construct the rest, and shift or reallocate if it does not fit. */
    method AssignAll(vs: seq<T>)
      requires Valid()
      modifies this, slots
      ensures Valid() && Contents() == vs
      ensures if |vs| <= old(slots.Length) then slots == old(slots) else fresh(slots) && slots.Length == |vs|
    {
      if BackSpare() + Size() < |vs| {
        var diff := |vs| - BackSpare() - Size();
        if FrontSpare() >= diff {
          LeftShiftN(diff);
        } else {
          ClearAndGetCapNoLessThan(|vs|);
          ConstructBackAll(vs);
          return;
        }
      } else if Size() > |vs| {
        DestroyRange(slots, begin + |vs|, end);
        end := begin + |vs|;
      }
      Overwrite(vs);
    }

    /** Assign to the values that are there and construct the others behind them. */
    method Overwrite(vs: seq<T>)
      requires Valid() && Size() <= |vs| && |vs| - Size() <= BackSpare()
      modifies `end, slots
      ensures Valid() && slots == old(slots) && Contents() == vs
    {
      var mid := Size();
      AssignRange(slots, begin, vs[..mid]);
      ConstructBackAll(vs[mid..]);
      assert vs == vs[..mid] + vs[mid..];
    }

    method ClearAndGetCapNoLessThan(cap: nat)
      requires Valid()
      modifies this, slots
      ensures Valid() && Contents() == [] && BackSpare() >= cap
      ensures if cap <= old(slots.Length) then slots == old(slots) else fresh(slots) && slots.Length == cap
    {
      Clear();
      begin := 0;
      end := begin;
      if slots.Length < cap {
        if slots.Length != 0 {
          Deallocate(slots);
        }
        slots := Allocate(cap);
      }
    }
  }

  function Mirrored(s: Shape): Shape {
    Shape(s.back, s.size, s.front)
  }

  function PushedBack(s: Shape): Shape {
    if s.back > 0 then Shape(s.front, s.size + 1, s.back - 1)
    else if s.front > s.size then
      var n := HalfOrOne(s.front);
      Shape(s.front - n, s.size + 1, n - 1)
    else Shape(s.front, s.size + 1, s.Doubled() - s.Capacity() - 1)
  }

  function PushBackCost(s: Shape): nat {
    if s.back > 0 then 0 else s.size
  }

  // The amortised cost.

  lemma HalfIs(n: nat)
    ensures if n < 2 then HalfOrOne(n) == 1 else 2 * HalfOrOne(n) <= n <= 2 * HalfOrOne(n) + 1
  {
  }

  lemma BackStep(s: Shape)
    ensures s.back > 0 ==>
      Stepped(s, EmplaceBack) == Shape(s.front, s.size + 1, s.back - 1) && Cost(s, EmplaceBack) == 0
    ensures s.back == 0 && s.front > s.size ==>
      var n := HalfOrOne(s.front);
      n > 0 && Stepped(s, EmplaceBack) == Shape(s.front - n, s.size + 1, n - 1) && Cost(s, EmplaceBack) == s.size
    ensures s.back == 0 && s.front <= s.size ==>
      var cap := s.front + s.size + s.back;
      && Stepped(s, EmplaceBack) == Shape(s.front, s.size + 1, if cap == 0 then 0 else cap - 1)
      && Cost(s, EmplaceBack) == s.size
  {
  }

  lemma FrontStep(s: Shape)
    ensures s.front > 0 ==>
      Stepped(s, EmplaceFront) == Shape(s.front - 1, s.size + 1, s.back) && Cost(s, EmplaceFront) == 0
    ensures s.front == 0 && s.back > s.size ==>
      var n := HalfOrOne(s.back);
      n > 0 && Stepped(s, EmplaceFront) == Shape(n - 1, s.size + 1, s.back - n) && Cost(s, EmplaceFront) == s.size
    ensures s.front == 0 && s.back <= s.size ==>
      var cap := s.front + s.size + s.back;
      && Stepped(s, EmplaceFront) == Shape(if cap == 0 then 0 else cap - 1, s.size + 1, s.back)
      && Cost(s, EmplaceFront) == s.size
  {
  }

  datatype Op = EmplaceBack | EmplaceFront | PopFront | PopBack {
    predicate Emplaces() {
      EmplaceBack? || EmplaceFront?
    }
  }

  predicate Possible(s: Shape, op: Op) {
    op.Emplaces() || s.size > 0
  }

  function Stepped(s: Shape, op: Op): Shape
    requires Possible(s, op)
  {
    match op
    case EmplaceBack => PushedBack(s)
    case EmplaceFront => Mirrored(PushedBack(Mirrored(s)))
    case PopFront => Shape(s.front + 1, s.size - 1, s.back)
    case PopBack => Shape(s.front, s.size - 1, s.back + 1)
  }

  /** The values relocated by one step. */
  function Cost(s: Shape, op: Op): nat {
    match op
    case EmplaceBack => PushBackCost(s)
    case EmplaceFront => PushBackCost(Mirrored(s))
    case _ => 0
  }

  ghost predicate Runs(s: Shape, ops: seq<Op>)
    decreases |ops|
  {
    ops == [] || (Possible(s, ops[0]) && Runs(Stepped(s, ops[0]), ops[1..]))
  }

  ghost function Final(s: Shape, ops: seq<Op>): Shape
    requires Runs(s, ops)
    decreases |ops|
  {
    if ops == [] then s else Final(Stepped(s, ops[0]), ops[1..])
  }

  /** The values relocated during the run. */
  ghost function Relocations(s: Shape, ops: seq<Op>): nat
    requires Runs(s, ops)
    decreases |ops|
  {
    if ops == [] then 0 else Cost(s, ops[0]) + Relocations(Stepped(s, ops[0]), ops[1..])
  }

  ghost function Emplacements(ops: seq<Op>): nat {
    if ops == [] then 0 else (if ops[0].Emplaces() then 1 else 0) + Emplacements(ops[1..])
  }

  /** At one end: each relocation is paid for by an emplacement or by spare memory gained at the back. */
  lemma {:induction false} RelocationsPaid(s: Shape, ops: seq<Op>)
    requires Runs(s, ops) && forall k :: 0 <= k < |ops| ==> !ops[k].EmplaceFront?
    ensures Relocations(s, ops) + 2 * s.back <= 2 * (Emplacements(ops) + Final(s, ops).back)
    decreases |ops|
  {
    if ops != [] {
      RelocationsPaid(Stepped(s, ops[0]), ops[1..]);
    }
  }

  /** As a queue or a stack that starts empty: at most two relocations for each value emplaced and
      for each slot that is spare at the back in the end. */
  lemma AmortisedBound(ops: seq<Op>)
    requires Runs(Shape(0, 0, 0), ops) && forall k :: 0 <= k < |ops| ==> !ops[k].EmplaceFront?
    ensures Relocations(Shape(0, 0, 0), ops) <= 2 * (Emplacements(ops) + Final(Shape(0, 0, 0), ops).back)
  {
    RelocationsPaid(Shape(0, 0, 0), ops);
  }

  /** How many values an end has to be paid for: those that twice its spare memory does not cover. */
  function Uncovered(size: nat, spare: nat): nat {
    if size <= 2 * spare then 0 else size - 2 * spare
  }

  function Potential(s: Shape): nat {
    Uncovered(s.size, s.front) + Uncovered(s.size, s.back)
  }

  lemma PushBackPaid(s: Shape)
    ensures PushBackCost(s) + Potential(PushedBack(s)) <= Potential(s) + 4
  {
  }

  /** Four for each emplacement pay for every step at either end. */
  lemma StepPaid(s: Shape, op: Op)
    requires Possible(s, op)
    ensures Cost(s, op) + Potential(Stepped(s, op)) <= Potential(s) + if op.Emplaces() then 4 else 0
  {
    if op.EmplaceBack? {
      PushBackPaid(s);
    } else if op.EmplaceFront? {
      PushBackPaid(Mirrored(s));
    }
  }

  lemma {:induction false} AllPaid(s: Shape, ops: seq<Op>)
    requires Runs(s, ops)
    ensures Relocations(s, ops) + Potential(Final(s, ops)) <= Potential(s) + 4 * Emplacements(ops)
    decreases |ops|
  {
    if ops != [] {
      StepPaid(s, ops[0]);
      AllPaid(Stepped(s, ops[0]), ops[1..]);
      hide Potential, Stepped, Cost;
    }
  }

  /** At both ends: whatever the run from an empty buffer, at most four relocations for each value
      emplaced. */
  lemma LinearCost(ops: seq<Op>)
    requires Runs(Shape(0, 0, 0), ops)
    ensures Relocations(Shape(0, 0, 0), ops) <= 4 * Emplacements(ops)
  {
    AllPaid(Shape(0, 0, 0), ops);
  }
}
