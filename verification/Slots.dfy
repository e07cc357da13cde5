/** Raw storage: every slot is raw memory, holds a value, or holds an object whose value has been
    moved out.  Constructing needs raw memory; assigning, moving from and destroying need an object. */
module Slots {

  datatype Slot<+T> = Raw | Moved | Live(value: T)

  ghost predicate AllLive<T>(s: seq<Slot<T>>) {
    forall k :: 0 <= k < |s| ==> s[k].Live?
  }

  ghost predicate AllRaw<T>(s: seq<Slot<T>>) {
    forall k :: 0 <= k < |s| ==> s[k].Raw?
  }

  ghost function Values<T>(s: seq<Slot<T>>): (vs: seq<T>)
    requires AllLive(s)
  {
    seq(|s|, i requires 0 <= i < |s| => s[i].value)
  }

  lemma ValuesCut<T>(s: seq<Slot<T>>, i: nat)
    requires AllLive(s) && i <= |s|
    ensures AllLive(s[..i]) && Values(s[..i]) == Values(s)[..i]
    ensures AllLive(s[i..]) && Values(s[i..]) == Values(s)[i..]
  {
  }

  lemma SlicesJoined<X>(a: array<X>, h: nat, i: nat, j: nat, k: nat)
    requires h <= i <= j <= k <= a.Length
    ensures a[h..k] == a[h..i] + a[i..j] + a[j..k]
  {
  }

  lemma OneSlice<X>(a: array<X>, i: nat, j: nat)
    requires i <= j <= a.Length
    ensures a[..][i..j] == a[i..j]
  {
  }

  lemma SlicesOf<T>(a: array<Slot<T>>, i: nat, j: nat, k: nat)
    requires i <= j <= k <= a.Length
    ensures a[..][i..j] == a[i..j] && a[..][j..k] == a[j..k] && a[..][i..k] == a[i..k] && a[..][..i] == a[..i]
  {
  }

  /** The slots that hold the values vs. */
  ghost function Holding<T>(vs: seq<T>): (s: seq<Slot<T>>)
    ensures AllLive(s) && Values(s) == vs
  {
    seq(|vs|, i requires 0 <= i < |vs| => Live(vs[i]))
  }

  lemma Joined<T>(s: seq<Slot<T>>, t: seq<Slot<T>>)
    requires AllLive(s) && AllLive(t)
    ensures AllLive(s + t) && Values(s + t) == Values(s) + Values(t)
  {
  }

  // One slot.

  method Construct<T>(a: array<Slot<T>>, i: nat, v: T)
    requires i < a.Length && a[i].Raw?
    modifies a
    ensures a[i] == Live(v) && forall k :: 0 <= k < a.Length && k != i ==> a[k] == old(a[k])
  {
    a[i] := Live(v);
  }

  method Assign<T>(a: array<Slot<T>>, i: nat, v: T)
    requires i < a.Length && !a[i].Raw?
    modifies a
    ensures a[i] == Live(v) && forall k :: 0 <= k < a.Length && k != i ==> a[k] == old(a[k])
  {
    a[i] := Live(v);
  }

  /** Move the value of a[i] into a temporary. */
  method Take<T>(a: array<Slot<T>>, i: nat) returns (v: T)
    requires i < a.Length && a[i].Live?
    modifies a
    ensures a[i] == Moved && forall k :: 0 <= k < a.Length && k != i ==> a[k] == old(a[k])
    ensures v == old(a[i].value)
  {
    v := a[i].value;
    a[i] := Moved;
  }

  /** Construct b[j] by moving the value of a[i]. */
  method MoveConstruct<T>(b: array<Slot<T>>, j: nat, a: array<Slot<T>>, i: nat)
    requires i < a.Length && j < b.Length && a[i].Live? && b[j].Raw?
    modifies a, b
    ensures b[j] == old(a[i]) && a[i] == Moved
    ensures forall k :: 0 <= k < a.Length && k != i && (a == b ==> k != j) ==> a[k] == old(a[k])
    ensures forall k :: 0 <= k < b.Length && k != j && (a == b ==> k != i) ==> b[k] == old(b[k])
  {
    b[j] := a[i];
    a[i] := Moved;
  }

  /** Assign a[j] by moving the value of a[i]. */
  method MoveAssign<T>(a: array<Slot<T>>, j: nat, i: nat)
    requires i < a.Length && j < a.Length && i != j && a[i].Live? && !a[j].Raw?
    modifies a
    ensures a[j] == old(a[i]) && a[i] == Moved
    ensures forall k :: 0 <= k < a.Length && k != i && k != j ==> a[k] == old(a[k])
  {
    a[j] := a[i];
    a[i] := Moved;
  }

  method Destroy<T>(a: array<Slot<T>>, i: nat)
    requires i < a.Length && !a[i].Raw?
    modifies a
    ensures a[i] == Raw && forall k :: 0 <= k < a.Length && k != i ==> a[k] == old(a[k])
  {
    a[i] := Raw;
  }

  // Ranges.

  method DestroyRange<T>(a: array<Slot<T>>, begin: nat, end: nat)
    requires begin <= end <= a.Length
    requires forall k :: begin <= k < end ==> !a[k].Raw?
    modifies a
    ensures forall k :: begin <= k < end ==> a[k].Raw?
    ensures forall k :: 0 <= k < begin || end <= k < a.Length ==> a[k] == old(a[k])
  {
    var i := end;
    while i != begin
      invariant begin <= i <= end
      invariant forall k :: i <= k < end ==> a[k].Raw?
      invariant forall k :: 0 <= k < i || end <= k < a.Length ==> a[k] == old(a[k])
    {
      i := i - 1;
      Destroy(a, i);
    }
  }

  method ConstructRange<T>(a: array<Slot<T>>, begin: nat, vs: seq<T>)
    requires begin + |vs| <= a.Length
    requires forall k :: begin <= k < begin + |vs| ==> a[k].Raw?
    modifies a
    ensures a[begin..begin + |vs|] == Holding(vs)
    ensures forall k :: 0 <= k < begin || begin + |vs| <= k < a.Length ==> a[k] == old(a[k])
    ensures forall k :: begin <= k < begin + |vs| ==> a[k].Live?
  {
    var i := 0;
    while i != |vs|
      invariant i <= |vs|
      invariant a[begin..begin + i] == Holding(vs[..i])
      invariant forall k :: begin <= k < begin + i ==> a[k].Live?
      invariant forall k :: 0 <= k < begin || begin + i <= k < a.Length ==> a[k] == old(a[k])
    {
      Construct(a, begin + i, vs[i]);
      assert vs[..i + 1] == vs[..i] + [vs[i]];
      i := i + 1;
    }
    assert vs[..i] == vs;
  }

  method AssignRange<T>(a: array<Slot<T>>, begin: nat, vs: seq<T>)
    requires begin + |vs| <= a.Length
    requires forall k :: begin <= k < begin + |vs| ==> !a[k].Raw?
    modifies a
    ensures a[begin..begin + |vs|] == Holding(vs)
    ensures forall k :: 0 <= k < begin || begin + |vs| <= k < a.Length ==> a[k] == old(a[k])
    ensures forall k :: begin <= k < begin + |vs| ==> a[k].Live?
  {
    var i := 0;
    while i != |vs|
      invariant i <= |vs|
      invariant a[begin..begin + i] == Holding(vs[..i])
      invariant forall k :: begin <= k < begin + i ==> a[k].Live?
      invariant forall k :: 0 <= k < begin || begin + i <= k < a.Length ==> a[k] == old(a[k])
    {
      ghost var done := a[begin..begin + i];
      Assign(a, begin + i, vs[i]);
      assert a[begin..begin + i + 1] == done + [Live(vs[i])];
      HoldingMore(vs, i);
      i := i + 1;
    }
    assert vs[..i] == vs;
  }

  lemma HoldingMore<T>(vs: seq<T>, i: nat)
    requires i < |vs|
    ensures Holding(vs[..i + 1]) == Holding(vs[..i]) + [Live(vs[i])]
  {
  }

  /** Construct the slots of b from begin on by moving the values of a from first up to last. */
  method MoveRange<T>(b: array<Slot<T>>, begin: nat, a: array<Slot<T>>, first: nat, last: nat)
    requires a != b && first <= last <= a.Length && begin + (last - first) <= b.Length
    requires forall k :: first <= k < last ==> a[k].Live?
    requires forall k :: begin <= k < begin + (last - first) ==> b[k].Raw?
    modifies a, b
    ensures b[begin..begin + (last - first)] == old(a[first..last])
    ensures forall k :: first <= k < last ==> a[k] == Moved
    ensures forall k :: 0 <= k < first || last <= k < a.Length ==> a[k] == old(a[k])
    ensures forall k :: 0 <= k < begin || begin + (last - first) <= k < b.Length ==> b[k] == old(b[k])
    ensures forall k :: begin <= k < begin + (last - first) ==> b[k].Live?
  {
    var i := 0;
    while first + i != last
      invariant first + i <= last
      invariant b[begin..begin + i] == old(a[first..first + i])
      invariant forall k :: begin <= k < begin + i ==> b[k].Live?
      invariant forall k :: first <= k < first + i ==> a[k] == Moved
      invariant forall k :: 0 <= k < first || first + i <= k < a.Length ==> a[k] == old(a[k])
      invariant forall k :: 0 <= k < begin || begin + i <= k < b.Length ==> b[k] == old(b[k])
    {
      MoveConstruct(b, begin + i, a, first + i);
      i := i + 1;
    }
  }

  // Moving within one allocation.

  /** Of the values o[begin..end], the first i have moved n slots to the left. */
  ghost predicate LeftShifting<T>(a: array<Slot<T>>, o: seq<Slot<T>>, begin: nat, end: nat, n: nat, i: nat)
    reads a
  {
    && a.Length == |o| && 0 < n <= begin <= end <= |o| && i <= end - begin
    && (forall k :: begin - n <= k < begin - n + i ==> a[k] == o[k + n])
    && (forall k :: begin <= k < begin + i && begin - n + i <= k ==> a[k] == Moved)
    && (forall k :: 0 <= k < begin - n || begin - n + i <= k < begin || begin + i <= k < a.Length ==> a[k] == o[k])
  }

  /** Of the values o[begin..end], the last i have moved n slots to the right. */
  ghost predicate RightShifting<T>(a: array<Slot<T>>, o: seq<Slot<T>>, begin: nat, end: nat, n: nat, i: nat)
    reads a
  {
    && a.Length == |o| && 0 < n && begin <= end && end + n <= |o| && i <= end - begin
    && (forall k :: end + n - i <= k < end + n ==> a[k] == o[k - n])
    && (forall k :: end - i <= k < end && k < end + n - i ==> a[k] == Moved)
    && (forall k :: 0 <= k < end - i || end <= k < end + n - i || end + n <= k < a.Length ==> a[k] == o[k])
  }

  /** What a finished shift of the values from first up to last has done to the slots. */
  lemma ShiftedLeft<T>(a: array<Slot<T>>, o: seq<Slot<T>>, first: nat, last: nat, to: nat)
    requires to < first <= last && LeftShifting(a, o, first, last, first - to, last - first)
    requires forall k :: first <= k < last ==> o[k].Live?
    ensures var end := to + (last - first);
      && a[to..end] == o[first..last]
      && (forall k :: to <= k < end ==> a[k].Live?)
      && (forall k :: end <= k < last ==> a[k] == if first <= k then Moved else o[k])
      && (forall k :: 0 <= k < to || last <= k < a.Length ==> a[k] == o[k])
  {
    forall k: nat | k < last - first ensures a[to..to + (last - first)][k] == o[first..last][k] {
      assert a[to + k] == o[first + k];
    }
  }

  lemma ShiftedRight<T>(a: array<Slot<T>>, o: seq<Slot<T>>, first: nat, last: nat, to: nat)
    requires first <= last < to && RightShifting(a, o, first, last, to - last, last - first)
    requires forall k :: first <= k < last ==> o[k].Live?
    ensures var begin := to - (last - first);
      && a[begin..to] == o[first..last]
      && (forall k :: begin <= k < to ==> a[k].Live?)
      && (forall k :: first <= k < begin ==> a[k] == if k < last then Moved else o[k])
      && (forall k :: 0 <= k < first || to <= k < a.Length ==> a[k] == o[k])
  {
    var begin := to - (last - first);
    forall k: nat | k < last - first ensures a[begin..to][k] == o[first..last][k] {
      assert a[begin + k] == o[first + k];
    }
  }

  lemma LeftShiftStart<T>(a: array<Slot<T>>, first: nat, last: nat, to: nat)
    requires to < first <= last <= a.Length
    ensures LeftShifting(a, a[..], first, last, first - to, 0)
  {
  }

  method ForwardStep<T>(a: array<Slot<T>>, first: nat, ghost last: nat, dFirst: nat, i: nat, ghost o: seq<Slot<T>>)
    requires dFirst < first <= first + i < last <= |o| && forall k :: dFirst <= k < last ==> o[k].Live?
    requires LeftShifting(a, o, first, last, first - dFirst, i)
    modifies a
    ensures LeftShifting(a, o, first, last, first - dFirst, i + 1)
  {
    MoveAssign(a, dFirst + i, first + i);
  }

  /** move: the values from first up to last go to the constructed slots from dFirst on. */
  method MoveForward<T>(a: array<Slot<T>>, first: nat, last: nat, dFirst: nat) returns (dLast: nat)
    requires dFirst < first <= last <= a.Length
    requires forall k :: dFirst <= k < last ==> a[k].Live?
    modifies a
    ensures dLast == dFirst + (last - first) && a[dFirst..dLast] == old(a[first..last])
    ensures forall k :: dFirst <= k < dLast ==> a[k].Live?
    ensures forall k :: dLast <= k < last ==> a[k] == if first <= k then Moved else old(a[k])
    ensures forall k :: 0 <= k < dFirst || last <= k < a.Length ==> a[k] == old(a[k])
  {
    ghost var o := a[..];
    LeftShiftStart(a, first, last, dFirst);
    hide LeftShifting;
    var i := 0;
    while first + i != last
      invariant i <= last - first && LeftShifting(a, o, first, last, first - dFirst, i)
    {
      ForwardStep(a, first, last, dFirst, i, o);
      i := i + 1;
    }
    dLast := dFirst + i;
    ShiftedLeft(a, o, first, last, dFirst);
  }

  method BackwardStep<T>(a: array<Slot<T>>, ghost o: seq<Slot<T>>, ghost first: nat, last: nat, dLast: nat, i: nat)
    requires first <= last < dLast <= a.Length == |o| && 0 < i <= last - first
    requires forall k :: first <= k < dLast ==> o[k].Live?
    requires RightShifting(a, o, first, last, dLast - last, i - 1)
    modifies a
    ensures RightShifting(a, o, first, last, dLast - last, i)
  {
    MoveAssign(a, dLast - i, last - i);
  }

  /** move_backward: the values from first up to last go to the constructed slots before dLast. */
  method MoveBackward<T>(a: array<Slot<T>>, first: nat, last: nat, dLast: nat) returns (dFirst: nat)
    requires first <= last < dLast <= a.Length
    requires forall k :: first <= k < dLast ==> a[k].Live?
    modifies a
    ensures dFirst == dLast - (last - first) && a[dFirst..dLast] == old(a[first..last])
    ensures forall k :: dFirst <= k < dLast ==> a[k].Live?
    ensures forall k :: first <= k < dFirst ==> a[k] == if k < last then Moved else old(a[k])
    ensures forall k :: 0 <= k < first || dLast <= k < a.Length ==> a[k] == old(a[k])
  {
    ghost var o := a[..];
    var i := 0;
    while last - i != first
      invariant RightShifting(a, o, first, last, dLast - last, i)
    {
      i := i + 1;
      BackwardStep(a, o, first, last, dLast, i);
    }
    dFirst := dLast - i;
    ShiftedRight(a, o, first, last, dLast);
    assert a[dFirst..dLast] == o[first..last] == old(a[first..last]);
    hide RightShifting;
  }

  // Shifting all values of an allocation, over raw memory.

  ghost predicate Filled<T>(a: array<Slot<T>>, begin: nat, end: nat)
    reads a
  {
    && begin <= end <= a.Length
    && (forall k :: 0 <= k < begin || end <= k < a.Length ==> a[k].Raw?)
    && (forall k :: begin <= k < end ==> a[k].Live?)
  }

  /** The slots before anything moves: values from begin up to end, raw memory around them. */
  ghost predicate Source<T>(o: seq<Slot<T>>, begin: nat, end: nat) {
    && begin <= end <= |o|
    && (forall k :: 0 <= k < begin || end <= k < |o| ==> o[k].Raw?)
    && (forall k :: begin <= k < end ==> o[k].Live?)
  }

  method ConstructLeft<T>(a: array<Slot<T>>, begin: nat, n: nat, i: nat, ghost o: seq<Slot<T>>, ghost end: nat)
    requires LeftShifting(a, o, begin, end, n, i) && Source(o, begin, end) && i < n && begin + i < end
    modifies a
    ensures LeftShifting(a, o, begin, end, n, i + 1)
  {
    MoveConstruct(a, begin - n + i, a, begin + i);
  }

  method AssignLeft<T>(a: array<Slot<T>>, begin: nat, n: nat, i: nat, ghost o: seq<Slot<T>>, ghost end: nat)
    requires LeftShifting(a, o, begin, end, n, i) && Source(o, begin, end) && n <= i && begin + i < end
    modifies a
    ensures LeftShifting(a, o, begin, end, n, i + 1)
  {
    MoveAssign(a, begin - n + i, begin + i);
  }

  method ConstructRight<T>(a: array<Slot<T>>, end: nat, n: nat, i: nat, ghost o: seq<Slot<T>>, ghost begin: nat)
    requires 0 < i <= n && begin + i <= end && Source(o, begin, end) && RightShifting(a, o, begin, end, n, i - 1)
    modifies a
    ensures RightShifting(a, o, begin, end, n, i)
  {
    MoveConstruct(a, end + n - i, a, end - i);
  }

  method AssignRight<T>(a: array<Slot<T>>, end: nat, n: nat, i: nat, ghost o: seq<Slot<T>>, ghost begin: nat)
    requires n < i && begin + i <= end && Source(o, begin, end) && RightShifting(a, o, begin, end, n, i - 1)
    modifies a
    ensures RightShifting(a, o, begin, end, n, i)
  {
    MoveAssign(a, end + n - i, end - i);
  }

  lemma ShiftStart<T>(a: array<Slot<T>>, begin: nat, end: nat, n: nat)
    requires Filled(a, begin, end) && 0 < n
    ensures Source(a[..], begin, end)
    ensures n <= begin ==> LeftShifting(a, a[..], begin, end, n, 0)
    ensures end + n <= a.Length ==> RightShifting(a, a[..], begin, end, n, 0)
  {
  }

  lemma FilledPieces<T>(a: array<Slot<T>>, begin: nat, end: nat)
    requires begin <= end <= a.Length
    ensures Filled(a, begin, end) <==> AllRaw(a[..begin]) && AllLive(a[begin..end]) && AllRaw(a[end..])
  {
    if AllRaw(a[..begin]) && AllLive(a[begin..end]) && AllRaw(a[end..]) {
      forall k | 0 <= k < a.Length
        ensures if begin <= k < end then a[k].Live? else a[k].Raw?
      {
        assert k < begin ==> a[..begin][k].Raw?;
        assert begin <= k < end ==> a[begin..end][k - begin].Live?;
        assert k >= end ==> a[end..][k - end].Raw?;
      }
    }
  }

  /** The first loop of a shift: m values go to raw slots. */
  method ConstructLeftRun<T>(a: array<Slot<T>>, begin: nat, n: nat, m: nat, ghost o: seq<Slot<T>>, ghost end: nat)
    requires LeftShifting(a, o, begin, end, n, 0) && Source(o, begin, end) && begin + m <= end && m <= n
    modifies a
    ensures LeftShifting(a, o, begin, end, n, m)
  {
    hide *;
    var i := 0;
    while i < m
      invariant LeftShifting(a, o, begin, end, n, i) && i <= m
    {
      ConstructLeft(a, begin, n, i, o, end);
      i := i + 1;
    }
  }

  /** The second loop: the other values go to slots that have been moved from. */
  method AssignLeftRun<T>(a: array<Slot<T>>, begin: nat, end: nat, n: nat, ghost o: seq<Slot<T>>)
    requires begin + n <= end && LeftShifting(a, o, begin, end, n, n) && Source(o, begin, end)
    modifies a
    ensures LeftShifting(a, o, begin, end, n, end - begin)
  {
    hide *;
    var i := n;
    while i < end - begin
      invariant LeftShifting(a, o, begin, end, n, i) && n <= i <= end - begin
    {
      AssignLeft(a, begin, n, i, o, end);
      i := i + 1;
    }
  }

  /** Over a distance no longer than the values themselves: some are constructed, the others assigned. */
  method ShiftLeftOverlapping<T>(a: array<Slot<T>>, begin: nat, end: nat, n: nat, ghost values: seq<Slot<T>>)
    requires Filled(a, begin, end) && 0 < n <= begin && n <= end - begin
    requires values == a[begin..end]
    modifies a
    ensures Filled(a, begin - n, end - n) && a[begin - n..end - n] == values
  {
    ghost var o := a[..];
    OneSlice(a, begin, end);
    ShiftStart(a, begin, end, n);
    hide *;
    ConstructLeftRun(a, begin, n, n, o, end);
    AssignLeftRun(a, begin, end, n, o);
    DestroyMovedLeft(a, o, begin, end, n, end - n);
  }

  method ShiftLeftApart<T>(a: array<Slot<T>>, begin: nat, end: nat, n: nat, ghost values: seq<Slot<T>>)
    requires Filled(a, begin, end) && n <= begin && end - begin < n
    requires values == a[begin..end]
    modifies a
    ensures Filled(a, begin - n, end - n) && a[begin - n..end - n] == values
  {
    ghost var o := a[..];
    OneSlice(a, begin, end);
    ShiftStart(a, begin, end, n);
    hide *;
    ConstructLeftRun(a, begin, n, end - begin, o, end);
    DestroyMovedLeft(a, o, begin, end, n, begin);
  }

  /** The moved-from slots, which start at from, become raw again. */
  method DestroyMovedLeft<T>(a: array<Slot<T>>, ghost o: seq<Slot<T>>, ghost begin: nat, end: nat, ghost n: nat, from: nat)
    requires begin <= end && LeftShifting(a, o, begin, end, n, end - begin)
    requires n <= end && from == if begin < end - n then end - n else begin
    requires Source(o, begin, end)
    modifies a
    ensures Filled(a, begin - n, end - n) && a[begin - n..end - n] == o[begin..end]
  {
    ShiftedLeft(a, o, begin, end, begin - n);
    DestroyRange(a, from, end);
    assert a[begin - n..end - n] == o[begin..end];
  }

  method ConstructRightRun<T>(a: array<Slot<T>>, end: nat, n: nat, m: nat, ghost o: seq<Slot<T>>, ghost begin: nat)
    requires RightShifting(a, o, begin, end, n, 0) && Source(o, begin, end) && begin + m <= end && m <= n
    modifies a
    ensures RightShifting(a, o, begin, end, n, m)
  {
    hide *;
    var i := 1;
    while i <= m
      invariant 1 <= i <= m + 1 && RightShifting(a, o, begin, end, n, i - 1)
    {
      ConstructRight(a, end, n, i, o, begin);
      i := i + 1;
    }
  }

  method AssignRightRun<T>(a: array<Slot<T>>, begin: nat, end: nat, n: nat, ghost o: seq<Slot<T>>)
    requires begin + n <= end && RightShifting(a, o, begin, end, n, n) && Source(o, begin, end)
    modifies a
    ensures RightShifting(a, o, begin, end, n, end - begin)
  {
    hide *;
    var i := n + 1;
    while i <= end - begin
      invariant n < i <= end - begin + 1 && RightShifting(a, o, begin, end, n, i - 1)
    {
      AssignRight(a, end, n, i, o, begin);
      i := i + 1;
    }
  }

  method ShiftRightOverlapping<T>(a: array<Slot<T>>, begin: nat, end: nat, n: nat, ghost values: seq<Slot<T>>)
    requires Filled(a, begin, end) && 0 < n && end + n <= a.Length && n <= end - begin
    requires values == a[begin..end]
    modifies a
    ensures Filled(a, begin + n, end + n) && a[begin + n..end + n] == values
  {
    ghost var o := a[..];
    OneSlice(a, begin, end);
    ShiftStart(a, begin, end, n);
    hide *;
    ConstructRightRun(a, end, n, n, o, begin);
    AssignRightRun(a, begin, end, n, o);
    DestroyMovedRight(a, o, begin, end, n, begin + n);
  }

  method ShiftRightApart<T>(a: array<Slot<T>>, begin: nat, end: nat, n: nat, ghost values: seq<Slot<T>>)
    requires Filled(a, begin, end) && end + n <= a.Length && end - begin < n
    requires values == a[begin..end]
    modifies a
    ensures Filled(a, begin + n, end + n) && a[begin + n..end + n] == values
  {
    ghost var o := a[..];
    OneSlice(a, begin, end);
    ShiftStart(a, begin, end, n);
    hide *;
    ConstructRightRun(a, end, n, end - begin, o, begin);
    DestroyMovedRight(a, o, begin, end, n, end);
  }

  /** The moved-from slots, which end at to, become raw again. */
  method DestroyMovedRight<T>(a: array<Slot<T>>, ghost o: seq<Slot<T>>, begin: nat, ghost end: nat, ghost n: nat, to: nat)
    requires begin <= end && RightShifting(a, o, begin, end, n, end - begin)
    requires to == if begin + n < end then begin + n else end
    requires Source(o, begin, end)
    modifies a
    ensures Filled(a, begin + n, end + n) && a[begin + n..end + n] == o[begin..end]
  {
    ShiftedRight(a, o, begin, end, end + n);
    DestroyRange(a, begin, to);
    assert a[begin + n..end + n] == o[begin..end];
  }

  // Rotation.

  method SwapSlots<T>(a: array<Slot<T>>, i: nat, j: nat)
    requires i < a.Length && j < a.Length && a[i].Live? && a[j].Live?
    modifies a
    ensures a[..] == old(a[..])[i := old(a[j])][j := old(a[i])]
  {
    a[i], a[j] := a[j], a[i];
  }

  /** The state of a rotation of low + high, which began at first: high has come to the front up to
      read, and the rest of low follows in two pieces that are still to be exchanged. */
  ghost predicate Rotating<X>(s: seq<X>, first: nat, write: nat, next: nat, read: nat, last: nat, low: seq<X>,
                              high: seq<X>)
  {
    && first <= write <= next <= read <= last <= |s| && read - write == |low| && last - first == |low| + |high|
    && s[first..write] == high[..write - first] && s[read..last] == high[write - first..]
    && s[next..read] + s[write..next] == low
  }

  lemma RotateStep<X>(s: seq<X>, first: nat, write: nat, next: nat, read: nat, last: nat, low: seq<X>, high: seq<X>)
    requires Rotating(s, first, write, next, read, last, low, high) && read < last && low != []
    ensures Rotating(s[write := s[read]][read := s[write]], first, write + 1, if write == next then read else next,
                     read + 1, last, low, high)
  {
    var r := s[write := s[read]][read := s[write]];
    var n := if write == next then read else next;
    var x := s[write];
    assert s[read] == high[write - first] by { assert s[read..last][0] == high[write - first..][0]; }
    assert r[first..write + 1] == s[first..write] + [s[read]];
    assert r[read + 1..last] == s[read + 1..last] == high[write + 1 - first..] by {
      assert s[read + 1..last] == s[read..last][1..];
    }
    assert s[n..read] + ([x] + s[write + 1..n]) == low by {
      if write == next {
        assert s[write..read] == [x] + s[write + 1..read] && s[next..read] + s[write..next] == s[write..read];
      } else {
        assert s[write..next] == [x] + s[write + 1..next];
      }
    }
    assert r[n..read + 1] == s[n..read] + [x] && r[write + 1..n] == s[write + 1..n];
    assert r[n..read + 1] + r[write + 1..n] == s[n..read] + ([x] + s[write + 1..n]);
  }

  lemma RotateStart<X>(s: seq<X>, first: nat, middle: nat, last: nat)
    requires first <= middle <= last <= |s|
    ensures Rotating(s, first, first, first, middle, last, s[first..middle], s[middle..last])
  {
    assert s[first..middle] + s[first..first] == s[first..middle];
  }

  /** The loop has moved high to the front; exchanging the two pieces of low completes the rotation. */
  lemma RotateEnd<X>(s: seq<X>, first: nat, write: nat, next: nat, last: nat, low: seq<X>, high: seq<X>, r: seq<X>)
    requires Rotating(s, first, write, next, last, last, low, high) && |r| == |s|
    requires r[write..last] == s[next..last] + s[write..next] && r[..write] == s[..write]
    ensures r[first..last] == high + low
  {
    assert r[first..last] == r[first..write] + r[write..last];
    assert r[first..write] == r[..write][first..] == s[first..write];
  }

  lemma RotatingBounds<X>(s: seq<X>, first: nat, write: nat, next: nat, read: nat, last: nat, low: seq<X>, high: seq<X>)
    requires Rotating(s, first, write, next, read, last, low, high)
    ensures first <= write <= next <= read <= last <= |s| && read - write == |low|
  {
  }

  /** The state of a rotation in place; o is what the slots held before. */
  ghost predicate Turning<T>(s: seq<Slot<T>>, o: seq<Slot<T>>, first: nat, write: nat, next: nat, read: nat, last: nat,
                             low: seq<Slot<T>>, high: seq<Slot<T>>)
  {
    && |s| == |o| && Rotating(s, first, write, next, read, last, low, high)
    && s[..first] == o[..first] && s[last..] == o[last..] && forall k :: first <= k < last ==> s[k].Live?
  }

  lemma TurningStart<T>(o: seq<Slot<T>>, first: nat, middle: nat, last: nat)
    requires first <= middle <= last <= |o| && forall k :: first <= k < last ==> o[k].Live?
    ensures Turning(o, o, first, first, first, middle, last, o[first..middle], o[middle..last])
  {
    RotateStart(o, first, middle, last);
  }

  lemma TurningStep<T>(s: seq<Slot<T>>, o: seq<Slot<T>>, first: nat, write: nat, next: nat, read: nat, last: nat,
                       low: seq<Slot<T>>, high: seq<Slot<T>>)
    requires Turning(s, o, first, write, next, read, last, low, high) && read < last && low != []
    ensures first <= write <= next <= read && s[write].Live? && s[read].Live?
    ensures Turning(s[write := s[read]][read := s[write]], o, first, write + 1, if write == next then read else next,
                    read + 1, last, low, high)
  {
    RotatingBounds(s, first, write, next, read, last, low, high);
    RotateStep(s, first, write, next, read, last, low, high);
    hide Rotating;
    var r := s[write := s[read]][read := s[write]];
    assert r[..first] == s[..first] && r[last..] == s[last..];
  }

  /** One exchange of the loop. */
  method TurnOnce<T>(a: array<Slot<T>>, write: nat, read: nat, ghost o: seq<Slot<T>>, ghost first: nat, ghost next: nat,
                     ghost last: nat, ghost low: seq<Slot<T>>, ghost high: seq<Slot<T>>)
    requires Turning(a[..], o, first, write, next, read, last, low, high) && read < last <= a.Length && low != []
    modifies a
    ensures Turning(a[..], o, first, write + 1, if write == next then read else next, read + 1, last, low, high)
  {
    ghost var s := a[..];
    TurningStep(s, o, first, write, next, read, last, low, high);
    hide *;
    assert s[write] == a[write] && s[read] == a[read];
    SwapSlots(a, write, read);
  }

  lemma TurningBounds<T>(s: seq<Slot<T>>, o: seq<Slot<T>>, first: nat, write: nat, next: nat, read: nat, last: nat,
                         low: seq<Slot<T>>, high: seq<Slot<T>>)
    requires Turning(s, o, first, write, next, read, last, low, high)
    ensures first <= write <= next <= read <= last <= |s| == |o| && read - write == |low|
    ensures Rotating(s, first, write, next, read, last, low, high)
    ensures s[..first] == o[..first] && s[last..] == o[last..] && forall k :: first <= k < last ==> s[k].Live?
  {
  }

  /** The loop of rotate. */
  method RotateLoop<T>(a: array<Slot<T>>, first: nat, middle: nat, last: nat, ghost low: seq<Slot<T>>,
                       ghost high: seq<Slot<T>>)
    returns (write: nat, next: nat)
    requires middle <= last && low != []
    requires Turning(a[..], a[..], first, first, first, middle, last, low, high)
    modifies a
    ensures Turning(a[..], old(a[..]), first, write, next, last, last, low, high)
  {
    hide *;
    ghost var o := a[..];
    var read := middle;
    write, next := first, first;
    while read != last
      invariant read <= last && Turning(a[..], o, first, write, next, read, last, low, high)
    {
      TurningBounds(a[..], o, first, write, next, read, last, low, high);
      ghost var n := next;
      if write == next {
        next := read;
      }
      TurnOnce(a, write, read, o, first, n, last, low, high);
      write := write + 1;
      read := read + 1;
    }
  }

  /** The loop brings the slots from middle on to the front. */
  method RotateFront<T>(a: array<Slot<T>>, first: nat, middle: nat, last: nat) returns (write: nat, next: nat)
    requires first < middle < last <= a.Length
    requires forall k :: first <= k < last ==> a[k].Live?
    modifies a
    ensures first < write <= next <= last
    ensures Rotating(a[..], first, write, next, last, last, old(a[first..middle]), old(a[middle..last]))
    ensures forall k :: first <= k < last ==> a[k].Live?
    ensures a[..first] == old(a[..first]) && a[last..] == old(a[last..])
  {
    hide *;
    ghost var o, low, high := a[..], a[first..middle], a[middle..last];
    OneSlice(a, first, middle);
    OneSlice(a, middle, last);
    TurningStart(o, first, middle, last);
    write, next := RotateLoop(a, first, middle, last, low, high);
    TurningBounds(a[..], o, first, write, next, last, last, low, high);
  }

  /** rotate: the slots from middle on come first, in order, then those from first up to middle. */
  method Rotate<T>(a: array<Slot<T>>, first: nat, middle: nat, last: nat)
    requires first <= middle <= last <= a.Length
    requires forall k :: first <= k < last ==> a[k].Live?
    modifies a
    ensures a[first..last] == old(a[middle..last]) + old(a[first..middle])
    ensures forall k :: first <= k < last ==> a[k].Live?
    ensures a[..first] == old(a[..first]) && a[last..] == old(a[last..])
    decreases last - first
  {
    if first == middle || middle == last {
      return;
    }
    hide Rotating;
    ghost var low, high := a[first..middle], a[middle..last];
    var write, next := RotateFront(a, first, middle, last);
    ghost var s := a[..];
    SlicesOf(a, write, next, last);
    Rotate(a, write, next, last);
    SlicesOf(a, write, next, last);
    RotateEnd(s, first, write, next, last, low, high, a[..]);
    FrontOf(a, s, first, write);
  }

  lemma FrontOf<T>(a: array<Slot<T>>, s: seq<Slot<T>>, first: nat, write: nat)
    requires first <= write <= |s| == a.Length && a[..write] == s[..write]
    ensures a[..first] == s[..first] && forall k :: 0 <= k < write ==> a[k] == s[k]
  {
    assert a[..first] == a[..write][..first];
    forall k | 0 <= k < write
      ensures a[k] == s[k]
    {
      assert a[..write][k] == s[..write][k];
    }
  }

  /** Assign every value to itself by a move; whether that keeps a value is up to its type. */
  method SelfAssign<T>(a: array<Slot<T>>, begin: nat, end: nat, keeps: bool)
    requires begin <= end <= a.Length && forall k :: begin <= k < end ==> a[k].Live?
    modifies a
    ensures keeps ==> a[..] == old(a[..])
    ensures !keeps ==> forall k :: begin <= k < end ==> a[k] == Moved
    ensures forall k :: 0 <= k < begin || end <= k < a.Length ==> a[k] == old(a[k])
  {
    var i := begin;
    while i < end
      invariant begin <= i <= end
      invariant keeps ==> a[..] == old(a[..])
      invariant !keeps ==> forall k :: begin <= k < i ==> a[k] == Moved
      invariant forall k :: i <= k < end ==> a[k].Live?
      invariant forall k :: 0 <= k < begin || end <= k < a.Length ==> a[k] == old(a[k])
    {
      if !keeps {
        a[i] := Moved;
      }
      i := i + 1;
    }
  }

  lemma Unmoved<T>(a: array<Slot<T>>, o: seq<Slot<T>>, first: nat, last: nat)
    requires first <= last <= a.Length == |o|
    requires a[..first] == o[..first] && a[last..] == o[last..]
    ensures forall k :: 0 <= k < first || last <= k < a.Length ==> a[k] == o[k]
  {
    forall k | 0 <= k < first || last <= k < a.Length ensures a[k] == o[k] {
      assert k < first ==> a[..first][k] == o[..first][k];
      assert k >= last ==> a[last..][k - last] == o[last..][k - last];
    }
  }

  /** Construct new values before begin and exchange them with the values from begin up to pos. */
  method ConstructBefore<T>(a: array<Slot<T>>, begin: nat, pos: nat, vs: seq<T>)
    requires |vs| <= begin <= pos <= a.Length
    requires forall k :: begin - |vs| <= k < begin ==> a[k].Raw?
    requires forall k :: begin <= k < pos ==> a[k].Live?
    modifies a
    ensures a[begin - |vs|..pos] == old(a[begin..pos]) + Holding(vs)
    ensures forall k :: begin - |vs| <= k < pos ==> a[k].Live?
    ensures forall k :: 0 <= k < begin - |vs| || pos <= k < a.Length ==> a[k] == old(a[k])
  {
    ghost var values := a[begin..pos];
    ConstructRange(a, begin - |vs|, vs);
    assert a[begin..pos] == values;
    ghost var u := a[..];
    Rotate(a, begin - |vs|, begin, pos);
    Unmoved(a, u, begin - |vs|, pos);
  }

  /** Construct new values from end on and exchange them with the values from pos up to end. */
  method ConstructBehind<T>(a: array<Slot<T>>, pos: nat, end: nat, vs: seq<T>)
    requires pos <= end && end + |vs| <= a.Length
    requires forall k :: end <= k < end + |vs| ==> a[k].Raw?
    requires forall k :: pos <= k < end ==> a[k].Live?
    modifies a
    ensures a[pos..end + |vs|] == Holding(vs) + old(a[pos..end])
    ensures forall k :: pos <= k < end + |vs| ==> a[k].Live?
    ensures forall k :: 0 <= k < pos || end + |vs| <= k < a.Length ==> a[k] == old(a[k])
  {
    ghost var values := a[pos..end];
    ConstructRange(a, end, vs);
    assert a[pos..end] == values;
    ghost var u := a[..];
    Rotate(a, pos, end, end + |vs|);
    Unmoved(a, u, pos, end + |vs|);
  }
}
