/** The geometric argument ranges of a benchmark: lo, hi and what lies between them among zero and
    the powers of a multiplier and their negatives. */
module ArgRanges {
  import opened Arithmetic
  import opened Sequences

  /** A vector whose elements are of a signed machine integer type. */
  class Vector {
    var items: seq<int>

    constructor ()
      ensures items == []
    {
      items := [];
    }

    method PushBack(x: int)
      modifies this
      ensures items == old(items) + [x]
    {
      items := items + [x];
    }
  }

  /** A value of the type whose largest value is max; every computed value passes through here. */
  function Held(x: int, max: int): int
    requires -max - 1 <= x <= max
  {
    x
  }

  ghost predicate IsPower(mult: int, x: int) {
    exists k: nat :: x == Power(mult, k)
  }

  // Powers in an interval.

  /** Among i, i * mult, i * mult * mult and so on, those from lo to hi. */
  function PowersFrom(i: int, lo: int, hi: int, mult: int): seq<int>
    requires i >= 1 && mult >= 2
    decreases hi - i
  {
    if i > hi then []
    else
      Larger(i, mult);
      (if i >= lo then [i] else []) + PowersFrom(i * mult, lo, hi, mult)
  }

  lemma Larger(i: int, mult: int)
    requires i >= 1 && mult >= 2
    ensures i * mult > i
  {
    assert i * mult >= i * 2;
  }

  lemma PowerGrows(mult: int, k: nat)
    requires mult >= 2
    ensures Power(mult, k) >= 1 && Power(mult, k + 1) > Power(mult, k)
  {
    if k > 0 {
      PowerGrows(mult, k - 1);
    }
    assert Power(mult, k + 1) == mult * Power(mult, k);
    Larger(Power(mult, k), mult);
  }

  lemma PowersAscend(mult: int, j: nat, k: nat)
    requires mult >= 2 && j < k
    ensures Power(mult, j) < Power(mult, k)
  {
    PowerGrows(mult, k - 1);
    if j < k - 1 {
      PowersAscend(mult, j, k - 1);
    }
  }

  /** x is a power with exponent at least j. */
  ghost predicate PowerFrom(mult: int, j: nat, x: int) {
    exists k: nat :: k >= j && x == Power(mult, k)
  }

  lemma PowerFromStep(mult: int, j: nat, x: int)
    requires mult >= 2
    ensures PowerFrom(mult, j, x) <==> x == Power(mult, j) || PowerFrom(mult, j + 1, x)
    ensures PowerFrom(mult, j, x) ==> Power(mult, j) <= x
    ensures PowerFrom(mult, j + 1, x) ==> Power(mult, j) < x
  {
    hide Power;
    if k: nat :| k >= j && x == Power(mult, k) {
      if k > j {
        PowersAscend(mult, j, k);
      }
    }
    if k: nat :| k >= j + 1 && x == Power(mult, k) {
      PowersAscend(mult, j, k);
    }
  }

  lemma Unfolded(i: int, lo: int, hi: int, mult: int)
    requires i >= 1 && mult >= 2
    ensures PowersFrom(i, lo, hi, mult)
         == if i > hi then [] else (if i >= lo then [i] else []) + PowersFrom(i * mult, lo, hi, mult)
  {
    Larger(i, mult);
  }

  /** What the powers from the j-th on within an interval are, and that they ascend. */
  lemma {:induction false} PowersFromAre(j: nat, lo: int, hi: int, mult: int)
    requires mult >= 2 && Power(mult, j) >= 1
    ensures var s := PowersFrom(Power(mult, j), lo, hi, mult);
      && Ascending(s)
      && forall x :: x in s <==> lo <= x <= hi && PowerFrom(mult, j, x)
    decreases hi - Power(mult, j)
  {
    var i := Power(mult, j);
    PowerIsNext(mult, j);
    Larger(i, mult);
    Unfolded(i, lo, hi, mult);
    hide Power, PowersFrom, PowerFrom, Ascending;
    var rest := PowersFrom(Power(mult, j + 1), lo, hi, mult);
    if i <= hi {
      PowersFromAre(j + 1, lo, hi, mult);
      forall x | x in rest
        ensures i < x
      {
        PowerFromStep(mult, j, x);
      }
      Prepended(i, i >= lo, rest);
    } else {
      NothingAscends();
    }
    forall x
      ensures x in PowersFrom(i, lo, hi, mult) <==> lo <= x <= hi && PowerFrom(mult, j, x)
    {
      PowerFromStep(mult, j, x);
    }
  }

  lemma NothingAscends()
    ensures Ascending([])
  {
  }

  lemma PowerIsNext(mult: int, j: nat)
    ensures Power(mult, j + 1) == Power(mult, j) * mult
  {
  }

  lemma Prepended(i: int, present: bool, rest: seq<int>)
    requires Ascending(rest) && forall x :: x in rest ==> i < x
    ensures Ascending((if present then [i] else []) + rest)
    ensures forall x :: x in (if present then [i] else []) + rest <==> (present && x == i) || x in rest
  {
    if present {
      Joined([i], rest);
    } else {
      assert [] + rest == rest;
    }
  }

  lemma Joined(a: seq<int>, b: seq<int>)
    requires Ascending(a) && Ascending(b)
    requires forall x, y :: x in a && y in b ==> x < y
    ensures Ascending(a + b)
    ensures forall x :: x in a + b <==> x in a || x in b
  {
    var s := a + b;
    forall i, j | 0 <= i < j < |s|
      ensures s[i] < s[j]
    {
      if i < |a| <= j {
        assert s[i] in a && s[j] in b;
      }
    }
  }

  function PowersIn(lo: int, hi: int, mult: int): seq<int>
    requires mult >= 2
  {
    PowersFrom(1, lo, hi, mult)
  }

  lemma PowersInAre(lo: int, hi: int, mult: int)
    requires mult >= 2
    ensures Ascending(PowersIn(lo, hi, mult))
    ensures forall x :: x in PowersIn(lo, hi, mult) <==> lo <= x <= hi && IsPower(mult, x)
  {
    assert Power(mult, 0) == 1;
    PowersFromAre(0, lo, hi, mult);
    hide PowersFrom, Power;
  }

  /** Append the powers of mult from lo to hi. The multiplication never leaves the type. */
  method AddPowers(dst: Vector, lo: int, hi: int, mult: int, max: int) returns (start: nat)
    requires 0 <= lo <= hi <= max && mult >= 2 && max >= 1
    modifies dst
    ensures start == |old(dst.items)| && dst.items == old(dst.items) + PowersIn(lo, hi, mult)
  {
    start := |dst.items|;
    var i := Held(1, max);
    while i <= hi
      invariant i >= 1
      invariant dst.items + PowersFrom(i, lo, hi, mult) == old(dst.items) + PowersIn(lo, hi, mult)
      decreases hi - i
    {
      ghost var before := dst.items;
      if i >= lo {
        dst.PushBack(i);
      }
      assert dst.items + PowersFrom(i * mult, lo, hi, mult) == before + PowersFrom(i, lo, hi, mult);
      Larger(i, mult);
      Quotient(i, mult, max);
      if i > max / mult {
        break;
      }
      i := Held(i * Held(mult, max), max);
    }
  }

  lemma Quotient(i: int, mult: int, max: int)
    requires i >= 1 && mult >= 2 && max >= 0
    ensures i > max / mult <==> i * mult > max
    ensures i * mult <= max ==> mult <= max
  {
    var q, r := max / mult, max % mult;
    assert max == q * mult + r;
    if i > q {
      MulMono(q + 1, i, mult);
      assert (q + 1) * mult == q * mult + mult;
    } else {
      MulMono(i, q, mult);
    }
    MulMono(1, i, mult);
  }

  // Their negatives.

  function Negated(s: seq<int>): seq<int> {
    seq(|s|, k requires 0 <= k < |s| => -s[k])
  }

  function Mirrored(s: seq<int>): seq<int> {
    Reversed(Negated(s))
  }

  lemma MirroredAt(s: seq<int>)
    ensures |Mirrored(s)| == |s| && forall k :: 0 <= k < |s| ==> Mirrored(s)[k] == -s[|s| - 1 - k]
  {
  }

  lemma MirroredAre(s: seq<int>)
    requires Ascending(s)
    ensures Ascending(Mirrored(s))
    ensures forall x :: x in Mirrored(s) <==> -x in s
  {
    MirroredAt(s);
    hide Mirrored;
    forall x
      ensures x in Mirrored(s) <==> -x in s
    {
      if -x in s {
        var k :| 0 <= k < |s| && s[k] == -x;
        assert Mirrored(s)[|s| - 1 - k] == x;
      }
    }
  }

  /** for_each(it, end, t *= -1) */
  method Negate(dst: Vector, start: nat, max: int)
    requires start <= |dst.items| && forall k :: start <= k < |dst.items| ==> -max - 1 < dst.items[k] <= max
    modifies dst
    ensures dst.items == old(dst.items[..start]) + Negated(old(dst.items[start..]))
  {
    var k := start;
    while k < |dst.items|
      invariant start <= k <= |dst.items| == |old(dst.items)|
      invariant forall j :: 0 <= j < start || k <= j < |dst.items| ==> dst.items[j] == old(dst.items)[j]
      invariant forall j :: start <= j < k ==> dst.items[j] == -old(dst.items)[j]
    {
      dst.items := dst.items[k := Held(-dst.items[k], max)];
      k := k + 1;
    }
  }

  /** reverse(it, end) */
  method Reverse(dst: Vector, start: nat)
    requires start <= |dst.items|
    modifies dst
    ensures dst.items == old(dst.items[..start]) + Reversed(old(dst.items[start..]))
  {
    ghost var s := dst.items;
    var i, j := start, |dst.items|;
    while i + 1 < j
      invariant start <= i <= j <= |dst.items| == |s| && i - start == |s| - j
      invariant forall k :: 0 <= k < start || i <= k < j ==> dst.items[k] == s[k]
      invariant forall k :: start <= k < i ==> dst.items[k] == s[start + |s| - 1 - k]
      invariant forall k :: j <= k < |s| ==> dst.items[k] == s[start + |s| - 1 - k]
    {
      j := j - 1;
      dst.items := dst.items[i := dst.items[j]][j := dst.items[i]];
      i := i + 1;
    }
  }

  /** Append the negated powers from lo to hi, the largest power first. */
  method AddNegatedPowers(dst: Vector, lo: int, hi: int, mult: int, max: int)
    requires -max - 1 < lo <= hi <= 0 && mult >= 2 && max >= 1
    modifies dst
    ensures dst.items == old(dst.items) + Mirrored(PowersIn(-hi, -lo, mult))
  {
    var start := AddPowers(dst, Held(-hi, max), Held(-lo, max), mult, max);
    PowersInAre(-hi, -lo, mult);
    hide *;
    ghost var added := PowersIn(-hi, -lo, mult);
    assert dst.items[start..] == added && dst.items[..start] == old(dst.items);
    forall k | start <= k < |dst.items|
      ensures -max - 1 < dst.items[k] <= max
    {
      assert added[k - start] in added;
    }
    Negate(dst, start, max);
    NegatedLength(added);
    assert dst.items[start..] == Negated(added) && dst.items[..start] == old(dst.items);
    Reverse(dst, start);
    MirroredIs(added);
  }

  lemma NegatedLength(s: seq<int>)
    ensures |Negated(s)| == |s|
  {
  }

  lemma MirroredIs(s: seq<int>)
    ensures Mirrored(s) == Reversed(Negated(s))
  {
  }

  // The whole range.

  function NegativePart(lo: int, hi: int, mult: int): seq<int>
    requires mult >= 2
  {
    Mirrored(PowersIn(-Min(hi - 1, -1), -(lo + 1), mult))
  }

  function ZeroPart(lo: int, hi: int): seq<int> {
    if lo < 0 <= hi then [0] else []
  }

  function PositivePart(lo: int, hi: int, mult: int): seq<int>
    requires mult >= 2
  {
    PowersIn(Max(lo + 1, 1), hi - 1, mult)
  }

  function LastPart(lo: int, hi: int): seq<int> {
    if lo == hi || (lo < 0 && hi == 0) then [] else [hi]
  }

  /** What a range adds. */
  function RangeList(lo: int, hi: int, mult: int): seq<int>
    requires mult >= 2
  {
    [lo] + NegativePart(lo, hi, mult) + ZeroPart(lo, hi) + PositivePart(lo, hi, mult) + LastPart(lo, hi)
  }

  /** The ends, and between them zero, the powers of the multiplier and their negatives. */
  ghost predicate Wanted(x: int, lo: int, hi: int, mult: int) {
    x == lo || x == hi || (lo < x < hi && (x == 0 || IsPower(mult, x) || IsPower(mult, -x)))
  }

  /** A range goes up from lo to hi and has what is wanted and nothing else. */
  lemma RangeIs(lo: int, hi: int, mult: int)
    requires lo <= hi && mult >= 2
    ensures var s := RangeList(lo, hi, mult);
      && Ascending(s) && s != [] && s[0] == lo && s[|s| - 1] == hi
      && forall x :: x in s <==> Wanted(x, lo, hi, mult)
  {
    PartsAre(lo, hi, mult);
    RangeListIs(lo, hi, mult);
    PartsApart(lo, hi, mult);
    forall x
      ensures InParts(x, lo, hi, mult) <==> Wanted(x, lo, hi, mult)
    {
      PartsWanted(x, lo, hi, mult);
    }
    hide IsPower, PowersIn, NegativePart, ZeroPart, PositivePart, LastPart, RangeList, Ascending;
    FiveJoined([lo], NegativePart(lo, hi, mult), ZeroPart(lo, hi), PositivePart(lo, hi, mult), LastPart(lo, hi));
    EndsAre(RangeList(lo, hi, mult), lo, hi);
  }

  ghost predicate InParts(x: int, lo: int, hi: int, mult: int)
    requires mult >= 2
  {
    || x in [lo] || x in NegativePart(lo, hi, mult) || x in ZeroPart(lo, hi)
    || x in PositivePart(lo, hi, mult) || x in LastPart(lo, hi)
  }

  lemma PartsWanted(x: int, lo: int, hi: int, mult: int)
    requires lo <= hi && mult >= 2
    ensures InParts(x, lo, hi, mult) <==> Wanted(x, lo, hi, mult)
  {
    PartsAre(lo, hi, mult);
    ZeroAndLastAre(lo, hi);
    PowersPositive(mult);
    hide IsPower, PowersIn, NegativePart, ZeroPart, PositivePart, LastPart, Ascending;
  }

  lemma PartsApart(lo: int, hi: int, mult: int)
    requires lo <= hi && mult >= 2
    ensures var a, b, c, d := NegativePart(lo, hi, mult), ZeroPart(lo, hi), PositivePart(lo, hi, mult), LastPart(lo, hi);
      && (forall x, y :: x in [lo] && y in a ==> x < y)
      && (forall x, y :: (x in [lo] || x in a) && y in b ==> x < y)
      && (forall x, y :: (x in [lo] || x in a || x in b) && y in c ==> x < y)
      && (forall x, y :: (x in [lo] || x in a || x in b || x in c) && y in d ==> x < y)
  {
    PartsAre(lo, hi, mult);
    ZeroAndLastAre(lo, hi);
    hide IsPower, PowersIn, NegativePart, ZeroPart, PositivePart, LastPart, Ascending;
  }

  lemma EndsAre(s: seq<int>, lo: int, hi: int)
    requires Ascending(s) && lo in s && hi in s && forall x <- s :: lo <= x <= hi
    ensures s != [] && s[0] == lo && s[|s| - 1] == hi
  {
    assert s[0] in s && s[|s| - 1] in s;
  }

  lemma ZeroAndLastAre(lo: int, hi: int)
    requires lo <= hi
    ensures forall x :: x in ZeroPart(lo, hi) <==> x == 0 && lo < 0 <= hi
    ensures forall x :: x in LastPart(lo, hi) <==> x == hi && lo < hi && (hi == 0 ==> lo >= 0)
  {
  }

  lemma FiveJoined(z: seq<int>, a: seq<int>, b: seq<int>, c: seq<int>, d: seq<int>)
    requires Ascending(z) && Ascending(a) && Ascending(b) && Ascending(c) && Ascending(d)
    requires forall x, y :: x in z && y in a ==> x < y
    requires forall x, y :: (x in z || x in a) && y in b ==> x < y
    requires forall x, y :: (x in z || x in a || x in b) && y in c ==> x < y
    requires forall x, y :: (x in z || x in a || x in b || x in c) && y in d ==> x < y
    ensures Ascending(z + a + b + c + d)
    ensures forall x :: x in z + a + b + c + d <==> x in z || x in a || x in b || x in c || x in d
  {
    hide Ascending;
    Joined(z, a);
    Joined(z + a, b);
    Joined(z + a + b, c);
    Joined(z + a + b + c, d);
  }

  lemma RangeListIs(lo: int, hi: int, mult: int)
    requires mult >= 2
    ensures RangeList(lo, hi, mult)
         == [lo] + NegativePart(lo, hi, mult) + ZeroPart(lo, hi) + PositivePart(lo, hi, mult) + LastPart(lo, hi)
  {
  }

  lemma NoPowers(lo: int, hi: int, mult: int)
    requires mult >= 2 && (lo > hi || hi < 1)
    ensures PowersIn(lo, hi, mult) == []
  {
    PowersInAre(lo, hi, mult);
    PowersPositive(mult);
    hide *;
    HasMember(PowersIn(lo, hi, mult));
  }

  lemma HasMember(s: seq<int>)
    ensures s == [] || s[0] in s
  {
  }

  lemma PowersPositive(mult: int)
    requires mult >= 2
    ensures forall x :: IsPower(mult, x) ==> x >= 1
  {
    forall x | IsPower(mult, x)
      ensures x >= 1
    {
      var k: nat :| x == Power(mult, k);
      PowerGrows(mult, k);
    }
  }

  lemma PartsAre(lo: int, hi: int, mult: int)
    requires lo <= hi && mult >= 2
    ensures Ascending([lo]) && Ascending(ZeroPart(lo, hi)) && Ascending(LastPart(lo, hi))
    ensures Ascending(NegativePart(lo, hi, mult)) && Ascending(PositivePart(lo, hi, mult))
    ensures forall x :: x in NegativePart(lo, hi, mult) <==> lo < x < hi && x < 0 && IsPower(mult, -x)
    ensures forall x :: x in PositivePart(lo, hi, mult) <==> lo < x < hi && x > 0 && IsPower(mult, x)
  {
    var least, most := -Min(hi - 1, -1), -(lo + 1);
    var s := PowersIn(least, most, mult);
    PowersInAre(least, most, mult);
    MirroredAre(s);
    PowersInAre(Max(lo + 1, 1), hi - 1, mult);
    hide PowersIn, Mirrored, IsPower;
    forall x
      ensures x in NegativePart(lo, hi, mult) <==> lo < x < hi && x < 0 && IsPower(mult, -x)
    {
      assert x in Mirrored(s) <==> -x in s;
    }
  }

  lemma WithoutFirst(s: seq<int>, x: int)
    requires Ascending(s) && s != []
    ensures x in s[1..] <==> x in s && x != s[0]
  {
    assert s == [s[0]] + s[1..];
    if x in s[1..] {
      var k :| 0 <= k < |s| - 1 && s[1..][k] == x;
      assert s[k + 1] == x;
    }
  }

  /** Two ascending sequences with the same members are the same. */
  lemma {:induction false} AscendingUnique(s: seq<int>, t: seq<int>)
    requires Ascending(s) && Ascending(t) && forall x :: x in s <==> x in t
    ensures s == t
  {
    assert |s| > 0 ==> s[0] in s;
    assert |t| > 0 ==> t[0] in t;
    if s != [] {
      assert s[0] in t;
      assert s[0] == t[0];
      forall x
        ensures x in s[1..] <==> x in t[1..]
      {
        WithoutFirst(s, x);
        WithoutFirst(t, x);
      }
      AscendingUnique(s[1..], t[1..]);
      assert s == [s[0]] + s[1..] && t == [t[0]] + t[1..];
    }
  }

  /** No other ascending sequence has what is wanted: this is what a range is. */
  lemma RangeDetermined(lo: int, hi: int, mult: int, s: seq<int>)
    requires lo <= hi && mult >= 2
    ensures s == RangeList(lo, hi, mult) <==> Ascending(s) && forall x :: x in s <==> Wanted(x, lo, hi, mult)
  {
    RangeIs(lo, hi, mult);
    hide RangeList, Ascending, Wanted;
    if Ascending(s) && forall x :: x in s <==> Wanted(x, lo, hi, mult) {
      AscendingUnique(s, RangeList(lo, hi, mult));
    }
  }

  lemma NoParts(lo: int, hi: int, mult: int)
    requires mult >= 2
    ensures lo + 1 >= 0 || lo + 1 >= hi ==> NegativePart(lo, hi, mult) == []
    ensures hi - 1 <= 0 || lo + 1 >= hi ==> PositivePart(lo, hi, mult) == []
  {
    if lo + 1 >= 0 || lo + 1 >= hi {
      NoPowers(-Min(hi - 1, -1), -(lo + 1), mult);
    }
    if hi - 1 <= 0 || lo + 1 >= hi {
      NoPowers(Max(lo + 1, 1), hi - 1, mult);
    }
  }

  lemma Adjacent(lo: int, mult: int)
    requires mult >= 2
    ensures RangeList(lo, lo + 1, mult) == [lo] + [lo + 1] && RangeList(lo, lo, mult) == [lo]
  {
    NoParts(lo, lo + 1, mult);
    NoParts(lo, lo, mult);
    hide NegativePart, PositivePart;
  }

  /** Before the last step a range ends in hi only when that is the zero added. */
  lemma LastSoFar(lo: int, hi: int, mult: int)
    requires lo < hi && mult >= 2
    ensures var s := [lo] + NegativePart(lo, hi, mult) + ZeroPart(lo, hi) + PositivePart(lo, hi, mult);
      s[|s| - 1] == hi <==> lo < 0 && hi == 0
  {
    PartsAre(lo, hi, mult);
    NoParts(lo, hi, mult);
    var a, b, c := NegativePart(lo, hi, mult), ZeroPart(lo, hi), PositivePart(lo, hi, mult);
    hide NegativePart, PositivePart, IsPower, Ascending;
    var s := [lo] + a + b + c;
    var x := s[|s| - 1];
    assert c != [] ==> x == c[|c| - 1] && x in c;
    assert c == [] && b != [] ==> x == 0;
    assert c == [] && b == [] && a != [] ==> x == a[|a| - 1] && x in a;
  }

  /** The part of AddRange between pushing lo and pushing hi. */
  method InnerRange(dst: Vector, lo: int, hi: int, mult: int, max: int)
    requires -max - 1 <= lo && lo + 1 < hi <= max && mult >= 2 && max >= 1
    requires dst.items != [] && dst.items[|dst.items| - 1] == lo
    modifies dst
    ensures dst.items == old(dst.items[..|dst.items| - 1])
      + ([lo] + NegativePart(lo, hi, mult) + ZeroPart(lo, hi) + PositivePart(lo, hi, mult))
  {
    ghost var base := dst.items[..|dst.items| - 1];
    var loInner, hiInner := Held(lo + 1, max), Held(hi - 1, max);
    NoParts(lo, hi, mult);
    ghost var a, b, c := NegativePart(lo, hi, mult), ZeroPart(lo, hi), PositivePart(lo, hi, mult);
    hide PowersIn, Mirrored;
    if loInner < 0 {
      AddNegatedPowers(dst, loInner, Min(hiInner, -1), mult, max);
    }
    assert dst.items == base + [lo] + a;
    if lo < 0 && hi >= 0 {
      dst.PushBack(0);
    }
    assert dst.items == base + [lo] + a + b;
    if hiInner > 0 {
      var _ := AddPowers(dst, Max(loInner, 1), hiInner, mult, max);
    }
    assert dst.items == base + [lo] + a + b + c;
    Associative(base, [lo], a);
    Associative(base, [lo] + a, b);
    Associative(base, [lo] + a + b, c);
  }

  /** Append a range; every value computed on the way is one of the type. */
  method AddRange(dst: Vector, lo: int, hi: int, mult: int, max: int)
    requires -max - 1 <= lo <= hi <= max && mult >= 2 && max >= 1
    modifies dst
    ensures dst.items == old(dst.items) + RangeList(lo, hi, mult)
  {
    dst.PushBack(lo);
    if lo == hi {
      Adjacent(lo, mult);
      return;
    }
    if Held(lo + 1, max) == hi {
      dst.PushBack(hi);
      Adjacent(lo, mult);
      return;
    }
    InnerRange(dst, lo, hi, mult, max);
    LastSoFar(lo, hi, mult);
    RangeListIs(lo, hi, mult);
    hide RangeList, NegativePart, PositivePart;
    ghost var s := [lo] + NegativePart(lo, hi, mult) + ZeroPart(lo, hi) + PositivePart(lo, hi, mult);
    Associative(old(dst.items), s, LastPart(lo, hi));
    if hi != dst.items[|dst.items| - 1] {
      dst.PushBack(hi);
    }
  }
}
