/** The Cartesian product of argument lists, enumerated by an odometer of indices. */
module ArgsProducts {
  import ArgRanges
  import opened Arithmetic
  import opened Sequences

  // Numbers in a mixed radix: digits[k] is below sizes[k], and the first digit is the lowest.

  function Total(sizes: seq<nat>): nat {
    if sizes == [] then 1 else sizes[0] * Total(sizes[1..])
  }

  ghost predicate InRange(sizes: seq<nat>, digits: seq<nat>) {
    |digits| == |sizes| && forall k :: 0 <= k < |sizes| ==> digits[k] < sizes[k]
  }

  ghost predicate Positive(sizes: seq<nat>) {
    forall k :: 0 <= k < |sizes| ==> sizes[k] > 0
  }

  function Number(sizes: seq<nat>, digits: seq<nat>): nat
    requires |digits| == |sizes|
  {
    if sizes == [] then 0 else digits[0] + sizes[0] * Number(sizes[1..], digits[1..])
  }

  /** The digits of i, without what exceeds the last of them. */
  function Digits(sizes: seq<nat>, i: nat): (digits: seq<nat>)
    requires Positive(sizes)
    ensures |digits| == |sizes|
  {
    if sizes == [] then [] else [i % sizes[0]] + Digits(sizes[1..], i / sizes[0])
  }

  lemma QuotientBelow(i: nat, b: nat, t: nat)
    requires b > 0
    ensures i < b * t <==> i / b < t
  {
    assert i == b * (i / b) + i % b;
    if i / b < t {
      assert b * (i / b) <= b * (t - 1);
    } else {
      assert b * (i / b) >= b * t;
    }
  }

  lemma TotalPositive(sizes: seq<nat>)
    ensures Total(sizes) > 0 <==> Positive(sizes)
  {
    if sizes != [] {
      TotalPositive(sizes[1..]);
      PositiveTail(sizes);
      hide Positive;
      Product(sizes[0], Total(sizes[1..]));
    }
  }

  lemma PositiveTail(sizes: seq<nat>)
    requires sizes != []
    ensures Positive(sizes) <==> sizes[0] > 0 && Positive(sizes[1..])
  {
    assert sizes == [sizes[0]] + sizes[1..];
  }

  lemma InRangeTail(sizes: seq<nat>, digits: seq<nat>)
    requires |digits| == |sizes| > 0
    ensures InRange(sizes, digits) <==> digits[0] < sizes[0] && InRange(sizes[1..], digits[1..])
  {
    assert sizes == [sizes[0]] + sizes[1..] && digits == [digits[0]] + digits[1..];
  }

  lemma Product(x: nat, y: nat)
    ensures x * y > 0 <==> x > 0 && y > 0
  {
  }

  lemma Recomposed(i: nat, b: nat)
    requires b > 0
    ensures i % b + b * (i / b) == i
  {
  }

  /** Below the total a number and its digits determine each other. */
  lemma {:induction false} NumberOfDigits(sizes: seq<nat>, i: nat)
    requires Positive(sizes) && i < Total(sizes)
    ensures InRange(sizes, Digits(sizes, i)) && Number(sizes, Digits(sizes, i)) == i
  {
    if sizes != [] {
      PositiveTail(sizes);
      hide Positive, InRange;
      var b, t := sizes[0], Total(sizes[1..]);
      QuotientBelow(i, b, t);
      var q := i / b;
      NumberOfDigits(sizes[1..], q);
      var digits := Digits(sizes, i);
      assert digits[1..] == Digits(sizes[1..], q);
      InRangeTail(sizes, digits);
      assert Number(sizes, digits) == digits[0] + b * q;
      Recomposed(i, b);
    } else {
      assert i == 0;
    }
  }

  lemma {:induction false} DigitsOfNumber(sizes: seq<nat>, digits: seq<nat>)
    requires InRange(sizes, digits)
    ensures Positive(sizes) && Number(sizes, digits) < Total(sizes)
    ensures Digits(sizes, Number(sizes, digits)) == digits
  {
    if sizes != [] {
      var b, q := sizes[0], Number(sizes[1..], digits[1..]);
      DigitsOfNumber(sizes[1..], digits[1..]);
      DivUnique(digits[0] + b * q, b, q, digits[0]);
      QuotientBelow(Number(sizes, digits), b, Total(sizes[1..]));
      assert Digits(sizes, Number(sizes, digits)) == [digits[0]] + digits[1..];
    }
  }

  // The odometer.

  /** The first digit goes up by one; a digit that comes to zero carries into the next one. */
  function Next(sizes: seq<nat>, digits: seq<nat>): seq<nat>
    requires InRange(sizes, digits)
  {
    if sizes == [] then []
    else
      var d := (digits[0] + 1) % sizes[0];
      if d == 0 then [0] + Next(sizes[1..], digits[1..]) else [d] + digits[1..]
  }

  lemma DivStep(i: nat, b: nat)
    requires b > 0
    ensures (i % b + 1) % b == (i + 1) % b
    ensures (i + 1) / b == if (i + 1) % b == 0 then i / b + 1 else i / b
  {
    var q, r := i / b, i % b;
    assert i == b * q + r;
    if r + 1 < b {
      DivUnique(i + 1, b, q, r + 1);
      DivUnique(r + 1, b, 0, r + 1);
    } else {
      assert i + 1 == 0 + b * (q + 1);
      DivUnique(i + 1, b, q + 1, 0);
      DivUnique(b, b, 1, 0);
    }
  }

  lemma DigitsInRange(sizes: seq<nat>, i: nat)
    requires Positive(sizes)
    ensures InRange(sizes, Digits(sizes, i))
  {
    if sizes != [] {
      DigitsInRange(sizes[1..], i / sizes[0]);
      assert forall k :: 1 <= k < |sizes| ==>
        sizes[k] == sizes[1..][k - 1] && Digits(sizes, i)[k] == Digits(sizes, i)[1..][k - 1];
    }
  }

  /** One turn of the odometer takes the digits of i to those of i + 1, and after the last number
      back to zero. */
  lemma {:induction false} NextIsSuccessor(sizes: seq<nat>, i: nat)
    requires Positive(sizes)
    ensures InRange(sizes, Digits(sizes, i)) && Next(sizes, Digits(sizes, i)) == Digits(sizes, i + 1)
  {
    DigitsInRange(sizes, i);
    if sizes != [] {
      var b := sizes[0];
      DivStep(i, b);
      assert Digits(sizes, i)[1..] == Digits(sizes[1..], i / b);
      NextIsSuccessor(sizes[1..], i / b);
    }
  }

  lemma DivDiv(i: nat, b: nat, t: nat)
    requires b > 0 && t > 0
    ensures b * t > 0 && i / b / t == i / (b * t)
  {
    var q := i / b / t;
    Product(b, t);
    Recomposed(i, b);
    Recomposed(i / b, t);
    var r := b * (i / b % t) + i % b;
    Regrouped(b, t, q);
    assert i == q * (b * t) + r;
    MulMono(i / b % t, t, b);
    DivUnique(i, b * t, q, r);
  }

  lemma TotalStep(b: nat, rest: seq<nat>)
    ensures Total([b] + rest) == b * Total(rest)
  {
    assert ([b] + rest)[1..] == rest;
  }

  /** The k-th digit of i in closed form: what is left of i after the digits before it, modulo its size. */
  lemma {:induction false} DigitAt(sizes: seq<nat>, i: nat, k: nat)
    requires Positive(sizes) && k < |sizes|
    ensures Total(sizes[..k]) > 0 && Digits(sizes, i)[k] == i / Total(sizes[..k]) % sizes[k]
  {
    if k > 0 {
      var b := sizes[0];
      DigitAt(sizes[1..], i / b, k - 1);
      assert sizes[..k] == [b] + sizes[1..][..k - 1];
      TotalStep(b, sizes[1..][..k - 1]);
      DivDiv(i, b, Total(sizes[1..][..k - 1]));
    }
  }

  // Rows of arguments.

  function Sizes(lists: seq<seq<int>>): seq<nat> {
    seq(|lists|, k requires 0 <= k < |lists| => |lists[k]|)
  }

  /** The arguments that indices select. */
  function Row(lists: seq<seq<int>>, indices: seq<nat>): seq<int>
    requires InRange(Sizes(lists), indices)
  {
    seq(|lists|, k requires 0 <= k < |lists| => lists[k][indices[k]])
  }

  /** The first n rows. */
  function Rows(lists: seq<seq<int>>, n: nat): (rows: seq<seq<int>>)
    requires n <= Total(Sizes(lists))
    ensures |rows| == n
  {
    if n == 0 then []
    else
      RowDefined(lists, n - 1);
      Rows(lists, n - 1) + [Row(lists, Digits(Sizes(lists), n - 1))]
  }

  /** The i-th row of the product, the first argument varying fastest: an argument moves on whenever
      all those before it have gone through all their choices. */
  ghost predicate IsRow(lists: seq<seq<int>>, i: nat, row: seq<int>) {
    && |row| == |lists|
    && forall k :: 0 <= k < |lists| ==>
      && lists[k] != [] && Total(Sizes(lists[..k])) > 0
      && row[k] == lists[k][i / Total(Sizes(lists[..k])) % |lists[k]|]
  }

  lemma RowIs(lists: seq<seq<int>>, i: nat)
    requires i < Total(Sizes(lists))
    ensures Positive(Sizes(lists)) && InRange(Sizes(lists), Digits(Sizes(lists), i))
    ensures IsRow(lists, i, Row(lists, Digits(Sizes(lists), i)))
  {
    var sizes := Sizes(lists);
    RowDefined(lists, i);
    forall k | 0 <= k < |lists|
      ensures lists[k] != [] && Total(Sizes(lists[..k])) > 0
      ensures Digits(sizes, i)[k] == i / Total(Sizes(lists[..k])) % |lists[k]|
    {
      DigitAt(sizes, i, k);
      assert Sizes(lists[..k]) == sizes[..k];
    }
  }

  lemma RowDefined(lists: seq<seq<int>>, i: nat)
    requires i < Total(Sizes(lists))
    ensures Positive(Sizes(lists)) && InRange(Sizes(lists), Digits(Sizes(lists), i))
  {
    TotalPositive(Sizes(lists));
    NumberOfDigits(Sizes(lists), i);
  }

  lemma {:induction false} RowsAt(lists: seq<seq<int>>, n: nat, i: nat)
    requires i < n <= Total(Sizes(lists))
    ensures Positive(Sizes(lists)) && InRange(Sizes(lists), Digits(Sizes(lists), i))
    ensures Rows(lists, n)[i] == Row(lists, Digits(Sizes(lists), i))
  {
    RowDefined(lists, n - 1);
    RowDefined(lists, i);
    hide Sizes, Row, Total, InRange, Positive;
    if i < n - 1 {
      RowsAt(lists, n - 1, i);
    }
  }

  /** s goes on from some rows with the whole product, each row in its place. */
  ghost predicate ProductFollows(before: seq<seq<int>>, lists: seq<seq<int>>, s: seq<seq<int>>) {
    && before <= s && |s| == |before| + Total(Sizes(lists))
    && forall j :: |before| <= j < |s| ==> IsRow(lists, j - |before|, s[j])
  }

  lemma RowsFollow(before: seq<seq<int>>, lists: seq<seq<int>>)
    ensures ProductFollows(before, lists, before + Rows(lists, Total(Sizes(lists))))
  {
    var total := Total(Sizes(lists));
    var rows := Rows(lists, total);
    var s := before + rows;
    forall j | |before| <= j < |s|
      ensures IsRow(lists, j - |before|, s[j])
    {
      RowIsAt(lists, j - |before|);
      hide *;
      assert s[j] == rows[j - |before|];
    }
    hide IsRow, Total, Sizes, Rows;
  }

  lemma RowIsAt(lists: seq<seq<int>>, i: nat)
    requires i < Total(Sizes(lists))
    ensures IsRow(lists, i, Rows(lists, Total(Sizes(lists)))[i])
  {
    RowsAt(lists, Total(Sizes(lists)), i);
    RowIs(lists, i);
    hide *;
  }

  /** Every choice of indices is the row of exactly one number. */
  lemma EveryChoiceOnce(lists: seq<seq<int>>, indices: seq<nat>)
    requires InRange(Sizes(lists), indices)
    ensures var sizes, i := Sizes(lists), Number(Sizes(lists), indices);
      && i < Total(sizes) && Rows(lists, Total(sizes))[i] == Row(lists, indices)
      && forall j :: 0 <= j < Total(sizes) ==> (Digits(sizes, j) == indices <==> j == i)
  {
    var sizes := Sizes(lists);
    DigitsOfNumber(sizes, indices);
    RowsAt(lists, Total(sizes), Number(sizes, indices));
    forall j | 0 <= j < Total(sizes)
      ensures Digits(sizes, j) == indices <==> j == Number(sizes, indices)
    {
      NumberOfDigits(sizes, j);
    }
  }

  ghost predicate InProduct(lists: seq<seq<int>>, t: seq<int>) {
    |t| == |lists| && forall k :: 0 <= k < |lists| ==> t[k] in lists[k]
  }

  function IndexOf(s: seq<int>, x: int): (k: nat)
    requires x in s
    ensures k < |s| && s[k] == x
  {
    if s[0] == x then 0 else 1 + IndexOf(s[1..], x)
  }

  lemma SizesAre(lists: seq<seq<int>>)
    ensures |Sizes(lists)| == |lists| && forall k :: 0 <= k < |lists| ==> Sizes(lists)[k] == |lists[k]|
  {
  }

  /** The rows are the Cartesian product. */
  lemma RowsAreProduct(lists: seq<seq<int>>, t: seq<int>)
    ensures t in Rows(lists, Total(Sizes(lists))) <==> InProduct(lists, t)
  {
    var sizes := Sizes(lists);
    var rows := Rows(lists, Total(sizes));
    SizesAre(lists);
    if t in rows {
      var i :| 0 <= i < |rows| && rows[i] == t;
      RowsAt(lists, Total(sizes), i);
    }
    if InProduct(lists, t) {
      var indices: seq<nat> := seq(|lists|, k requires 0 <= k < |lists| => IndexOf(lists[k], t[k]));
      assert InRange(sizes, indices);
      assert Row(lists, indices) == t;
      EveryChoiceOnce(lists, indices);
    }
  }

  /** When no list repeats an argument, no row is repeated. */
  lemma RowsDistinct(lists: seq<seq<int>>)
    requires forall k :: 0 <= k < |lists| ==> NoRepeats(lists[k])
    ensures NoRepeats(Rows(lists, Total(Sizes(lists))))
  {
    var sizes := Sizes(lists);
    var rows := Rows(lists, Total(sizes));
    forall i, j | 0 <= i < j < |rows|
      ensures rows[i] != rows[j]
    {
      RowsAt(lists, Total(sizes), i);
      RowsAt(lists, Total(sizes), j);
      SameRow(lists, Digits(sizes, i), Digits(sizes, j));
      NumberOfDigits(sizes, i);
      NumberOfDigits(sizes, j);
    }
  }

  lemma SameRow(lists: seq<seq<int>>, a: seq<nat>, b: seq<nat>)
    requires InRange(Sizes(lists), a) && InRange(Sizes(lists), b)
    requires forall k :: 0 <= k < |lists| ==> NoRepeats(lists[k])
    ensures Row(lists, a) == Row(lists, b) <==> a == b
  {
    SizesAre(lists);
    if Row(lists, a) == Row(lists, b) {
      forall k | 0 <= k < |lists|
        ensures a[k] == b[k]
      {
        assert Row(lists, a)[k] == Row(lists, b)[k];
        assert NoRepeats(lists[k]);
      }
    }
  }

  // The odometer on an array of indices.

  /** A digit and those before it are zero, the rest is still to be moved on: what a turn comes to. */
  lemma TurnFrom(sizes: seq<nat>, digits: seq<nat>, arg: nat)
    requires InRange(sizes, digits) && arg < |sizes|
    ensures sizes[arg] > 0 && InRange(sizes[arg..], digits[arg..]) && InRange(sizes[arg + 1..], digits[arg + 1..])
    ensures var d := (digits[arg] + 1) % sizes[arg];
      Next(sizes[arg..], digits[arg..])
      == if d == 0 then [0] + Next(sizes[arg + 1..], digits[arg + 1..]) else [d] + digits[arg + 1..]
  {
    assert sizes[arg..][1..] == sizes[arg + 1..] && digits[arg..][1..] == digits[arg + 1..];
  }

  /** The digits before arg have been turned, and those from arg on are still to be, if there is a carry. */
  ghost predicate Turning(sizes: seq<nat>, was: seq<nat>, now: seq<nat>, arg: nat, carry: bool) {
    && InRange(sizes, was) && |now| == |sizes| && arg <= |sizes| && (carry ==> arg < |sizes|)
    && now[arg..] == was[arg..] && InRange(sizes[arg..], was[arg..])
    && Next(sizes, was) == now[..arg] + if carry then Next(sizes[arg..], was[arg..]) else was[arg..]
  }

  lemma TurnStep(sizes: seq<nat>, was: seq<nat>, now: seq<nat>, arg: nat)
    requires Turning(sizes, was, now, arg, true)
    ensures sizes[arg] > 0
    ensures var d := (now[arg] + 1) % sizes[arg];
      Turning(sizes, was, now[arg := d], arg + 1, d == 0 && arg + 1 < |sizes|)
  {
    TurnFrom(sizes, was, arg);
    assert now[arg] == was[arg] by { assert now[arg..][0] == was[arg..][0]; }
    var d := (was[arg] + 1) % sizes[arg];
    if arg + 1 == |sizes| {
      NextOfNone(sizes[arg + 1..], was[arg + 1..]);
    }
    hide *;
    Digit(now, was, arg, d);
  }

  lemma Digit(now: seq<nat>, was: seq<nat>, arg: nat, d: nat)
    requires |now| == |was| && arg < |now| && now[arg..] == was[arg..]
    ensures now[arg := d][arg + 1..] == was[arg + 1..]
    ensures forall rest: seq<nat> :: now[arg := d][..arg + 1] + rest == now[..arg] + ([d] + rest)
  {
    assert now[arg + 1..] == now[arg..][1..] && was[arg + 1..] == was[arg..][1..];
    assert now[arg := d][..arg + 1] == now[..arg] + [d];
  }

  lemma TurnStarts(sizes: seq<nat>, was: seq<nat>)
    requires InRange(sizes, was) && sizes != []
    ensures Turning(sizes, was, was, 0, true)
  {
    assert sizes[0..] == sizes && was[0..] == was;
  }

  lemma TurnEnds(sizes: seq<nat>, was: seq<nat>, now: seq<nat>, arg: nat)
    requires Turning(sizes, was, now, arg, false)
    ensures now == Next(sizes, was)
  {
    assert now[..arg] + now[arg..] == now;
  }

  /** One turn: a do-while loop that goes on to the next index as long as one comes to zero. */
  method Turn(sizes: seq<nat>, indices: array<nat>)
    requires indices.Length == |sizes| > 0 && InRange(sizes, indices[..])
    modifies indices
    ensures indices[..] == Next(sizes, old(indices[..]))
  {
    hide *;
    ghost var was := indices[..];
    var arg, carry := 0, true;
    TurnStarts(sizes, was);
    while carry
      invariant arg <= |sizes| && (carry ==> arg < |sizes|) && Turning(sizes, was, indices[..], arg, carry)
      decreases |sizes| - arg, carry
    {
      ghost var now := indices[..];
      TurnStep(sizes, was, now, arg);
      indices[arg] := (indices[arg] + 1) % sizes[arg];
      assert indices[..] == now[arg := indices[arg]];
      carry := indices[arg] == 0;
      arg := arg + 1;
      carry := carry && arg < |sizes|;
    }
    TurnEnds(sizes, was, indices[..], arg);
  }

  lemma NextOfNone(sizes: seq<nat>, digits: seq<nat>)
    requires sizes == [] && digits == []
    ensures Next(sizes, digits) == []
  {
  }

  /** accumulate: the product of the sizes. */
  method Accumulate(lists: seq<seq<int>>) returns (total: nat)
    ensures total == Total(Sizes(lists))
  {
    ghost var sizes := Sizes(lists);
    SizesAre(lists);
    total := 1;
    var k := 0;
    assert sizes[0..] == sizes;
    while k < |lists|
      invariant 0 <= k <= |lists| && total * Total(sizes[k..]) == Total(sizes)
    {
      assert sizes[k..][1..] == sizes[k + 1..];
      Regrouped(total, sizes[k], Total(sizes[k + 1..]));
      total := total * |lists[k]|;
      k := k + 1;
    }
  }

  lemma Regrouped(x: nat, y: nat, z: nat)
    ensures x * (y * z) == (x * y) * z
  {
  }

  /** The inner loop: the row that the indices select. */
  method MakeRow(lists: seq<seq<int>>, indices: array<nat>) returns (row: seq<int>)
    requires InRange(Sizes(lists), indices[..])
    ensures row == Row(lists, indices[..])
  {
    SizesAre(lists);
    row := [];
    var arg := 0;
    while arg < |lists|
      invariant 0 <= arg <= |lists| && row == Row(lists, indices[..])[..arg]
    {
      row := row + [lists[arg][indices[arg]]];
      arg := arg + 1;
    }
  }

  lemma StartDigits(sizes: seq<nat>)
    requires Positive(sizes)
    ensures |Digits(sizes, 0)| == |sizes| && forall k :: 0 <= k < |sizes| ==> Digits(sizes, 0)[k] == 0
  {
    if sizes != [] {
      PositiveTail(sizes);
      StartDigits(sizes[1..]);
      forall k | 0 <= k < |sizes|
        ensures Digits(sizes, 0)[k] == 0
      {
        if k > 0 {
          assert Digits(sizes, 0)[k] == Digits(sizes[1..], 0)[k - 1];
        }
      }
    }
  }

  lemma StartOfRows(sizes: seq<nat>, indices: seq<nat>)
    requires |indices| == |sizes| && forall k :: 0 <= k < |indices| ==> indices[k] == 0
    ensures Total(sizes) > 0 ==> Positive(sizes) && indices == Digits(sizes, 0)
  {
    TotalPositive(sizes);
    if Total(sizes) > 0 {
      StartDigits(sizes);
    }
  }

  lemma MoreRows(lists: seq<seq<int>>, i: nat)
    requires i < Total(Sizes(lists))
    ensures Positive(Sizes(lists)) && InRange(Sizes(lists), Digits(Sizes(lists), i))
    ensures Rows(lists, i + 1) == Rows(lists, i) + [Row(lists, Digits(Sizes(lists), i))]
  {
    RowDefined(lists, i);
  }

  ghost predicate NotReversed(ranges: seq<(int, int)>) {
    forall k :: 0 <= k < |ranges| ==> ranges[k].0 <= ranges[k].1
  }

  /** Each list goes up through what is wanted in its range. */
  ghost predicate SpanRanges(ranges: seq<(int, int)>, mult: int, lists: seq<seq<int>>) {
    && |lists| == |ranges|
    && forall k :: 0 <= k < |ranges| ==>
      && Ascending(lists[k])
      && forall x :: x in lists[k] <==> ArgRanges.Wanted(x, ranges[k].0, ranges[k].1, mult)
  }

  ghost predicate WantedTuple(ranges: seq<(int, int)>, mult: int, t: seq<int>) {
    |t| == |ranges| && forall k :: 0 <= k < |ranges| ==> ArgRanges.Wanted(t[k], ranges[k].0, ranges[k].1, mult)
  }

  function RangeLists(ranges: seq<(int, int)>, mult: int): (lists: seq<seq<int>>)
    requires mult >= 2 && NotReversed(ranges)
    ensures SpanRanges(ranges, mult, lists)
  {
    var lists := seq(|ranges|, k requires 0 <= k < |ranges| => ArgRanges.RangeList(ranges[k].0, ranges[k].1, mult));
    RangeListsSpan(ranges, mult, lists);
    lists
  }

  lemma RangeListsSpan(ranges: seq<(int, int)>, mult: int, lists: seq<seq<int>>)
    requires mult >= 2 && NotReversed(ranges) && |lists| == |ranges|
    requires forall k :: 0 <= k < |ranges| ==> lists[k] == ArgRanges.RangeList(ranges[k].0, ranges[k].1, mult)
    ensures SpanRanges(ranges, mult, lists)
  {
    hide ArgRanges.RangeList, ArgRanges.Wanted, Ascending;
    forall k | 0 <= k < |ranges|
      ensures Ascending(lists[k]) && forall x :: x in lists[k] <==> ArgRanges.Wanted(x, ranges[k].0, ranges[k].1, mult)
    {
      ArgRanges.RangeIs(ranges[k].0, ranges[k].1, mult);
    }
  }

  /** The rows of the product of such lists: every wanted tuple, once. */
  lemma RangeRows(ranges: seq<(int, int)>, mult: int, lists: seq<seq<int>>)
    requires SpanRanges(ranges, mult, lists)
    ensures NoRepeats(Rows(lists, Total(Sizes(lists))))
    ensures forall t :: t in Rows(lists, Total(Sizes(lists))) <==> WantedTuple(ranges, mult, t)
  {
    RowsDistinct(lists);
    hide Rows, Total, Sizes, ArgRanges.Wanted;
    forall t
      ensures t in Rows(lists, Total(Sizes(lists))) <==> WantedTuple(ranges, mult, t)
    {
      RowsAreProduct(lists, t);
    }
  }

  /** A benchmark being registered: its rows of arguments and the names of the arguments. */
  class Benchmark {
    var args: seq<seq<int>>
    var argNames: seq<string>
    var rangeMultiplier: int

    constructor (multiplier: int)
      requires multiplier >= 2
      ensures args == [] && argNames == [] && rangeMultiplier == multiplier
    {
      args, argNames, rangeMultiplier := [], [], multiplier;
    }

    /** The number of arguments of each row, or -1 when it is still open. */
    function ArgsCnt(): int
      reads this
    {
      if args != [] then |args[0]| else if argNames != [] then |argNames| else -1
    }

    /** Every row has as many arguments as there are names, or as every other row. */
    ghost predicate Uniform()
      reads this
    {
      (forall row <- args :: |row| == ArgsCnt()) && (argNames != [] ==> |argNames| == ArgsCnt())
    }

    /** Append the product of the argument lists. */
    method ArgsProduct(lists: seq<seq<int>>)
      requires ArgsCnt() == -1 || ArgsCnt() == |lists|
      requires lists != []
      modifies this`args
      ensures args == old(args) + Rows(lists, Total(Sizes(lists)))
      ensures ProductFollows(old(args), lists, args)
      ensures old(Uniform()) ==> Uniform()
    {
      ghost var before := args;
      AppendRows(lists);
      RowsFollow(before, lists);
      hide Rows, Total, Sizes, Positive;
      forall row | row in args && row !in before
        ensures |row| == |lists|
      {
        var j :| 0 <= j < |args| && args[j] == row;
      }
    }

    method AppendRows(lists: seq<seq<int>>)
      requires lists != []
      modifies this`args
      ensures args == old(args) + Rows(lists, Total(Sizes(lists)))
    {
      hide *;
      var sizes := Sizes(lists);
      SizesAre(lists);
      var indices := new nat[|lists|](_ => 0);
      var total := Accumulate(lists);
      StartOfRows(sizes, indices[..]);
      NoRows(lists);
      var i := 0;
      while i < total
        invariant 0 <= i <= total == Total(sizes)
        invariant indices.Length == |sizes| && fresh(indices)
        invariant i < total ==> Positive(sizes) && indices[..] == Digits(sizes, i)
        invariant args == old(args) + Rows(lists, i)
      {
        MoreRows(lists, i);
        NextIsSuccessor(sizes, i);
        var row := MakeRow(lists, indices);
        args := args + [row];
        Turn(sizes, indices);
        i := i + 1;
      }
    }

    /** The product of one geometric range for each argument. */
    method Ranges(ranges: seq<(int, int)>, max: int)
      requires ArgsCnt() == -1 || ArgsCnt() == |ranges|
      requires ranges != [] && rangeMultiplier >= 2 && max >= 1
      requires forall k :: 0 <= k < |ranges| ==> -max - 1 <= ranges[k].0 <= ranges[k].1 <= max
      modifies this`args
      ensures NotReversed(ranges)
      ensures var lists := RangeLists(ranges, rangeMultiplier);
        args == old(args) + Rows(lists, Total(Sizes(lists))) && ProductFollows(old(args), lists, args)
      ensures NoRepeats(args[|old(args)|..])
      ensures forall t :: t in args[|old(args)|..] <==> WantedTuple(ranges, rangeMultiplier, t)
      ensures old(Uniform()) ==> Uniform()
    {
      var lists: seq<seq<int>> := [];
      var i := 0;
      while i < |ranges|
        invariant 0 <= i <= |ranges| == |lists| + |ranges| - i && args == old(args)
        invariant forall k :: 0 <= k < i ==> lists[k] == ArgRanges.RangeList(ranges[k].0, ranges[k].1, rangeMultiplier)
      {
        var dst := new ArgRanges.Vector();
        ArgRanges.AddRange(dst, ranges[i].0, ranges[i].1, rangeMultiplier, max);
        lists := lists + [dst.items];
        i := i + 1;
      }
      assert NotReversed(ranges) && lists == RangeLists(ranges, rangeMultiplier);
      hide *;
      ArgsProduct(lists);
      RangeRows(ranges, rangeMultiplier, lists);
      assert args[|old(args)|..] == Rows(lists, Total(Sizes(lists)));
    }
  }

  lemma NoRows(lists: seq<seq<int>>)
    ensures Total(Sizes(lists)) >= 0 && Rows(lists, 0) == []
  {
  }
}
