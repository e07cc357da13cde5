/** The bucket counts of the hash table. */
module Primes {
  import opened Primality
  import PrimeCertificates
  import opened Sequences

  const ROW_0: seq<nat> := [2, 3, 5, 7, 11, 13, 17, 19, 23, 29, 31, 37, 41, 43, 47, 53]
  const ROW_1: seq<nat> := [59, 61, 67, 71, 73, 79, 83, 89, 97, 103, 109, 113, 127, 137, 139, 149]
  const ROW_2: seq<nat> := [157, 167, 179, 193, 199, 211, 227, 241, 257, 277, 293, 313, 337, 359, 383, 409]
  const ROW_3: seq<nat> := [439, 467, 503, 541, 577, 619, 661, 709, 761, 823, 887, 953, 1031, 1109, 1193, 1289]
  const ROW_4: seq<nat> := [1381, 1493, 1613, 1741, 1879, 2029, 2179, 2357, 2549, 2753, 2971, 3209, 3469, 3739, 4027,
    4349]
  const ROW_5: seq<nat> := [4703, 5087, 5503, 5953, 6427, 6949, 7517, 8123, 8783, 9497, 10273, 11113, 12011, 12983,
    14033, 15173]
  const ROW_6: seq<nat> := [16411, 17749, 19183, 20753, 22447, 24281, 26267, 28411, 30727, 33223, 35933, 38873,
    42043, 45481, 49201, 53201]
  const ROW_7: seq<nat> := [57557, 62233, 67307, 72817, 78779, 85229, 92203, 99733, 107897, 116731, 126271, 136607,
    147793, 159871, 172933, 187091]
  const ROW_8: seq<nat> := [202409, 218971, 236897, 256279, 277261, 299951, 324503, 351061, 379787, 410857, 444487,
    480881, 520241, 562841, 608903, 658753]
  const ROW_9: seq<nat> := [712697, 771049, 834181, 902483, 976369, 1056323, 1142821, 1236397, 1337629, 1447153,
    1565659, 1693859, 1832561, 1982627, 2144977, 2320627]
  const ROW_10: seq<nat> := [2510653, 2716249, 2938679, 3179303, 3439651, 3721303, 4026031, 4355707, 4712381,
    5098259, 5515729, 5967347, 6456007, 6984629, 7556579, 8175383]
  const ROW_11: seq<nat> := [8844859, 9569143, 10352717, 11200489, 12117689, 13109983, 14183539, 15345007, 16601593,
    17961079, 19431899, 21023161, 22744717, 24607243, 26622317, 28802401]
  const ROW_12: seq<nat> := [31160981, 33712729, 36473443, 39460231, 42691603, 46187573, 49969847, 54061849,
    58488943, 63278561, 68460391, 74066549, 80131819, 86693767, 93793069, 101473717]
  const ROW_13: seq<nat> := [109783337, 118773397, 128499677, 139022417, 150406843, 162723577, 176048909, 190465427,
    206062531, 222936881, 241193053, 260944219, 282312799, 305431229, 330442829, 357502601]
  const ROW_14: seq<nat> := [386778277, 418451333, 452718089, 489790921, 529899637, 573292817, 620239453, 671030513,
    725980837, 785430967, 849749479, 919334987, 994618837, 1076067617, 1164186217, 1259520799]
  const ROW_15: seq<nat> := [1362662261, 1474249943, 1594975441, 1725587117, 1866894511, 2019773507, 2185171673,
    2364114217, 2557710269, 2767159799, 2993761039, 3238918481, 3504151727, 3791104843, 4101556399, 4294967291]

  const QUARTER_0 := ROW_0 + ROW_1 + ROW_2 + ROW_3
  const QUARTER_1 := ROW_4 + ROW_5 + ROW_6 + ROW_7
  const QUARTER_2 := ROW_8 + ROW_9 + ROW_10 + ROW_11
  const QUARTER_3 := ROW_12 + ROW_13 + ROW_14 + ROW_15

  const PRIME_NUMBERS := QUARTER_0 + QUARTER_1 + QUARTER_2 + QUARTER_3

  const LARGEST: nat := 4294967291

  /** Ascending rows, one after the other, the least and the greatest number at the ends. */
  ghost predicate Row(s: seq<nat>, first: nat, last: nat) {
    Ascending(s) && s != [] && s[0] == first && s[|s| - 1] == last
  }

  lemma JoinRows(s: seq<nat>, a: nat, b: nat, t: seq<nat>, c: nat, d: nat)
    requires Row(s, a, b) && Row(t, c, d) && b < c
    ensures Row(s + t, a, d)
  {
  }

  lemma JoinFour(s: seq<nat>, a: nat, b: nat, t: seq<nat>, c: nat, d: nat,
                 u: seq<nat>, e: nat, f: nat, v: seq<nat>, g: nat, h: nat)
    requires Row(s, a, b) && Row(t, c, d) && Row(u, e, f) && Row(v, g, h) && b < c && d < e && f < g
    ensures Row(s + t + u + v, a, h)
  {
    JoinRows(s, a, b, t, c, d);
    JoinRows(s + t, a, d, u, e, f);
    JoinRows(s + t + u, a, f, v, g, h);
  }

  lemma FirstQuarter()
    ensures Row(QUARTER_0, 2, 1289) && |QUARTER_0| == 64
  {
    JoinFour(ROW_0, 2, 53,
             ROW_1, 59, 149,
             ROW_2, 157, 409,
             ROW_3, 439, 1289);
  }

  lemma SecondQuarter()
    ensures Row(QUARTER_1, 1381, 187091) && |QUARTER_1| == 64
  {
    JoinFour(ROW_4, 1381, 4349,
             ROW_5, 4703, 15173,
             ROW_6, 16411, 53201,
             ROW_7, 57557, 187091);
  }

  lemma ThirdQuarter()
    ensures Row(QUARTER_2, 202409, 28802401) && |QUARTER_2| == 64
  {
    JoinFour(ROW_8, 202409, 658753,
             ROW_9, 712697, 2320627,
             ROW_10, 2510653, 8175383,
             ROW_11, 8844859, 28802401);
  }

  lemma FourthQuarter()
    ensures Row(QUARTER_3, 31160981, 4294967291) && |QUARTER_3| == 64
  {
    JoinFour(ROW_12, 31160981, 101473717,
             ROW_13, 109783337, 357502601,
             ROW_14, 386778277, 1259520799,
             ROW_15, 1362662261, 4294967291);
  }

  lemma TableAscending()
    ensures Row(PRIME_NUMBERS, 2, LARGEST) && |PRIME_NUMBERS| == 256
  {
    FirstQuarter();
    SecondQuarter();
    ThirdQuarter();
    FourthQuarter();
    hide Row, Ascending;
    JoinFour(QUARTER_0, 2, 1289, QUARTER_1, 1381, 187091, QUARTER_2, 202409, 28802401, QUARTER_3, 31160981, 4294967291);
  }

  ghost predicate AllPrime(s: seq<nat>) {
    forall p <- s :: IsPrime(p)
  }

  lemma RowIsPrime0()
    ensures AllPrime(ROW_0)
  {
    hide IsPrime;
    PrimeCertificates.Row0();
  }

  lemma RowIsPrime1()
    ensures AllPrime(ROW_1)
  {
    hide IsPrime;
    PrimeCertificates.Row1();
  }

  lemma RowIsPrime2()
    ensures AllPrime(ROW_2)
  {
    hide IsPrime;
    PrimeCertificates.Row2();
  }

  lemma RowIsPrime3()
    ensures AllPrime(ROW_3)
  {
    hide IsPrime;
    PrimeCertificates.Row3A(); PrimeCertificates.Row3B(); PrimeCertificates.Row3C();
  }

  lemma RowIsPrime4()
    ensures AllPrime(ROW_4)
  {
    hide IsPrime;
    PrimeCertificates.Row4A(); PrimeCertificates.Row4B(); PrimeCertificates.Row4C();
  }

  lemma RowIsPrime5()
    ensures AllPrime(ROW_5)
  {
    hide IsPrime;
    PrimeCertificates.Row5A(); PrimeCertificates.Row5B(); PrimeCertificates.Row5C();
  }

  lemma RowIsPrime6()
    ensures AllPrime(ROW_6)
  {
    hide IsPrime;
    PrimeCertificates.Row6A(); PrimeCertificates.Row6B(); PrimeCertificates.Row6C();
  }

  lemma RowIsPrime7()
    ensures AllPrime(ROW_7)
  {
    hide IsPrime;
    PrimeCertificates.Row7A(); PrimeCertificates.Row7B(); PrimeCertificates.Row7C(); PrimeCertificates.Row7D();
    PrimeCertificates.Row7E();
  }

  lemma RowIsPrime8()
    ensures AllPrime(ROW_8)
  {
    hide IsPrime;
    PrimeCertificates.Row8A(); PrimeCertificates.Row8B(); PrimeCertificates.Row8C(); PrimeCertificates.Row8D();
    PrimeCertificates.Row8E(); PrimeCertificates.Row8F(); PrimeCertificates.Row8G();
  }

  lemma RowIsPrime9()
    ensures AllPrime(ROW_9)
  {
    hide IsPrime;
    PrimeCertificates.Row9A(); PrimeCertificates.Row9B(); PrimeCertificates.Row9C(); PrimeCertificates.Row9D();
    PrimeCertificates.Row9E(); PrimeCertificates.Row9F(); PrimeCertificates.Row9G(); PrimeCertificates.Row9H();
  }

  lemma RowIsPrime10()
    ensures AllPrime(ROW_10)
  {
    hide IsPrime;
    PrimeCertificates.Row10A(); PrimeCertificates.Row10B(); PrimeCertificates.Row10C(); PrimeCertificates.Row10D();
    PrimeCertificates.Row10E(); PrimeCertificates.Row10F(); PrimeCertificates.Row10G(); PrimeCertificates.Row10H();
    PrimeCertificates.Row10I();
  }

  lemma RowIsPrime11()
    ensures AllPrime(ROW_11)
  {
    hide IsPrime;
    PrimeCertificates.Row11A(); PrimeCertificates.Row11B(); PrimeCertificates.Row11C(); PrimeCertificates.Row11D();
    PrimeCertificates.Row11E(); PrimeCertificates.Row11F(); PrimeCertificates.Row11G(); PrimeCertificates.Row11H();
    PrimeCertificates.Row11I();
  }

  lemma RowIsPrime12()
    ensures AllPrime(ROW_12)
  {
    hide IsPrime;
    PrimeCertificates.Row12A(); PrimeCertificates.Row12B(); PrimeCertificates.Row12C(); PrimeCertificates.Row12D();
    PrimeCertificates.Row12E(); PrimeCertificates.Row12F(); PrimeCertificates.Row12G(); PrimeCertificates.Row12H();
    PrimeCertificates.Row12I(); PrimeCertificates.Row12J(); PrimeCertificates.Row12K(); PrimeCertificates.Row12L();
  }

  lemma RowIsPrime13()
    ensures AllPrime(ROW_13)
  {
    hide IsPrime;
    PrimeCertificates.Row13A(); PrimeCertificates.Row13B(); PrimeCertificates.Row13C(); PrimeCertificates.Row13D();
    PrimeCertificates.Row13E(); PrimeCertificates.Row13F(); PrimeCertificates.Row13G(); PrimeCertificates.Row13H();
    PrimeCertificates.Row13I(); PrimeCertificates.Row13J(); PrimeCertificates.Row13K(); PrimeCertificates.Row13L();
  }

  lemma RowIsPrime14()
    ensures AllPrime(ROW_14)
  {
    hide IsPrime;
    PrimeCertificates.Row14A(); PrimeCertificates.Row14B(); PrimeCertificates.Row14C(); PrimeCertificates.Row14D();
    PrimeCertificates.Row14E(); PrimeCertificates.Row14F(); PrimeCertificates.Row14G(); PrimeCertificates.Row14H();
    PrimeCertificates.Row14I(); PrimeCertificates.Row14J(); PrimeCertificates.Row14K(); PrimeCertificates.Row14L();
    PrimeCertificates.Row14M();
  }

  lemma RowIsPrime15()
    ensures AllPrime(ROW_15)
  {
    hide IsPrime;
    PrimeCertificates.Row15A(); PrimeCertificates.Row15B(); PrimeCertificates.Row15C(); PrimeCertificates.Row15D();
    PrimeCertificates.Row15E(); PrimeCertificates.Row15F(); PrimeCertificates.Row15G(); PrimeCertificates.Row15H();
    PrimeCertificates.Row15I(); PrimeCertificates.Row15J(); PrimeCertificates.Row15K(); PrimeCertificates.Row15L();
    PrimeCertificates.Row15M(); PrimeCertificates.Row15N(); PrimeCertificates.Row15O();
  }

  lemma JoinPrimes(s: seq<nat>, t: seq<nat>, u: seq<nat>, v: seq<nat>)
    requires AllPrime(s) && AllPrime(t) && AllPrime(u) && AllPrime(v)
    ensures AllPrime(s + t + u + v)
  {
    hide IsPrime;
  }

  lemma FirstHalfIsPrime()
    ensures AllPrime(QUARTER_0) && AllPrime(QUARTER_1)
  {
    hide AllPrime;
    RowIsPrime0(); RowIsPrime1(); RowIsPrime2(); RowIsPrime3();
    JoinPrimes(ROW_0, ROW_1, ROW_2, ROW_3);
    RowIsPrime4(); RowIsPrime5(); RowIsPrime6(); RowIsPrime7();
    JoinPrimes(ROW_4, ROW_5, ROW_6, ROW_7);
  }

  lemma SecondHalfIsPrime()
    ensures AllPrime(QUARTER_2) && AllPrime(QUARTER_3)
  {
    hide AllPrime;
    RowIsPrime8(); RowIsPrime9(); RowIsPrime10(); RowIsPrime11();
    JoinPrimes(ROW_8, ROW_9, ROW_10, ROW_11);
    RowIsPrime12(); RowIsPrime13(); RowIsPrime14(); RowIsPrime15();
    JoinPrimes(ROW_12, ROW_13, ROW_14, ROW_15);
  }

  /** Every bucket count of the table is a prime. */
  lemma TableIsPrime()
    ensures forall p <- PRIME_NUMBERS :: IsPrime(p)
  {
    FirstHalfIsPrime();
    SecondHalfIsPrime();
    hide QUARTER_0, QUARTER_1, QUARTER_2, QUARTER_3, IsPrime;
    JoinPrimes(QUARTER_0, QUARTER_1, QUARTER_2, QUARTER_3);
  }

  /** Up to a hundred the table has the primes and nothing else. */
  lemma SmallPrimesListed(p: nat)
    requires p <= 100
    ensures p in PRIME_NUMBERS <==> IsPrime(p)
  {
    TableIsPrime();
    hide *;
    if IsPrime(p) {
      SmallPrimeIs(p);
      FirstRows(p);
    }
  }

  ghost predicate NoTinyDivisor(p: nat) {
    p >= 2 && (p % 2 != 0 || p == 2) && (p % 3 != 0 || p == 3) && (p % 5 != 0 || p == 5) && (p % 7 != 0 || p == 7)
  }

  lemma SmallPrimeIs(p: nat)
    requires IsPrime(p) && p <= 100
    ensures p in ROW_0 || p in ROW_1
  {
    assert NoTinyDivisor(p);
    hide *;
    if p < 54 {
      InFirstRow(p);
    } else {
      InSecondRow(p);
    }
  }

  lemma InFirstRow(p: nat)
    requires NoTinyDivisor(p) && p < 54
    ensures p in ROW_0
  {
  }

  lemma InSecondRow(p: nat)
    requires NoTinyDivisor(p) && 54 <= p <= 100
    ensures p in ROW_1
  {
  }

  lemma FirstRows(p: nat)
    requires p in ROW_0 || p in ROW_1
    ensures p in PRIME_NUMBERS
  {
    hide ROW_0, ROW_1;
    assert p in QUARTER_0;
    hide QUARTER_0;
  }

  method UpperBound(a: seq<nat>, value: nat) returns (first: nat)
    requires Ascending(a)
    ensures first <= |a|
    ensures forall k :: 0 <= k < first ==> a[k] <= value
    ensures forall k :: first <= k < |a| ==> value < a[k]
  {
    first := 0;
    var count := |a|;
    while count > 0
      invariant 0 <= count && first + count <= |a|
      invariant forall k :: 0 <= k < first ==> a[k] <= value
      invariant forall k :: first + count <= k < |a| ==> value < a[k]
    {
      var step := count / 2;
      var it := first + step;
      if !(value < a[it]) {
        first := it + 1;
        count := count - (step + 1);
      } else {
        count := step;
      }
    }
  }

  /** p is the least number of the table above n. */
  ghost predicate LeastAbove(n: nat, p: nat) {
    n < p && p in PRIME_NUMBERS && forall q <- PRIME_NUMBERS :: n < q ==> p <= q
  }

  /** p is the bucket count after n, which is n itself once the table ends. */
  ghost predicate IsNext(n: nat, p: nat) {
    if n < LARGEST then LeastAbove(n, p) else p == n
  }

  method NextPrime(n: nat) returns (p: nat)
    ensures IsNext(n, p)
    ensures p > 0 && n <= p && (n < LARGEST ==> n < p && IsPrime(p))
  {
    TableAscending();
    TableIsPrime();
    hide PRIME_NUMBERS, QUARTER_0, QUARTER_1, QUARTER_2, QUARTER_3;
    if n >= LARGEST {
      return n;
    }
    var k := UpperBound(PRIME_NUMBERS, n);
    p := PRIME_NUMBERS[k];
  }
}
