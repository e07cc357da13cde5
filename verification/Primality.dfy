/** When a number is prime: trial division, and certificates by an element of large order. */
module Primality {
  import opened Arithmetic
  import opened Sequences

  ghost predicate IsPrime(n: nat) {
    n >= 2 && forall d :: 2 <= d < n ==> n % d != 0
  }

  // Remainders.

  lemma Multiple(k: int, p: int)
    requires p > 0
    ensures k * p % p == 0
  {
    DivUnique(k * p, p, k, 0);
  }

  lemma ModAdd(x: int, k: int, p: int)
    requires p > 0
    ensures (x + k * p) % p == x % p
  {
    DivUnique(x + k * p, p, x / p + k, x % p);
  }

  lemma ModTimes(x: int, y: int, p: int)
    requires p > 0
    ensures x * y % p == (x % p) * y % p
  {
    var q, r := x / p, x % p;
    Remainder(x, p, q, r);
    hide *;
    Distributed(q, p, r, y);
    ModAdd(r * y, q * y, p);
  }

  lemma Remainder(x: int, p: int, q: int, r: int)
    requires p > 0 && q == x / p && r == x % p
    ensures x == q * p + r
  {
  }

  lemma Distributed(k: int, p: int, r: int, y: int)
    ensures (k * p + r) * y == r * y + k * y * p
  {
  }

  lemma ModProduct(x: int, y: int, p: int)
    requires p > 0
    ensures x * y % p == (x % p) * (y % p) % p
  {
    var r, t := x % p, y % p;
    ModTimes(x, y, p);
    ModTimes(y, r, p);
    Commute(r, y);
    Commute(r, t);
  }

  lemma Commute(x: int, y: int)
    ensures x * y == y * x
  {
  }

  lemma ModOfMod(x: int, n: int, p: int)
    requires p > 0 && n > 0 && n % p == 0
    ensures x % n % p == x % p
  {
    var k := x / n * (n / p);
    assert x == x % n + x / n * (n / p * p);
    Regroup(x / n, n / p, p);
    ModAdd(x % n, k, p);
  }

  lemma Regroup(x: int, y: int, z: int)
    ensures x * (y * z) == x * y * z
  {
  }

  lemma Divides(t: nat, d: nat, r: nat)
    requires d > 0 && r > 0 && t % d == 0 && d % r == 0
    ensures t % r == 0
  {
    Regroup(t / d, d / r, r);
    Multiple(t / d * (d / r), r);
  }

  lemma {:induction false} PrimeFactor(t: nat) returns (r: nat)
    requires t >= 2
    ensures IsPrime(r) && t % r == 0
  {
    if d :| 2 <= d < t && t % d == 0 {
      r := PrimeFactor(d);
      Divides(t, d, r);
    } else {
      r := t;
    }
  }

  // Powers modulo p.

  lemma {:induction false} PowerAdd(b: int, i: nat, j: nat)
    ensures Power(b, i + j) == Power(b, i) * Power(b, j)
  {
    if i > 0 {
      PowerAdd(b, i - 1, j);
      Regroup(b, Power(b, i - 1), Power(b, j));
    }
  }

  ghost predicate IsOne(b: int, e: nat, p: nat) {
    p > 0 && Power(b, e) % p == 1
  }

  lemma OneAdd(b: int, i: nat, j: nat, p: nat)
    requires IsOne(b, i, p)
    ensures IsOne(b, i + j, p) <==> IsOne(b, j, p)
  {
    PowerAdd(b, i, j);
    ModTimes(Power(b, i), Power(b, j), p);
  }

  lemma {:induction false} OneTimes(b: int, i: nat, k: nat, p: nat)
    requires IsOne(b, i, p) && k > 0
    ensures IsOne(b, k * i, p)
  {
    if k > 1 {
      OneTimes(b, i, k - 1, p);
      OneAdd(b, i, (k - 1) * i, p);
      assert i + (k - 1) * i == k * i;
    }
  }

  lemma OneRest(b: int, m: nat, e: nat, p: nat)
    requires m > 0 && IsOne(b, m, p) && IsOne(b, e, p)
    ensures e % m == 0 || IsOne(b, e % m, p)
  {
    hide *;
    var k, r := e / m, e % m;
    Remainder(e, m, k, r);
    if k > 0 {
      OneTimes(b, m, k, p);
      OneAdd(b, k * m, r, p);
    } else {
      Nothing(m);
    }
  }

  lemma Nothing(m: nat)
    ensures 0 * m == 0
  {
  }

  /** The order of b. */
  lemma {:induction false} LeastOne(b: int, e: nat, p: nat) returns (m: nat)
    requires e > 0 && IsOne(b, e, p)
    ensures 0 < m <= e && IsOne(b, m, p) && forall j :: 0 < j < m ==> !IsOne(b, j, p)
  {
    if j :| 0 < j < e && IsOne(b, j, p) {
      m := LeastOne(b, j, p);
    } else {
      m := e;
    }
  }

  /** An exponent that gives one is the order if none of its quotients by a prime gives one. */
  lemma IsOrder(b: int, f: nat, p: nat)
    requires f > 0 && IsOne(b, f, p)
    requires forall r :: IsPrime(r) && f % r == 0 ==> !IsOne(b, f / r, p)
    ensures forall j :: 0 < j < f ==> !IsOne(b, j, p)
  {
    var m := LeastOne(b, f, p);
    OneRest(b, m, f, p);
    assert f % m == 0;
    if m < f {
      var t := f / m;
      assert t >= 2 by { assert f == t * m; MulMono(t, 1, m); }
      var r := PrimeFactor(t);
      var k := t / r;
      assert f == k * r * m;
      Quotient(k, r, m);
      assert k > 0;
      OneTimes(b, m, k, p);
      assert false;
    }
  }

  lemma Quotient(k: nat, r: nat, m: nat)
    requires r > 0
    ensures k * r * m % r == 0 && k * r * m / r == k * m
  {
    assert k * r * m == k * m * r;
    DivUnique(k * r * m, r, k * m, 0);
  }

  /** The powers below the order are different and not zero, so the order is below p. */
  lemma OrderBelow(b: int, f: nat, p: nat)
    requires p >= 2 && f > 0 && IsOne(b, f, p)
    requires forall j :: 0 < j < f ==> !IsOne(b, j, p)
    ensures f < p
  {
    var powers := seq(f, i requires 0 <= i < f => Power(b, i) % p);
    forall i | 0 <= i < f
      ensures 1 <= powers[i] < p
    {
      PowerAdd(b, i, f - i);
      ModTimes(Power(b, i), Power(b, f - i), p);
      assert Power(b, f) % p == powers[i] * Power(b, f - i) % p;
    }
    forall i, j | 0 <= i < j < f
      ensures powers[i] != powers[j]
    {
      if powers[i] == powers[j] {
        PowerAdd(b, i, f - j);
        PowerAdd(b, j, f - j);
        ModTimes(Power(b, i), Power(b, f - j), p);
        ModTimes(Power(b, j), Power(b, f - j), p);
        assert IsOne(b, i + f - j, p);
      }
    }
    Pigeonhole(powers, p);
  }

  lemma Pigeonhole(s: seq<nat>, p: nat)
    requires NoRepeats(s) && p > 0 && forall x <- s :: 1 <= x < p
    ensures |s| < p
  {
    var members := set x | x in s;
    SizeOf(s, members);
    SubsetSize(members, Below(p));
  }

  function Below(p: nat): (all: set<nat>)
    requires p > 0
    ensures |all| == p - 1 && forall x :: x in all <==> 1 <= x < p
  {
    if p == 1 then {} else Below(p - 1) + {p - 1}
  }

  lemma PrimeIfLarge(n: nat, f: nat)
    requires n >= 2 && (f + 1) * (f + 1) > n
    requires forall p :: 2 <= p && n % p == 0 ==> p > f
    ensures IsPrime(n)
  {
    forall d | 2 <= d < n
      ensures n % d != 0
    {
      if n % d == 0 {
        CofactorBelow(n, d, f);
        assert false;
      }
    }
  }

  lemma CofactorBelow(n: nat, d: nat, f: nat)
    requires 2 <= d < n && n % d == 0 && (f + 1) * (f + 1) > n
    ensures d <= f || (n / d >= 2 && n % (n / d) == 0 && n / d <= f)
  {
    var k := n / d;
    Remainder(n, d, k, 0);
    ProductAtLeast(k, d, f);
    assert k >= 2 by { MulMono(k, 1, d); }
    Commute(k, d);
    Multiple(d, k);
  }

  lemma ProductAtLeast(k: nat, d: nat, f: nat)
    ensures k > f && d > f ==> k * d >= (f + 1) * (f + 1)
  {
    MulMono(f + 1, d, f + 1);
    MulMono(f + 1, k, d);
  }

  // Powers known modulo n.

  ghost predicate Gives(n: nat, b: int, e: nat, y: int) {
    n > 0 && Power(b, e) % n == y % n
  }

  /** What holds modulo n holds modulo a divisor. */
  lemma GivesBelow(n: nat, p: nat, b: int, e: nat, y: int)
    requires Gives(n, b, e, y) && p > 0 && n % p == 0
    ensures Power(b, e) % p == y % p
  {
    ModOfMod(Power(b, e), n, p);
    ModOfMod(y, n, p);
  }

  /** y - 1 has an inverse modulo n, so that y is not one modulo any divisor. */
  lemma NotOne(n: nat, p: nat, b: int, e: nat, y: int, s: int)
    requires Gives(n, b, e, y) && n >= 2 && (y - 1) * s % n == 1
    requires p >= 2 && n % p == 0
    ensures !IsOne(b, e, p)
  {
    GivesBelow(n, p, b, e, y);
    if IsOne(b, e, p) {
      MultipleTimes(y, s, p);
      ModOfMod((y - 1) * s, n, p);
      assert false;
    }
  }

  lemma MultipleTimes(y: int, s: int, p: nat)
    requires p > 0 && y % p == 1
    ensures (y - 1) * s % p == 0
  {
    assert y - 1 == y / p * p;
    Multiple(y / p, p);
    ModTimes(y - 1, s, p);
    assert 0 * s == 0;
  }

  lemma Gives1(n: nat, b: int)
    requires n > 0
    ensures Gives(n, b, 1, b)
  {
    assert Power(b, 1) == b * Power(b, 0);
  }

  // Prime divisors of a product.

  /** The least positive multiple of y by which a prime divides. */
  lemma {:induction false} LeastMultiplier(p: nat, y: nat, e: nat) returns (m: nat)
    requires p > 0 && e > 0 && e * y % p == 0
    ensures 0 < m <= e && m * y % p == 0 && forall j :: 0 < j < m ==> j * y % p != 0
  {
    if j :| 0 < j < e && j * y % p == 0 {
      m := LeastMultiplier(p, y, j);
    } else {
      m := e;
    }
  }

  lemma MultiplierRest(p: nat, y: nat, m: nat, e: nat)
    requires p > 0 && m > 0 && m * y % p == 0 && e * y % p == 0
    ensures (e % m) * y % p == 0
  {
    var k, w := e / m, m * y / p;
    MultiplierSplit(p, y, m, e, k, w);
    ModAdd((e % m) * y, k * w, p);
  }

  lemma MultiplierSplit(p: nat, y: nat, m: nat, e: nat, k: nat, w: nat)
    requires m > 0 && k == e / m && m * y == w * p
    ensures e * y == (e % m) * y + k * w * p
  {
    assert e == k * m + e % m;
    Distributed(k, m, e % m, y);
    assert k * y * m == k * (m * y);
    Regroup(k, w, p);
  }

  lemma Euclid(p: nat, x: nat, y: nat)
    requires IsPrime(p) && x * y % p == 0
    ensures x % p == 0 || y % p == 0
  {
    if y % p != 0 {
      Multiple(y, p);
      var m := LeastMultiplier(p, y, p);
      MultiplierRest(p, y, m, p);
      assert p % m == 0;
      assert m != 1 by { assert 1 * y == y; }
      assert m == p;
      MultiplierRest(p, y, p, x);
    }
  }

  lemma OnlyFactor(q: nat, p: nat)
    requires IsPrime(p) && IsPrime(q) && q % p == 0
    ensures p == q
  {
    assert q == q / p * p;
  }

  // Orders modulo every divisor.

  ghost predicate HasOrder(b: int, f: nat, p: nat) {
    f > 0 && IsOne(b, f, p) && forall j :: 0 < j < f ==> !IsOne(b, j, p)
  }

  lemma OrderDivides(b: int, f: nat, p: nat, e: nat)
    requires HasOrder(b, f, p)
    ensures IsOne(b, e, p) <==> e % f == 0
  {
    if IsOne(b, e, p) {
      OneRest(b, f, e, p);
    }
    OneAtZero(b, f, p);
    hide HasOrder, IsOne;
    if e % f == 0 && e > 0 {
      assert e == e / f * f;
      OneTimes(b, f, e / f, p);
    }
  }

  lemma OneAtZero(b: int, e: nat, p: nat)
    requires IsOne(b, e, p)
    ensures IsOne(b, 0, p)
  {
  }

  lemma {:induction false} PowerOfProduct(b: int, c: int, e: nat)
    ensures Power(b * c, e) == Power(b, e) * Power(c, e)
  {
    if e > 0 {
      PowerOfProduct(b, c, e - 1);
      FourFactors(b, c, Power(b, e - 1), Power(c, e - 1));
    }
  }

  lemma FourFactors(a: int, b: int, c: int, d: int)
    ensures a * b * (c * d) == a * c * (b * d)
  {
  }

  /** With one factor at one, the product is at one exactly if the other factor is. */
  lemma OneOfProduct(b: int, c: int, e: nat, p: nat)
    requires IsOne(b, e, p)
    ensures IsOne(b * c, e, p) <==> IsOne(c, e, p)
    ensures IsOne(c * b, e, p) <==> IsOne(c, e, p)
  {
    PowerOfProduct(b, c, e);
    ModTimes(Power(b, e), Power(c, e), p);
    assert b * c == c * b;
  }

  /** Orders multiply when the second one is a prime that does not divide the first. */
  lemma OrdersMultiply(b: int, f: nat, c: int, r: nat, p: nat)
    requires HasOrder(b, f, p) && HasOrder(c, r, p) && IsPrime(r) && f % r != 0
    ensures HasOrder(b * c, f * r, p)
  {
    Multiple(f, r);
    Multiple(r, f);
    OrderDivides(b, f, p, f * r);
    OrderDivides(c, r, p, f * r);
    OneOfProduct(b, c, f * r, p);
    OrderFrom(b, f, c, r, p);
  }

  lemma OrderFrom(b: int, f: nat, c: int, r: nat, p: nat)
    requires HasOrder(b, f, p) && HasOrder(c, r, p) && IsPrime(r) && f % r != 0
    requires IsOne(b * c, f * r, p)
    ensures HasOrder(b * c, f * r, p)
  {
    assert f * r > 0;
    hide IsOne, IsPrime;
    forall j | 0 < j < f * r
      ensures !IsOne(b * c, j, p)
    {
      if IsOne(b * c, j, p) {
        ProductOrder(b, f, c, r, p, j);
      }
    }
  }

  lemma ProductOrder(b: int, f: nat, c: int, r: nat, p: nat, j: nat)
    requires HasOrder(b, f, p) && HasOrder(c, r, p) && IsPrime(r) && f % r != 0
    requires IsOne(b * c, j, p) && j > 0
    ensures j >= f * r
  {
    assert f > 0;
    hide *;
    OneTimes(b * c, j, f, p);
    Multiple(j, f);
    OrderDivides(b, f, p, j * f);
    assert f * j == j * f;
    OneOfProduct(b, c, f * j, p);
    OrderDivides(c, r, p, f * j);
    Euclid(r, f, j);
    OrderDivides(c, r, p, j);
    OneOfProduct(c, b, j, p);
    assert b * c == c * b;
    OrderDivides(b, f, p, j);
    AtLeastProduct(f, r, j);
  }

  lemma AtLeastProduct(f: nat, r: nat, j: nat)
    requires f > 0 && j > 0 && IsPrime(r) && f % r != 0 && j % f == 0 && j % r == 0
    ensures j >= f * r
  {
    var t := j / f;
    assert j == t * f;
    Euclid(r, t, f);
    FactorBelow(t, r);
    MulMono(r, t, f);
  }

  /** b has order f modulo every divisor of n that is at least two. */
  ghost predicate OrderBelowAll(n: nat, b: int, f: nat) {
    n >= 2 && forall p :: p >= 2 && n % p == 0 ==> HasOrder(b, f, p)
  }

  lemma PrimeOrder(n: nat, q: nat, b: int, s: int)
    requires n >= 2 && IsPrime(q) && Gives(n, b, q, 1) && (b - 1) * s % n == 1
    ensures OrderBelowAll(n, b, q)
  {
    forall p | p >= 2 && n % p == 0
      ensures HasOrder(b, q, p)
    {
      GivesBelow(n, p, b, q, 1);
      Gives1(n, b);
      NotOne(n, p, b, 1, b, s);
      forall r | IsPrime(r) && q % r == 0
        ensures !IsOne(b, q / r, p)
      {
        OnlyFactor(q, r);
      }
      IsOrder(b, q, p);
    }
  }

  /** The order of minus one. */
  lemma SignOrder(n: nat)
    requires n >= 3 && n % 2 == 1
    ensures OrderBelowAll(n, -1, 2) && IsPrime(2)
  {
    var h := (n - 1) / 2;
    assert Power(-1, 2) == -1 * Power(-1, 1);
    assert Gives(n, -1, 2, 1);
    assert (-1 - 1) * h == 1 - n;
    ModAdd(1, -1, n);
    PrimeOrder(n, 2, -1, h);
  }

  lemma OrdersBelowAll(n: nat, b: int, f: nat, c: int, r: nat)
    requires OrderBelowAll(n, b, f) && OrderBelowAll(n, c, r) && IsPrime(r) && f % r != 0
    ensures OrderBelowAll(n, b * c, f * r)
  {
    forall p | p >= 2 && n % p == 0
      ensures HasOrder(b * c, f * r, p)
    {
      assert HasOrder(b, f, p) && HasOrder(c, r, p);
      OrdersMultiply(b, f, c, r, p);
    }
  }

  lemma LargeOrder(n: nat, b: int, f: nat)
    requires OrderBelowAll(n, b, f) && (f + 1) * (f + 1) > n
    ensures IsPrime(n)
  {
    forall p | 2 <= p && n % p == 0
      ensures p > f
    {
      assert HasOrder(b, f, p);
      OrderBelow(b, f, p);
    }
    PrimeIfLarge(n, f);
  }

  // Trial division.

  ghost predicate NoTinyFactor(n: nat) {
    n % 2 != 0 && n % 3 != 0 && n % 5 != 0 && n % 7 != 0 && n % 11 != 0 && n % 13 != 0 && n % 17 != 0
  }

  ghost predicate NoSmallFactor(n: nat) {
    n % 19 != 0 && n % 23 != 0 && n % 29 != 0 && n % 31 != 0 && n % 37 != 0 && n % 41 != 0 && n % 43 != 0 &&
    n % 47 != 0 && n % 53 != 0 && n % 59 != 0 && n % 61 != 0 && n % 67 != 0 && n % 71 != 0 && n % 73 != 0 &&
    n % 79 != 0 && n % 83 != 0 && n % 89 != 0 && n % 97 != 0 && n % 101 != 0 && n % 103 != 0 && n % 107 != 0 &&
    n % 109 != 0 && n % 113 != 0 && n % 127 != 0 && n % 131 != 0 && n % 137 != 0 && n % 139 != 0 && n % 149 != 0 &&
    n % 151 != 0 && n % 157 != 0
  }

  ghost predicate NoLargerFactor(n: nat) {
    n % 163 != 0 && n % 167 != 0 && n % 173 != 0 && n % 179 != 0 && n % 181 != 0 && n % 191 != 0 && n % 193 != 0 &&
    n % 197 != 0 && n % 199 != 0 && n % 211 != 0 && n % 223 != 0 && n % 227 != 0 && n % 229 != 0 && n % 233 != 0 &&
    n % 239 != 0 && n % 241 != 0 && n % 251 != 0 && n % 257 != 0 && n % 263 != 0 && n % 269 != 0 && n % 271 != 0 &&
    n % 277 != 0 && n % 281 != 0 && n % 283 != 0 && n % 293 != 0
  }

  lemma Wheel(d: nat)
    requires d % 2 != 0 && d % 3 != 0 && d % 5 != 0
    ensures var r := d % 30; r == 1 || r == 7 || r == 11 || r == 13 || r == 17 || r == 19 || r == 23 || r == 29
  {
    var q, r := d / 30, d % 30;
    ModAdd(r, 15 * q, 2);
    ModAdd(r, 10 * q, 3);
    ModAdd(r, 6 * q, 5);
    assert r % 2 != 0 && r % 3 != 0 && r % 5 != 0;
  }

  lemma SmallOnes(r: nat)
    requires NoTinyFactor(r) && 19 <= r < 160
    ensures r == 19 || r == 23 || r == 29 || r == 31 || r == 37 || r == 41 || r == 43 || r == 47 || r == 53 || r == 59 ||
      r == 61 || r == 67 || r == 71 || r == 73 || r == 79 || r == 83 || r == 89 || r == 97 || r == 101 || r == 103 ||
      r == 107 || r == 109 || r == 113 || r == 127 || r == 131 || r == 137 || r == 139 || r == 149 || r == 151 ||
      r == 157
  {
    Wheel(r);
  }

  lemma SmallFactor(n: nat, r: nat)
    requires NoTinyFactor(r) && 19 <= r < 160 && n % r == 0
    ensures !NoSmallFactor(n)
  {
    SmallOnes(r);
  }

  lemma LargerOnes(r: nat)
    requires NoTinyFactor(r) && 160 <= r < 300
    ensures r == 163 || r == 167 || r == 173 || r == 179 || r == 181 || r == 191 || r == 193 || r == 197 || r == 199 ||
      r == 211 || r == 223 || r == 227 || r == 229 || r == 233 || r == 239 || r == 241 || r == 251 || r == 257 ||
      r == 263 || r == 269 || r == 271 || r == 277 || r == 281 || r == 283 || r == 293
  {
    Wheel(r);
  }

  lemma LargerFactor(n: nat, r: nat)
    requires NoTinyFactor(r) && 160 <= r < 300 && n % r == 0
    ensures !NoLargerFactor(n)
  {
    LargerOnes(r);
  }

  /** A prime that divides a number without tiny factors has none itself. */
  lemma TinyFactor(n: nat, r: nat)
    requires NoTinyFactor(n) && IsPrime(r) && n % r == 0
    ensures NoTinyFactor(r) && r >= 19
  {
    PrimeNoTinyFactor(r);
  }

  lemma PrimeNoTinyFactor(r: nat)
    requires IsPrime(r)
    ensures (NoTinyFactor(r) && r >= 19) || r == 2 || r == 3 || r == 5 || r == 7 || r == 11 || r == 13 || r == 17
  {
  }

  lemma FactorBelow(p: nat, r: nat)
    requires p > 0 && r > 0 && p % r == 0
    ensures r <= p
  {
  }

  lemma SmallestPrimes()
    ensures IsPrime(2) && IsPrime(3) && IsPrime(5) && IsPrime(7) && IsPrime(11) && IsPrime(13) && IsPrime(17)
  {
    assert forall d :: 2 <= d < 3 ==> 3 % d != 0;
    PrimeIfNotEven(5);
    PrimeIfNotEven(7);
    PrimeIfNotEven(11);
    PrimeIfNotEven(13);
    PrimeIfNotEven(17);
  }

  lemma PrimeIfNotEven(n: nat)
    requires 5 <= n < 25 && n % 2 != 0 && n % 3 != 0
    ensures IsPrime(n)
  {
    forall p | 2 <= p && n % p == 0
      ensures p > 4
    {
    }
    PrimeIfLarge(n, 4);
  }

  lemma ByShortTrial(n: nat)
    requires 19 <= n < 19 * 19 && NoTinyFactor(n)
    ensures IsPrime(n)
  {
    forall p | 2 <= p && n % p == 0
      ensures p > 18
    {
      var r := PrimeFactor(p);
      Divides(n, p, r);
      TinyFactor(n, r);
      FactorBelow(p, r);
    }
    PrimeIfLarge(n, 18);
  }

  lemma ByTrial(n: nat)
    requires 300 <= n < 300 * 300
    requires n % 2 != 0 && n % 3 != 0 && n % 5 != 0 && n % 7 != 0 && n % 11 != 0 && n % 13 != 0 && n % 17 != 0
    requires n % 19 != 0 && n % 23 != 0 && n % 29 != 0 && n % 31 != 0 && n % 37 != 0 && n % 41 != 0 && n % 43 != 0 &&
      n % 47 != 0 && n % 53 != 0 && n % 59 != 0 && n % 61 != 0 && n % 67 != 0 && n % 71 != 0 && n % 73 != 0 &&
      n % 79 != 0 && n % 83 != 0 && n % 89 != 0 && n % 97 != 0 && n % 101 != 0 && n % 103 != 0 && n % 107 != 0 &&
      n % 109 != 0 && n % 113 != 0 && n % 127 != 0 && n % 131 != 0 && n % 137 != 0 && n % 139 != 0 && n % 149 != 0 &&
      n % 151 != 0 && n % 157 != 0
    requires n % 163 != 0 && n % 167 != 0 && n % 173 != 0 && n % 179 != 0 && n % 181 != 0 && n % 191 != 0 && n % 193 != 0 &&
      n % 197 != 0 && n % 199 != 0 && n % 211 != 0 && n % 223 != 0 && n % 227 != 0 && n % 229 != 0 && n % 233 != 0 &&
      n % 239 != 0 && n % 241 != 0 && n % 251 != 0 && n % 257 != 0 && n % 263 != 0 && n % 269 != 0 && n % 271 != 0 &&
      n % 277 != 0 && n % 281 != 0 && n % 283 != 0 && n % 293 != 0
    ensures IsPrime(n)
  {
    assert NoTinyFactor(n) && NoSmallFactor(n) && NoLargerFactor(n);
    hide *;
    forall p | 2 <= p && n % p == 0
      ensures p > 299
    {
      var r := PrimeFactor(p);
      Divides(n, p, r);
      TinyFactor(n, r);
      FactorBelow(p, r);
      if r < 160 {
        SmallFactor(n, r);
      } else if r < 300 {
        LargerFactor(n, r);
      }
    }
    PrimeIfLarge(n, 299);
  }

  // Powers modulo n, two bits of the exponent at a time.

  lemma GivesProduct(n: nat, b: int, i: nat, x: int, j: nat, y: int)
    requires Gives(n, b, i, x) && Gives(n, b, j, y)
    ensures Gives(n, b, i + j, x * y)
  {
    PowerAdd(b, i, j);
    ModProduct(Power(b, i), Power(b, j), n);
    ModProduct(x, y, n);
  }

  lemma GivesRest(n: nat, b: int, i: nat, x: int)
    requires Gives(n, b, i, x)
    ensures Gives(n, b, i, x % n)
  {
  }

  /** The powers of b below the fourth: c is the square and d the cube. */
  lemma LowPowers(n: nat, b: int, c: int, d: int)
    requires n > 0 && c == b * b % n && d == b * b * b % n
    ensures Gives(n, b, 0, 1) && Gives(n, b, 1, b) && Gives(n, b, 2, c) && Gives(n, b, 3, d)
  {
    Gives1(n, b);
    GivesProduct(n, b, 1, b, 1, b);
    GivesProduct(n, b, 2, b * b, 1, b);
    GivesRest(n, b, 2, b * b);
    GivesRest(n, b, 3, b * b * b);
  }

  function Low(b: int, c: int, d: int, k: nat): int {
    if k == 0 then 1 else if k == 1 then b else if k == 2 then c else d
  }

  lemma FourthPower(n: nat, b: int, c: int, d: int, e: nat, x: int, k: nat, y: int)
    requires n > 0 && c == b * b % n && d == b * b * b % n && Gives(n, b, e, x)
    requires k < 4 && x * x * x * x * Low(b, c, d, k) % n == y
    ensures Gives(n, b, 4 * e + k, y)
  {
    LowPowers(n, b, c, d);
    hide Gives, Power;
    GivesProduct(n, b, e, x, e, x);
    GivesProduct(n, b, 2 * e, x * x, e, x);
    GivesProduct(n, b, 3 * e, x * x * x, e, x);
    GivesProduct(n, b, 4 * e, x * x * x * x, k, Low(b, c, d, k));
    GivesRest(n, b, 4 * e + k, x * x * x * x * Low(b, c, d, k));
  }

  ghost predicate Starts(n: nat, b: int, c: int, d: int, e: nat, x: int) {
    && n > 0 && c == b * b % n && d == b * b * b % n
    && ((e < 4 && x == Low(b, c, d, e)) || Gives(n, b, e, x))
  }

  lemma FourBits(n: nat, b: int, c: int, d: int, e: nat, x: int,
                 k1: nat, x1: int, k2: nat, x2: int)
    requires Starts(n, b, c, d, e, x)
    requires x * x * x * x * Low(b, c, d, k1) % n == x1 && k1 < 4
    requires x1 * x1 * x1 * x1 * Low(b, c, d, k2) % n == x2 && k2 < 4
    ensures Gives(n, b, 16 * e + 4 * k1 + k2, x2)
  {
    LowPowers(n, b, c, d);
    hide Gives, Power;
    FourthPower(n, b, c, d, e, x, k1, x1);
    FourthPower(n, b, c, d, 4 * e + k1, x1, k2, x2);
  }

  /** Eight bits of the exponent, in four digits, each followed by the power so far. */
  lemma EightBits(n: nat, b: int, c: int, d: int, e: nat, x: int,
                  k1: nat, x1: int, k2: nat, x2: int, k3: nat, x3: int, k4: nat, x4: int)
    requires Starts(n, b, c, d, e, x)
    requires x * x * x * x * Low(b, c, d, k1) % n == x1 && k1 < 4
    requires x1 * x1 * x1 * x1 * Low(b, c, d, k2) % n == x2 && k2 < 4
    requires x2 * x2 * x2 * x2 * Low(b, c, d, k3) % n == x3 && k3 < 4
    requires x3 * x3 * x3 * x3 * Low(b, c, d, k4) % n == x4 && k4 < 4
    ensures Gives(n, b, 256 * e + 64 * k1 + 16 * k2 + 4 * k3 + k4, x4)
  {
    LowPowers(n, b, c, d);
    hide Gives, Power;
    FourthPower(n, b, c, d, e, x, k1, x1);
    FourthPower(n, b, c, d, 4 * e + k1, x1, k2, x2);
    FourthPower(n, b, c, d, 16 * e + 4 * k1 + k2, x2, k3, x3);
    FourthPower(n, b, c, d, 64 * e + 16 * k1 + 4 * k2 + k3, x3, k4, x4);
  }

  lemma TwelveBits(n: nat, b: int, c: int, d: int, e: nat, x: int,
                   k1: nat, x1: int, k2: nat, x2: int, k3: nat, x3: int, k4: nat, x4: int,
                   k5: nat, x5: int, k6: nat, x6: int)
    requires Starts(n, b, c, d, e, x)
    requires x * x * x * x * Low(b, c, d, k1) % n == x1 && k1 < 4
    requires x1 * x1 * x1 * x1 * Low(b, c, d, k2) % n == x2 && k2 < 4
    requires x2 * x2 * x2 * x2 * Low(b, c, d, k3) % n == x3 && k3 < 4
    requires x3 * x3 * x3 * x3 * Low(b, c, d, k4) % n == x4 && k4 < 4
    requires x4 * x4 * x4 * x4 * Low(b, c, d, k5) % n == x5 && k5 < 4
    requires x5 * x5 * x5 * x5 * Low(b, c, d, k6) % n == x6 && k6 < 4
    ensures var f := 256 * e + 64 * k1 + 16 * k2 + 4 * k3 + k4;
      Gives(n, b, 16 * f + 4 * k5 + k6, x6)
  {
    hide Gives, Power, Low;
    EightBits(n, b, c, d, e, x, k1, x1, k2, x2, k3, x3, k4, x4);
    FourBits(n, b, c, d, 256 * e + 64 * k1 + 16 * k2 + 4 * k3 + k4, x4, k5, x5, k6, x6);
  }

  lemma SixteenBits(n: nat, b: int, c: int, d: int, e: nat, x: int,
                    k1: nat, x1: int, k2: nat, x2: int, k3: nat, x3: int, k4: nat, x4: int,
                    k5: nat, x5: int, k6: nat, x6: int, k7: nat, x7: int, k8: nat, x8: int)
    requires Starts(n, b, c, d, e, x)
    requires x * x * x * x * Low(b, c, d, k1) % n == x1 && k1 < 4
    requires x1 * x1 * x1 * x1 * Low(b, c, d, k2) % n == x2 && k2 < 4
    requires x2 * x2 * x2 * x2 * Low(b, c, d, k3) % n == x3 && k3 < 4
    requires x3 * x3 * x3 * x3 * Low(b, c, d, k4) % n == x4 && k4 < 4
    requires x4 * x4 * x4 * x4 * Low(b, c, d, k5) % n == x5 && k5 < 4
    requires x5 * x5 * x5 * x5 * Low(b, c, d, k6) % n == x6 && k6 < 4
    requires x6 * x6 * x6 * x6 * Low(b, c, d, k7) % n == x7 && k7 < 4
    requires x7 * x7 * x7 * x7 * Low(b, c, d, k8) % n == x8 && k8 < 4
    ensures var f := 256 * e + 64 * k1 + 16 * k2 + 4 * k3 + k4;
      Gives(n, b, 256 * f + 64 * k5 + 16 * k6 + 4 * k7 + k8, x8)
  {
    hide Gives, Power, Low;
    EightBits(n, b, c, d, e, x, k1, x1, k2, x2, k3, x3, k4, x4);
    EightBits(n, b, c, d, 256 * e + 64 * k1 + 16 * k2 + 4 * k3 + k4, x4, k5, x5, k6, x6, k7, x7, k8, x8);
  }

  // Certificates.

  lemma ByOne(n: nat, q: nat, b: int, s: int)
    requires n >= 2 && IsPrime(q) && Gives(n, b, q, 1) && (b - 1) * s % n == 1
    requires (q + 1) * (q + 1) > n
    ensures IsPrime(n)
  {
    PrimeOrder(n, q, b, s);
    LargeOrder(n, b, q);
  }

  lemma BySign(n: nat, q: nat, b: int, s: int)
    requires n >= 3 && n % 2 == 1 && IsPrime(q) && q > 2 && Gives(n, b, q, 1) && (b - 1) * s % n == 1
    requires (q * 2 + 1) * (q * 2 + 1) > n
    ensures IsPrime(n)
  {
    PrimeOrder(n, q, b, s);
    SignOrder(n);
    OrdersBelowAll(n, b, q, -1, 2);
    LargeOrder(n, b * -1, q * 2);
  }

  lemma ByTwo(n: nat, q: nat, b: int, s: int, r: nat, c: int, t: int)
    requires n >= 2 && q != r && (q * r + 1) * (q * r + 1) > n
    requires IsPrime(q) && Gives(n, b, q, 1) && (b - 1) * s % n == 1
    requires IsPrime(r) && Gives(n, c, r, 1) && (c - 1) * t % n == 1
    ensures IsPrime(n)
  {
    PrimeOrder(n, q, b, s);
    PrimeOrder(n, r, c, t);
    Coprime(q, r);
    OrdersBelowAll(n, b, q, c, r);
    LargeOrder(n, b * c, q * r);
  }

  lemma ByThree(n: nat, q: nat, b: int, s: int, r: nat, c: int, t: int, u: nat, d: int, v: int)
    requires n >= 2 && q != r && q != u && r != u && (q * r * u + 1) * (q * r * u + 1) > n
    requires IsPrime(q) && Gives(n, b, q, 1) && (b - 1) * s % n == 1
    requires IsPrime(r) && Gives(n, c, r, 1) && (c - 1) * t % n == 1
    requires IsPrime(u) && Gives(n, d, u, 1) && (d - 1) * v % n == 1
    ensures IsPrime(n)
  {
    PrimeOrder(n, q, b, s);
    PrimeOrder(n, r, c, t);
    PrimeOrder(n, u, d, v);
    Coprime(q, r);
    Coprime(q, u);
    Coprime(r, u);
    if q * r % u == 0 {
      Euclid(u, q, r);
    }
    OrdersBelowAll(n, b, q, c, r);
    OrdersBelowAll(n, b * c, q * r, d, u);
    LargeOrder(n, b * c * d, q * r * u);
  }

  lemma Coprime(q: nat, r: nat)
    requires IsPrime(q) && IsPrime(r) && q != r
    ensures q % r != 0
  {
    if q % r == 0 {
      OnlyFactor(q, r);
    }
  }
}
