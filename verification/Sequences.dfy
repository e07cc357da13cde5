/** Facts about sequences and sets that several modules share. */
module Sequences {
  ghost predicate NoRepeats<X>(s: seq<X>) {
    forall i, j :: 0 <= i < j < |s| ==> s[i] != s[j]
  }

  ghost predicate Ascending(s: seq<int>) {
    forall i, j :: 0 <= i < j < |s| ==> s[i] < s[j]
  }

  lemma Associative<X>(a: seq<X>, b: seq<X>, c: seq<X>)
    ensures a + (b + c) == a + b + c
  {
  }

  lemma DropTwice<X>(s: seq<X>, i: nat, j: nat)
    requires i + j <= |s|
    ensures s[i..][j..] == s[i + j..]
  {
  }

  lemma ThreePieces<X>(c: seq<X>, i: nat, j: nat)
    requires i <= j <= |c|
    ensures c[..i] + c[i..j] + c[j..] == c
  {
  }

  lemma FourPieces<X>(c: seq<X>, i: nat, j: nat, k: nat)
    requires i <= j <= k <= |c|
    ensures c[..i] + c[i..j] + c[j..k] + c[k..] == c
  {
  }

  /** The element at position i; end stands for the position behind the last one. */
  ghost function At<X>(s: seq<X>, i: nat, end: X): X {
    if i < |s| then s[i] else end
  }

  function Reversed<X>(s: seq<X>): (r: seq<X>)
    ensures |r| == |s| && forall k :: 0 <= k < |s| ==> r[k] == s[|s| - 1 - k]
  {
    seq(|s|, k requires 0 <= k < |s| => s[|s| - 1 - k])
  }

  lemma {:induction false} SubsetSize<X>(a: set<X>, b: set<X>)
    requires a <= b
    ensures |a| <= |b| && (|a| == |b| ==> a == b)
  {
    if a != b {
      var x :| x in b && x !in a;
      assert a <= b - {x};
      SubsetSize(a, b - {x});
    }
  }

  /** A sequence that lists a set without repeating an element is as long as the set is large. */
  lemma {:induction false} SizeOf<X>(l: seq<X>, s: set<X>)
    requires NoRepeats(l) && (forall x <- l :: x in s) && forall x <- s :: x in l
    ensures |l| == |s|
  {
    if l == [] {
      assert s == {};
    } else {
      var m := |l| - 1;
      forall x <- s - {l[m]} ensures x in l[..m] { assert x in l; }
      SizeOf(l[..m], s - {l[m]});
    }
  }
}
