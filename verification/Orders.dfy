/** The comparison a container is given. */
module Orders {

  datatype Order<!T> = Order(lt: (T, T) -> bool)

  predicate Less<T>(o: Order<T>, x: T, y: T) {
    o.lt(x, y)
  }

  /** What the containers require of it. */
  ghost predicate StrictWeakOrder<T(!new)>(o: Order<T>) {
    && (forall x :: !Less(o, x, x))
    && (forall x, y, z :: Less(o, x, y) && Less(o, y, z) ==> Less(o, x, z))
    && (forall x, y, z :: !Less(o, x, y) && !Less(o, y, z) ==> !Less(o, x, z))
  }

  predicate Equivalent<T>(o: Order<T>, x: T, y: T) {
    !Less(o, x, y) && !Less(o, y, x)
  }

  ghost predicate Increasing<T>(o: Order<T>, s: seq<T>) {
    forall i, j :: 0 <= i < j < |s| ==> Less(o, s[i], s[j])
  }

  ghost predicate ContainsKey<T>(o: Order<T>, s: seq<T>, x: T) {
    exists i :: 0 <= i < |s| && Equivalent(o, s[i], x)
  }

  // A set as the increasing sequence of its elements: the reference for the containers.

  ghost function InsertKey<T>(o: Order<T>, s: seq<T>, x: T): seq<T> {
    if s == [] then [x]
    else if Less(o, x, s[0]) then [x] + s
    else if Less(o, s[0], x) then [s[0]] + InsertKey(o, s[1..], x)
    else s
  }

  ghost function InsertKeys<T>(o: Order<T>, s: seq<T>, xs: seq<T>): seq<T>
    decreases |xs|
  {
    if xs == [] then s else InsertKey(o, InsertKeys(o, s, xs[..|xs| - 1]), xs[|xs| - 1])
  }

  /** A new key goes in front of the first key that is not less. */
  lemma {:induction false} InsertKeyAt<T(!new)>(o: Order<T>, s: seq<T>, x: T, k: nat)
    requires StrictWeakOrder(o) && Increasing(o, s) && k <= |s|
    requires k > 0 ==> Less(o, s[k - 1], x)
    requires k < |s| ==> Less(o, x, s[k])
    ensures InsertKey(o, s, x) == s[..k] + [x] + s[k..]
    ensures !ContainsKey(o, s, x)
  {
    forall i | 0 <= i < |s| ensures !Equivalent(o, s[i], x) {
      if i < k { assert i == k - 1 || Less(o, s[i], s[k - 1]); } else { assert i == k || Less(o, s[k], s[i]); }
    }
    if k == 0 {
    } else {
      assert k == 1 || Less(o, s[0], s[k - 1]);
      var u := s[1..];
      InsertKeyAt(o, u, x, k - 1);
      assert s[..k] == [s[0]] + u[..k - 1] && s[k..] == u[k - 1..];
    }
  }

  lemma {:induction false} InsertKeyPresent<T(!new)>(o: Order<T>, s: seq<T>, x: T)
    requires StrictWeakOrder(o) && Increasing(o, s) && ContainsKey(o, s, x)
    ensures InsertKey(o, s, x) == s
  {
    var i :| 0 <= i < |s| && Equivalent(o, s[i], x);
    if i > 0 {
      assert Less(o, s[0], s[i]);
      var u := s[1..];
      assert u[i - 1] == s[i];
      InsertKeyPresent(o, u, x);
    }
  }

  lemma InsertedIncreasing<T(!new)>(o: Order<T>, s: seq<T>, x: T, k: nat)
    requires StrictWeakOrder(o) && Increasing(o, s) && k <= |s|
    requires k > 0 ==> Less(o, s[k - 1], x)
    requires k < |s| ==> Less(o, x, s[k])
    ensures Increasing(o, s[..k] + [x] + s[k..])
  {
    var u := s[..k] + [x] + s[k..];
    forall i | 0 <= i < k ensures Less(o, s[i], x) { assert i == k - 1 || Less(o, s[i], s[k - 1]); }
    forall j | k <= j < |s| ensures Less(o, x, s[j]) { assert j == k || Less(o, s[k], s[j]); }
    hide StrictWeakOrder;
    forall i, j | 0 <= i < j < |u| ensures Less(o, u[i], u[j]) {
      assert u[i] == if i < k then s[i] else if i == k then x else s[i - 1];
      assert u[j] == if j < k then s[j] else if j == k then x else s[j - 1];
    }
  }

  lemma InsertedContains<T>(o: Order<T>, s: seq<T>, x: T, k: nat, y: T)
    requires k <= |s|
    ensures ContainsKey(o, s[..k] + [x] + s[k..], y) <==> ContainsKey(o, s, y) || Equivalent(o, x, y)
  {
    var u := s[..k] + [x] + s[k..];
    if i :| 0 <= i < |s| && Equivalent(o, s[i], y) {
      assert u[if i < k then i else i + 1] == s[i];
    }
    if i :| 0 <= i < |u| && Equivalent(o, u[i], y) {
      assert u[i] == if i < k then s[i] else if i == k then x else s[i - 1];
    }
    assert u[k] == x;
  }

  /** Inserting adds the one key, as a set up to equivalence, and keeps the order. */
  lemma InsertKeyMeaning<T(!new)>(o: Order<T>, s: seq<T>, x: T, y: T)
    requires StrictWeakOrder(o) && Increasing(o, s)
    ensures Increasing(o, InsertKey(o, s, x))
    ensures ContainsKey(o, InsertKey(o, s, x), y) <==> ContainsKey(o, s, y) || Equivalent(o, x, y)
  {
    var k := Place(o, s, x);
    if k < |s| && !Less(o, x, s[k]) {
      assert Equivalent(o, s[k], x);
      InsertKeyPresent(o, s, x);
      if Equivalent(o, x, y) { assert Equivalent(o, s[k], y); }
    } else {
      hide Increasing, ContainsKey;
      InsertKeyAt(o, s, x, k);
      InsertedIncreasing(o, s, x, k);
      InsertedContains(o, s, x, k, y);
    }
  }

  lemma {:induction false} InsertKeysMeaning<T(!new)>(o: Order<T>, s: seq<T>, xs: seq<T>, y: T)
    requires StrictWeakOrder(o) && Increasing(o, s)
    ensures Increasing(o, InsertKeys(o, s, xs))
    ensures ContainsKey(o, InsertKeys(o, s, xs), y) <==> ContainsKey(o, s, y) || ContainsKey(o, xs, y)
    decreases |xs|
  {
    if xs != [] {
      var n := |xs| - 1;
      InsertKeysMeaning(o, s, xs[..n], y);
      InsertKeyMeaning(o, InsertKeys(o, s, xs[..n]), xs[n], y);
      InsertedContains(o, xs[..n], xs[n], n, y);
      assert xs[..n][..n] + [xs[n]] + xs[..n][n..] == xs;
    }
  }

  /** Where x belongs in an increasing sequence. */
  lemma Place<T(!new)>(o: Order<T>, s: seq<T>, x: T) returns (k: nat)
    requires StrictWeakOrder(o) && Increasing(o, s)
    ensures k <= |s| && (k > 0 ==> Less(o, s[k - 1], x)) && (k < |s| ==> !Less(o, s[k], x))
  {
    k := 0;
    while k < |s| && Less(o, s[k], x)
      invariant k <= |s| && (k > 0 ==> Less(o, s[k - 1], x))
    {
      k := k + 1;
    }
  }
}
