/** Hash tables with chained nodes and unique keys. */
module HashTables {
  import opened Arithmetic
  import opened Primes
  import opened Sequences

  class Node<T> {
    var next: Node?<T>
    const value: T
    const hash: nat

    constructor (next: Node?<T>, value: T, hash: nat)
      ensures this.next == next && this.value == value && this.hash == hash
    {
      this.next, this.value, this.hash := next, value, hash;
    }
  }

  // Chains.

  ghost function First<T>(l: seq<Node<T>>): Node?<T> {
    if l == [] then null else l[0]
  }

  ghost function Follow<T>(l: seq<Node<T>>, k: nat): Node?<T> {
    if k + 1 < |l| then l[k + 1] else null
  }

  /** The links from head on run through exactly the nodes of l. */
  ghost predicate Chain<T>(head: Node?<T>, l: seq<Node<T>>)
    reads l
  {
    head == First(l) && forall k :: 0 <= k < |l| ==> l[k].next == Follow(l, k)
  }

  /** Every node of nodes is in the chain of its hash, and no chain holds anything else. */
  ghost predicate Stored<T>(chains: seq<seq<Node<T>>>, nodes: set<Node<T>>) {
    && (forall i :: 0 <= i < |chains| ==> NoRepeats(chains[i]))
    && (forall i, n :: 0 <= i < |chains| && n in chains[i] ==> n in nodes && n.hash % |chains| == i)
    && (forall n <- nodes :: |chains| > 0 && n in chains[n.hash % |chains|])
  }

  ghost predicate Linked<T>(buckets: array<Node?<T>>, chains: seq<seq<Node<T>>>, nodes: set<Node<T>>)
    reads buckets, nodes
    requires Stored(chains, nodes)
  {
    && |chains| == buckets.Length
    && forall i :: 0 <= i < |chains| ==> Chain(buckets[i], chains[i])
  }

  // The order of iteration.

  ghost function All<T>(chains: seq<seq<Node<T>>>): seq<Node<T>> {
    if chains == [] then [] else chains[0] + All(chains[1..])
  }

  /** How many nodes come before chain i. */
  ghost function Start<T>(chains: seq<seq<Node<T>>>, i: nat): nat
    requires i <= |chains|
  {
    if i == 0 then 0 else |chains[0]| + Start(chains[1..], i - 1)
  }

  lemma {:induction false} AllAt<T>(chains: seq<seq<Node<T>>>, i: nat)
    requires i < |chains|
    ensures Start(chains, i) + |chains[i]| == Start(chains, i + 1) <= |All(chains)|
    ensures All(chains)[Start(chains, i)..Start(chains, i + 1)] == chains[i]
  {
    var rest := chains[1..];
    if i == 0 {
      assert Start(rest, 0) == 0;
      assert All(chains)[..|chains[0]|] == chains[0];
    } else {
      AllAt(rest, i - 1);
      assert All(chains)[Start(chains, i)..Start(chains, i + 1)]
          == All(rest)[Start(rest, i - 1)..Start(rest, i)];
    }
  }

  lemma {:induction false} AllEnd<T>(chains: seq<seq<Node<T>>>)
    ensures Start(chains, |chains|) == |All(chains)|
  {
    if chains != [] { AllEnd(chains[1..]); }
  }

  /** Where the p-th node stands. */
  lemma {:induction false} Locate<T>(chains: seq<seq<Node<T>>>, p: nat) returns (i: nat, k: nat)
    requires p < |All(chains)|
    ensures i < |chains| && p == Start(chains, i) + k && k < |chains[i]|
    ensures All(chains)[p] == chains[i][k]
  {
    if p < |chains[0]| {
      i, k := 0, p;
    } else {
      i, k := Locate(chains[1..], p - |chains[0]|);
      i := i + 1;
    }
  }

  lemma AllNoRepeats<T>(chains: seq<seq<Node<T>>>, nodes: set<Node<T>>)
    requires Stored(chains, nodes)
    ensures NoRepeats(All(chains))
  {
    hide Start, All;
    var all := All(chains);
    forall p, q | 0 <= p < q < |all| ensures all[p] != all[q] {
      var i, k := Locate(chains, p);
      var j, l := Locate(chains, q);
      assert all[p] in chains[i] && all[q] in chains[j];
      assert i == j ==> k < l && chains[i][k] != chains[j][l];
      assert i != j ==> all[p].hash % |chains| != all[q].hash % |chains|;
    }
  }

  lemma InAll<T>(chains: seq<seq<Node<T>>>, nodes: set<Node<T>>, n: Node<T>)
    requires Stored(chains, nodes) && n in nodes
    ensures n in All(chains)
  {
    hide Start, All, NoRepeats;
    var i := n.hash % |chains|;
    AllAt(chains, i);
    assert n in All(chains)[Start(chains, i)..Start(chains, i + 1)];
  }

  /** Iteration meets every stored node once. */
  lemma AllStored<T>(chains: seq<seq<Node<T>>>, nodes: set<Node<T>>)
    requires Stored(chains, nodes)
    ensures NoRepeats(All(chains)) && |All(chains)| == |nodes| && Lists(All(chains), nodes)
    ensures forall p :: 0 <= p < |All(chains)| ==> All(chains)[p] in nodes
  {
    AllNoRepeats(chains, nodes);
    forall p: nat | p < |All(chains)| ensures All(chains)[p] in nodes {
      var i, k := Locate(chains, p);
      assert chains[i][k] in chains[i];
    }
    forall n <- nodes ensures n in All(chains) { InAll(chains, nodes, n); }
    hide Stored, All;
    SizeOf(All(chains), nodes);
  }

  /** l lists the nodes of s. */
  ghost predicate Lists<T>(l: seq<Node<T>>, s: set<Node<T>>) {
    (forall n <- l :: n in s) && (forall n <- s :: n in l)
  }

  // Iterators: a node and the index of its bucket; the end is null at the bucket count.

  ghost predicate Heads<T>(buckets: array<Node?<T>>, chains: seq<seq<Node<T>>>)
    reads buckets
  {
    |chains| == buckets.Length && forall i :: 0 <= i < |chains| ==> buckets[i] == First(chains[i])
  }

  /** The iterator stands at the p-th node, or at the end. */
  ghost predicate AtPosition<T>(chains: seq<seq<Node<T>>>, it: Node?<T>, index: nat, p: nat) {
    if it == null then p == |All(chains)| && index == |chains|
    else index < |chains| && Start(chains, index) <= p < Start(chains, index) + |chains[index]|
         && it == chains[index][p - Start(chains, index)]
  }

  lemma PositionMeans<T>(chains: seq<seq<Node<T>>>, it: Node?<T>, index: nat, p: nat)
    requires AtPosition(chains, it, index, p)
    ensures p <= |All(chains)| && (it == null <==> p == |All(chains)|)
    ensures it != null ==> All(chains)[p] == it
  {
    if it != null {
      AllAt(chains, index);
      assert All(chains)[p] == All(chains)[Start(chains, index)..Start(chains, index + 1)][p - Start(chains, index)];
    }
  }

  method SkipEmpty<T>(buckets: array<Node?<T>>, from: nat, ghost chains: seq<seq<Node<T>>>)
    returns (it: Node?<T>, index: nat)
    requires Heads(buckets, chains) && from <= |chains|
    ensures AtPosition(chains, it, index, Start(chains, from))
  {
    index := from;
    while index != buckets.Length && buckets[index] == null
      invariant index <= |chains| && Start(chains, index) == Start(chains, from)
    {
      AllAt(chains, index);
      index := index + 1;
    }
    if index == buckets.Length {
      it := null;
      AllEnd(chains);
    } else {
      it := buckets[index];
    }
  }

  /** begin() */
  method Begin<T>(buckets: array<Node?<T>>, ghost chains: seq<seq<Node<T>>>) returns (it: Node?<T>, index: nat)
    requires Heads(buckets, chains)
    ensures AtPosition(chains, it, index, 0)
  {
    it, index := SkipEmpty(buckets, 0, chains);
  }

  /** operator++; of the links it reads only the node's own. */
  method Increment<T>(node: Node<T>, i: nat, buckets: array<Node?<T>>, ghost chains: seq<seq<Node<T>>>, ghost p: nat)
    returns (it: Node?<T>, index: nat)
    requires Heads(buckets, chains) && AtPosition(chains, node, i, p)
    requires node.next == Follow(chains[i], p - Start(chains, i))
    ensures AtPosition(chains, it, index, p + 1)
  {
    if node.next != null {
      it, index := node.next, i;
    } else {
      AllAt(chains, i);
      it, index := SkipEmpty(buckets, i + 1, chains);
    }
  }

  // Linking and relinking.

  lemma StoredMore<T>(chains: seq<seq<Node<T>>>, nodes: set<Node<T>>, node: Node<T>)
    requires Stored(chains, nodes) && node !in nodes && |chains| > 0
    ensures var j := node.hash % |chains|; Stored(chains[j := [node] + chains[j]], nodes + {node})
  {
    var j := node.hash % |chains|;
    var c := chains[j := [node] + chains[j]];
    assert node !in chains[j];
    forall n <- nodes ensures n in c[n.hash % |c|] {
      assert n in chains[n.hash % |chains|];
    }
  }

  /** Put node in front of the chain of its hash. */
  method PushFront<T>(buckets: array<Node?<T>>, node: Node<T>, j: nat, ghost chains: seq<seq<Node<T>>>,
                      ghost nodes: set<Node<T>>)
    requires Stored(chains, nodes) && Linked(buckets, chains, nodes) && node !in nodes
    requires buckets.Length > 0 && j == node.hash % buckets.Length
    modifies node`next, buckets
    ensures var c := chains[j := [node] + chains[j]];
      Stored(c, nodes + {node}) && Linked(buckets, c, nodes + {node})
  {
    StoredMore(chains, nodes, node);
    ghost var c := chains[j := [node] + chains[j]];
    node.next := buckets[j];
    buckets[j] := node;
    forall i | 0 <= i < |c| ensures Chain(buckets[i], c[i]) {
      assert old(Chain(buckets[i], chains[i]));
      assert node !in chains[i];
      if i == j {
        forall k | 0 <= k < |c[i]| ensures c[i][k].next == Follow(c[i], k) {
          if k > 0 {
            assert c[i][k] == chains[i][k - 1];
          }
        }
      } else {
        forall k | 0 <= k < |c[i]| ensures c[i][k].next == Follow(c[i], k) {
          assert c[i][k] in chains[i];
        }
      }
    }
  }

  lemma LinkedHeads<T>(buckets: array<Node?<T>>, chains: seq<seq<Node<T>>>, nodes: set<Node<T>>)
    requires Stored(chains, nodes) && Linked(buckets, chains, nodes)
    ensures Heads(buckets, chains)
  {
    forall i | 0 <= i < |chains| ensures buckets[i] == First(chains[i]) {
      assert Chain(buckets[i], chains[i]);
    }
  }

  /** The link of the node an iterator stands at. */
  lemma LinkAt<T>(buckets: array<Node?<T>>, chains: seq<seq<Node<T>>>, nodes: set<Node<T>>, it: Node<T>, i: nat, p: nat)
    requires Stored(chains, nodes) && Linked(buckets, chains, nodes) && AtPosition(chains, it, i, p)
    ensures it in nodes && it.next == Follow(chains[i], p - Start(chains, i))
  {
    assert Chain(buckets[i], chains[i]);
    assert it in chains[i];
  }

  lemma DoneMore<T>(all: seq<Node<T>>, p: nat, done: set<Node<T>>)
    requires p < |all| && Lists(all[..p], done) && NoRepeats(all)
    ensures all[p] !in done && Lists(all[..p + 1], done + {all[p]})
    ensures forall q :: p < q < |all| ==> all[q] != all[p]
  {
    assert all[..p + 1] == all[..p] + [all[p]];
  }

  /** The node at hand goes to the front of its new chain; the iterator has already moved on. */
  method RelinkStep<T>(newBuckets: array<Node?<T>>, node: Node<T>, ghost all: seq<Node<T>>, ghost p: nat,
                       ghost newChains: seq<seq<Node<T>>>, ghost done: set<Node<T>>)
    returns (ghost chains: seq<seq<Node<T>>>, ghost nodes: set<Node<T>>)
    requires Stored(newChains, done) && Linked(newBuckets, newChains, done) && newBuckets.Length > 0
    requires p < |all| && all[p] == node && NoRepeats(all) && Lists(all[..p], done)
    modifies node`next, newBuckets
    ensures Stored(chains, nodes) && Linked(newBuckets, chains, nodes) && Lists(all[..p + 1], nodes)
    ensures |chains| == |newChains|
    ensures forall q :: p < q < |all| ==> all[q].next == old(all[q].next)
  {
    DoneMore(all, p, done);
    ghost var j := node.hash % newBuckets.Length;
    PushFront(newBuckets, node, node.hash % newBuckets.Length, newChains, done);
    chains, nodes := newChains[j := [node] + newChains[j]], done + {node};
  }

  /** The links as they are, by node. */
  ghost predicate Links<T>(chains: seq<seq<Node<T>>>, nodes: set<Node<T>>, links: map<Node<T>, Node?<T>>) {
    && nodes == links.Keys
    && forall n, i: nat, p: nat :: n in nodes && AtPosition(chains, n, i, p) ==>
         links[n] == Follow(chains[i], p - Start(chains, i))
  }

  lemma LinksHold<T>(buckets: array<Node?<T>>, chains: seq<seq<Node<T>>>, nodes: set<Node<T>>)
    requires Stored(chains, nodes) && Linked(buckets, chains, nodes)
    ensures Links(chains, nodes, map n <- nodes :: n.next)
  {
    forall n, i: nat, p: nat | n in nodes && AtPosition(chains, n, i, p)
      ensures n.next == Follow(chains[i], p - Start(chains, i))
    {
      LinkAt(buckets, chains, nodes, n, i, p);
    }
  }

  lemma LinksAt<T>(chains: seq<seq<Node<T>>>, nodes: set<Node<T>>, links: map<Node<T>, Node?<T>>, n: Node<T>, i: nat, p: nat)
    requires Links(chains, nodes, links) && n in nodes && AtPosition(chains, n, i, p)
    ensures i < |chains| && Start(chains, i) <= p && n in links && links[n] == Follow(chains[i], p - Start(chains, i))
  {
  }

  lemma NothingDone<T>(buckets: array<Node?<T>>, chains: seq<seq<Node<T>>>, all: seq<Node<T>>)
    requires |chains| == buckets.Length && forall i :: 0 <= i < |chains| ==> chains[i] == [] && buckets[i] == null
    ensures Stored(chains, {}) && Linked(buckets, chains, {}) && Lists(all[..0], {})
  {
  }

  lemma AllDone<T>(all: seq<Node<T>>, done: set<Node<T>>, nodes: set<Node<T>>)
    requires Lists(all[..|all|], done) && Lists(all, nodes)
    ensures done == nodes
  {
    assert all[..|all|] == all;
  }

  /** do_rehash: relink every node into a new array of buckets, while iterating over the old one. */
  method Relink<T>(buckets: array<Node?<T>>, count: nat, ghost chains: seq<seq<Node<T>>>, ghost nodes: set<Node<T>>)
    returns (newBuckets: array<Node?<T>>, ghost newChains: seq<seq<Node<T>>>)
    requires Stored(chains, nodes) && Linked(buckets, chains, nodes) && count > 0
    modifies nodes`next
    ensures Stored(newChains, nodes) && Linked(newBuckets, newChains, nodes)
    ensures newBuckets.Length == count && fresh(newBuckets)
  {
    hide Stored, Linked, Heads, NoRepeats, AtPosition, All, Start, Follow, Links, Lists;
    newBuckets := new Node?<T>[count](_ => null);
    newChains := seq(count, _ => []);
    ghost var done: set<Node<T>>, p: nat := {}, 0;
    ghost var all, links := All(chains), map n <- nodes :: n.next;
    AllStored(chains, nodes);
    LinkedHeads(buckets, chains, nodes);
    LinksHold(buckets, chains, nodes);
    NothingDone(newBuckets, newChains, all);
    var it, index := Begin(buckets, chains);
    PositionMeans(chains, it, index, p);
    while it != null
      invariant p <= |all| && (it == null <==> p == |all|) && (it != null ==> all[p] == it)
      invariant AtPosition(chains, it, index, p) && Heads(buckets, chains)
      invariant forall q :: p <= q < |all| ==> all[q].next == links[all[q]]
      invariant Stored(newChains, done) && Linked(newBuckets, newChains, done) && Lists(all[..p], done)
      invariant |newChains| == count
      decreases |all| - p
    {
      assert it in nodes by { assert it in all; }
      LinksAt(chains, nodes, links, it, index, p);
      var itNext, indexNext := Increment(it, index, buckets, chains, p);
      newChains, done := RelinkStep(newBuckets, it, all, p, newChains, done);
      it, index := itNext, indexNext;
      p := p + 1;
      PositionMeans(chains, it, index, p);
    }
    AllDone(all, done, nodes);
  }

  // Unlinking a node.

  ghost function Without<T>(chains: seq<seq<Node<T>>>, i: nat, k: nat): seq<seq<Node<T>>>
    requires i < |chains| && k < |chains[i]|
  {
    chains[i := chains[i][..k] + chains[i][k + 1..]]
  }

  lemma StoredLess<T>(chains: seq<seq<Node<T>>>, nodes: set<Node<T>>, i: nat, k: nat)
    requires Stored(chains, nodes) && i < |chains| && k < |chains[i]|
    ensures Stored(Without(chains, i, k), nodes - {chains[i][k]})
  {
    var l, c, x := chains[i], Without(chains, i, k), chains[i][k];
    assert x in l;
    forall n <- nodes - {x} ensures n in c[n.hash % |c|] {
      assert n in chains[n.hash % |chains|];
    }
    forall j, n | 0 <= j < |c| && n in c[j] ensures n in nodes - {x} && n.hash % |c| == j {
      assert n in chains[j];
      if j == i {
        var m: nat :| m < |c[i]| && c[i][m] == n;
        assert n == if m < k then l[m] else l[m + 1];
        assert n in l && n != x;
      } else {
        assert n.hash % |chains| == j && x.hash % |chains| == i;
      }
    }
  }

  /** The links once the k-th node of chain i is bypassed. */
  lemma Bypassed<T>(buckets: array<Node?<T>>, chains: seq<seq<Node<T>>>, nodes: set<Node<T>>, i: nat, k: nat)
    requires Stored(chains, nodes) && i < |chains| && k < |chains[i]| && |chains| == buckets.Length
    requires forall j :: 0 <= j < |chains| && j != i ==> Chain(buckets[j], chains[j])
    requires var l := chains[i];
      && buckets[i] == (if k == 0 then Follow(l, 0) else l[0])
      && (forall m :: 0 <= m < |l| && m != k && m + 1 != k ==> l[m].next == Follow(l, m))
      && (k > 0 ==> l[k - 1].next == Follow(l, k))
    ensures Stored(Without(chains, i, k), nodes - {chains[i][k]})
    ensures Linked(buckets, Without(chains, i, k), nodes - {chains[i][k]})
  {
    StoredLess(chains, nodes, i, k);
    var l, c := chains[i], Without(chains, i, k);
    assert Chain(buckets[i], c[i]) by {
      forall m: nat | m < |c[i]| ensures c[i][m].next == Follow(c[i], m) {
        assert c[i][m] == if m < k then l[m] else l[m + 1];
      }
    }
  }

  /** The node before the k-th node of a chain. */
  method FindBefore<T>(head: Node<T>, node: Node<T>, ghost l: seq<Node<T>>, ghost k: nat) returns (before: Node<T>)
    requires Chain(head, l) && NoRepeats(l) && 0 < k < |l| && l[k] == node
    ensures before == l[k - 1]
  {
    before := head;
    ghost var m := 0;
    while before.next != node
      invariant m < k && before == l[m]
      decreases k - m
    {
      before := before.next;
      m := m + 1;
    }
    assert before.next == l[m + 1];
  }

  /** Rewriting one link of a chain, or its head, leaves the other chains alone. */
  lemma OnlyThisChain<T>(chains: seq<seq<Node<T>>>, nodes: set<Node<T>>, i: nat, n: Node<T>)
    requires Stored(chains, nodes) && i < |chains| && n in chains[i]
    ensures forall j :: 0 <= j < |chains| && j != i ==> n !in chains[j]
  {
    hide Stored;
    forall j: nat | j < |chains| && j != i ensures n !in chains[j] {
      if n in chains[j] { SameChain(chains, nodes, i, j, n); }
    }
  }

  lemma SameChain<T>(chains: seq<seq<Node<T>>>, nodes: set<Node<T>>, i: nat, j: nat, n: Node<T>)
    requires Stored(chains, nodes) && i < |chains| && j < |chains| && n in chains[i] && n in chains[j]
    ensures i == j
  {
    assert n.hash % |chains| == i;
  }

  lemma ChainAt<T>(buckets: array<Node?<T>>, chains: seq<seq<Node<T>>>, nodes: set<Node<T>>, i: nat)
    requires Stored(chains, nodes) && Linked(buckets, chains, nodes) && i < |chains|
    ensures Chain(buckets[i], chains[i]) && NoRepeats(chains[i]) && |chains| == buckets.Length
    ensures forall m :: 0 <= m < |chains[i]| ==> chains[i][m] in nodes
  {
    InChains(chains, nodes, i);
    hide Stored;
  }

  lemma InChains<T>(chains: seq<seq<Node<T>>>, nodes: set<Node<T>>, i: nat)
    requires Stored(chains, nodes) && i < |chains|
    ensures NoRepeats(chains[i]) && forall m :: 0 <= m < |chains[i]| ==> chains[i][m] in nodes
  {
    forall m | 0 <= m < |chains[i]| ensures chains[i][m] in nodes {
      assert chains[i][m] in chains[i];
    }
  }

  lemma HeadOrNot<T>(head: Node?<T>, l: seq<Node<T>>, node: Node<T>, k: nat)
    requires Chain(head, l) && NoRepeats(l) && k < |l| && l[k] == node
    ensures head != null && (head == node <==> k == 0) && node.next == Follow(l, k)
    ensures forall m :: 0 <= m < |l| ==> l[m].next == Follow(l, m)
    ensures k > 0 ==> forall m :: 0 <= m < |l| && m + 1 != k ==> l[m] != l[k - 1]
  {
  }

  lemma AllChains<T>(buckets: array<Node?<T>>, chains: seq<seq<Node<T>>>, nodes: set<Node<T>>)
    requires Stored(chains, nodes) && Linked(buckets, chains, nodes)
    ensures |chains| == buckets.Length && forall j :: 0 <= j < |chains| ==> Chain(buckets[j], chains[j])
  {
  }

  /** Let the chain begin with its second node; the other chains stay as they are. */
  method SkipHead<T>(buckets: array<Node?<T>>, node: Node<T>, i: nat, ghost chains: seq<seq<Node<T>>>,
                     ghost nodes: set<Node<T>>)
    requires Stored(chains, nodes) && Linked(buckets, chains, nodes) && i < |chains| == buckets.Length
    modifies buckets
    ensures buckets[i] == node.next
    ensures forall j :: 0 <= j < |chains| && j != i ==> Chain(buckets[j], chains[j])
  {
    AllChains(buckets, chains, nodes);
    hide *;
    buckets[i] := node.next;
    forall j | 0 <= j < |chains| && j != i ensures Chain(buckets[j], chains[j]) {
      assert old(Chain(buckets[j], chains[j]));
    }
  }

  /** Let before skip the next node of its chain; the other chains stay as they are. */
  method SkipNext<T>(before: Node<T>, node: Node<T>, buckets: array<Node?<T>>, ghost chains: seq<seq<Node<T>>>,
                     ghost nodes: set<Node<T>>, ghost i: nat)
    requires Stored(chains, nodes) && Linked(buckets, chains, nodes) && i < |chains| == buckets.Length
    requires before in chains[i]
    modifies before`next
    ensures before.next == node.next
    ensures forall j :: 0 <= j < |chains| && j != i ==> Chain(buckets[j], chains[j])
  {
    OnlyThisChain(chains, nodes, i, before);
    AllChains(buckets, chains, nodes);
    hide *;
    before.next := node.next;
    forall j | 0 <= j < |chains| && j != i ensures Chain(buckets[j], chains[j]) {
      assert old(Chain(buckets[j], chains[j]));
    }
  }

  /** The links of erase: bypass the node, at the head of its chain or after the node before it. */
  method Unlink<T>(buckets: array<Node?<T>>, node: Node<T>, i: nat, ghost chains: seq<seq<Node<T>>>,
                   ghost nodes: set<Node<T>>, ghost k: nat)
    requires Stored(chains, nodes) && Linked(buckets, chains, nodes)
    requires i < |chains| && k < |chains[i]| && chains[i][k] == node
    modifies nodes`next, buckets
    ensures Stored(Without(chains, i, k), nodes - {node})
    ensures Linked(buckets, Without(chains, i, k), nodes - {node})
  {
    ghost var l := chains[i];
    ChainAt(buckets, chains, nodes, i);
    HeadOrNot(buckets[i], l, node, k);
    hide *;
    if node == buckets[i] {
      SkipHead(buckets, node, i, chains, nodes);
    } else {
      var before := FindBefore(buckets[i], node, l, k);
      SkipNext(before, node, buckets, chains, nodes, i);
    }
    Bypassed(buckets, chains, nodes, i, k);
  }

  lemma {:induction false} StartUpdated<T>(chains: seq<seq<Node<T>>>, i: nat, m: seq<Node<T>>, j: nat)
    requires i < |chains| && j <= |chains|
    ensures Start(chains[i := m], j) == Start(chains, j) + if j > i then |m| - |chains[i]| else 0
  {
    var c := chains[i := m];
    if j > 0 {
      if i == 0 {
        assert c[1..] == chains[1..];
      } else {
        assert c[1..] == chains[1..][i - 1 := m];
        StartUpdated(chains[1..], i - 1, m, j - 1);
      }
    }
  }

  lemma {:induction false} AllUpdated<T>(chains: seq<seq<Node<T>>>, i: nat, m: seq<Node<T>>)
    requires i < |chains|
    ensures Start(chains, i) <= Start(chains, i + 1) <= |All(chains)|
    ensures All(chains[i := m]) == All(chains)[..Start(chains, i)] + m + All(chains)[Start(chains, i + 1)..]
  {
    var c, rest := chains[i := m], chains[1..];
    if i == 0 {
      assert c[1..] == rest && Start(rest, 0) == 0;
      assert All(chains)[|chains[0]|..] == All(rest);
    } else {
      assert c[1..] == rest[i - 1 := m];
      AllUpdated(rest, i - 1, m);
      var h, a := |chains[0]|, All(rest);
      assert All(chains)[..Start(chains, i)] == chains[0] + a[..Start(rest, i - 1)];
      assert All(chains)[Start(chains, i + 1)..] == a[Start(rest, i)..];
    }
  }

  /** Erasing the p-th node keeps the order of the others, and the iterator to the next one is now
      the iterator to the p-th. */
  lemma ErasedOrder<T>(chains: seq<seq<Node<T>>>, i: nat, k: nat, it: Node?<T>, index: nat)
    requires i < |chains| && k < |chains[i]|
    requires AtPosition(chains, it, index, Start(chains, i) + k + 1)
    ensures var p := Start(chains, i) + k;
      && p < |All(chains)| && All(chains)[p] == chains[i][k]
      && All(Without(chains, i, k)) == All(chains)[..p] + All(chains)[p + 1..]
      && AtPosition(Without(chains, i, k), it, index, p)
  {
    hide All, Start;
    var l, c, p := chains[i], Without(chains, i, k), Start(chains, i) + k;
    var m := l[..k] + l[k + 1..];
    AllAt(chains, i);
    AllUpdated(chains, i, m);
    var a, b, e := All(chains), Start(chains, i), Start(chains, i + 1);
    SliceWithout(a, b, e, l, k);
    if it != null {
      StartUpdated(chains, i, m, index);
      StartUpdated(chains, i, m, i);
      StartOrder(chains, i, index);
      AllAt(chains, index);
      assert index == i ==> m[k] == l[k + 1];
    }
  }

  lemma SliceWithout<X>(a: seq<X>, b: nat, e: nat, l: seq<X>, k: nat)
    requires b <= e <= |a| && a[b..e] == l && k < |l|
    ensures var p := b + k;
      p < |a| && a[p] == l[k] && a[..b] + (l[..k] + l[k + 1..]) + a[e..] == a[..p] + a[p + 1..]
  {
    var p := b + k;
    assert a[p] == a[b..e][k];
    assert a[..p] == a[..b] + l[..k];
    assert a[p + 1..] == l[k + 1..] + a[e..];
  }

  lemma {:induction false} StartOrder<T>(chains: seq<seq<Node<T>>>, i: nat, j: nat)
    requires i < |chains| && j < |chains|
    ensures i < j ==> Start(chains, i + 1) <= Start(chains, j)
    ensures i > j ==> Start(chains, j + 1) <= Start(chains, i)
  {
    if i > 0 && j > 0 {
      StartOrder(chains[1..], i - 1, j - 1);
    } else {
      assert Start(chains[1..], 0) == 0;
    }
  }

  // The table.

  /** The hash function and the equality a table is given. */
  datatype Hashing<!T> = Hashing(hash: T -> nat, equal: (T, T) -> bool)

  predicate Eq<T>(h: Hashing<T>, x: T, y: T) {
    h.equal(x, y)
  }

  function Hash<T>(h: Hashing<T>, x: T): nat {
    h.hash(x)
  }

  /** What unordered containers require of them. */
  ghost predicate Lawful<T(!new)>(h: Hashing<T>) {
    && (forall x :: Eq(h, x, x))
    && (forall x, y :: Eq(h, x, y) ==> Eq(h, y, x) && Hash(h, x) == Hash(h, y))
    && (forall x, y, z :: Eq(h, x, y) && Eq(h, y, z) ==> Eq(h, x, z))
  }

  ghost predicate Unique<T>(h: Hashing<T>, nodes: set<Node<T>>) {
    forall m, n :: m in nodes && n in nodes && m != n ==> !Eq(h, m.value, n.value)
  }

  ghost predicate Hashed<T>(h: Hashing<T>, nodes: set<Node<T>>) {
    forall n <- nodes :: n.hash == Hash(h, n.value)
  }

  /** A stored value is equal to x. */
  ghost predicate Holds<T>(h: Hashing<T>, nodes: set<Node<T>>, x: T) {
    exists n <- nodes :: Eq(h, n.value, x)
  }

  /** Only the chain of its hash can hold a value. */
  lemma HoldsInChain<T(!new)>(h: Hashing<T>, chains: seq<seq<Node<T>>>, nodes: set<Node<T>>, x: T)
    requires Lawful(h) && Stored(chains, nodes) && Hashed(h, nodes) && |chains| > 0
    ensures Holds(h, nodes, x) <==> exists n <- chains[Hash(h, x) % |chains|] :: Eq(h, n.value, x)
  {
    hide NoRepeats;
  }

  lemma UniqueMore<T(!new)>(h: Hashing<T>, nodes: set<Node<T>>, node: Node<T>)
    requires Lawful(h) && Unique(h, nodes) && Hashed(h, nodes)
    requires !Holds(h, nodes, node.value) && node.hash == Hash(h, node.value)
    ensures Unique(h, nodes + {node}) && Hashed(h, nodes + {node}) && Eq(h, node.value, node.value)
  {
  }

  /** Another value makes the table grow. */
  ghost predicate Full(size: nat, ml: real, count: nat) {
    count == 0 || size as real >= ml * count as real
  }

  lemma FullIs(size: nat, ml: real, count: nat)
    ensures Full(size, ml, count) <==> count == 0 || size as real >= ml * count as real
  {
  }

  lemma FullMore(size: nat, n: nat, ml: real, count: nat)
    requires size <= n && Full(size, ml, count)
    ensures Full(n, ml, count)
  {
  }

  class HashTable<T(!new)> {
    var buckets: array<Node?<T>>
    var size: nat
    var maxLoadFactor: real
    const hashing: Hashing<T>
    ghost var chains: seq<seq<Node<T>>>
    ghost var nodes: set<Node<T>>

    ghost predicate Valid()
      reads this, buckets, nodes
    {
      && Lawful(hashing) && Stored(chains, nodes) && Linked(buckets, chains, nodes)
      && Hashed(hashing, nodes) && Unique(hashing, nodes)
      && size == |nodes| && maxLoadFactor > 0.0
    }

    ghost predicate Has(x: T)
      reads this
    {
      Holds(hashing, nodes, x)
    }

    constructor (bucketCount: nat, hashing: Hashing<T>)
      requires Lawful(hashing)
      ensures Valid() && nodes == {} && buckets.Length == bucketCount && maxLoadFactor == 1.0 && fresh(buckets)
      ensures this.hashing == hashing
    {
      this.hashing := hashing;
      buckets := new Node?<T>[bucketCount](_ => null);
      size, maxLoadFactor := 0, 1.0;
      chains, nodes := seq(bucketCount, _ => []), {};
    }

    /** The first node of a chain whose value is equal to the key. */
    static method FindIn(head: Node?<T>, h: Hashing<T>, key: T, ghost l: seq<Node<T>>) returns (it: Node?<T>)
      requires Chain(head, l)
      ensures it != null ==> it in l && Eq(h, it.value, key)
      ensures it == null ==> !exists n <- l :: Eq(h, n.value, key)
    {
      it := head;
      ghost var k := 0;
      while it != null && !Eq(h, it.value, key)
        invariant k <= |l| && it == (if k < |l| then l[k] else null)
        invariant forall m :: 0 <= m < k ==> !Eq(h, l[m].value, key)
        decreases |l| - k
      {
        it := it.next;
        k := k + 1;
      }
    }

    /** find: the node with an equal value and its bucket, or null, end(). */
    method Find(key: T) returns (it: Node?<T>, index: nat)
      requires Valid()
      ensures it != null ==> it in nodes && Eq(hashing, it.value, key) && index < |chains| && it in chains[index]
      ensures it != null <==> Has(key)
    {
      hide Stored, Linked;
      if buckets.Length == 0 {
        NoBuckets();
        return null, 0;
      }
      index := Hash(hashing, key) % buckets.Length;
      ChainCount();
      ChainAt(buckets, chains, nodes, index);
      HoldsInChain(hashing, chains, nodes, key);
      it := FindIn(buckets[index], hashing, key, chains[index]);
    }

    lemma NoBuckets()
      requires Valid() && buckets.Length == 0
      ensures nodes == {}
    {
    }

    lemma ChainCount()
      requires Valid()
      ensures |chains| == buckets.Length
    {
    }

    method DoRehash(count: nat)
      requires Valid() && count > 0
      modifies `buckets, `chains, nodes`next
      ensures Valid() && buckets.Length == count && fresh(buckets)
    {
      hide Stored, Linked;
      buckets, chains := Relink(buckets, count, chains, nodes);
    }

    /** Room for one more value, at the maximum load factor. */
    method MakeRoom()
      requires Valid()
      modifies `buckets, `chains, nodes`next
      ensures Valid() && (buckets == old(buckets) || fresh(buckets)) && buckets.Length > 0
      ensures if Full(size, maxLoadFactor, old(buckets.Length))
              then IsNext(old(buckets.Length), buckets.Length)
              else buckets == old(buckets)
      ensures maxLoadFactor == 1.0 && old(size <= buckets.Length) ==>
        && size <= buckets.Length
        && (size < buckets.Length <==> !(size == old(buckets.Length) >= LARGEST))
    {
      hide Stored, Linked, LeastAbove;
      FullAtOne(size, maxLoadFactor, buckets.Length);
      FullIs(size, maxLoadFactor, buckets.Length);
      hide Full;
      if buckets.Length == 0 || size as real >= maxLoadFactor * buckets.Length as real {
        var count := NextPrime(buckets.Length);
        DoRehash(count);
      }
    }

    /** A value equal to v in the chain, as emplace looks for it. */
    static method FindDuplicate(head: Node?<T>, h: Hashing<T>, v: T, ghost l: seq<Node<T>>) returns (it: Node?<T>)
      requires Chain(head, l) && Lawful(h)
      ensures it != null ==> it in l && Eq(h, it.value, v)
      ensures it == null ==> !exists n <- l :: Eq(h, n.value, v)
    {
      it := head;
      ghost var k := 0;
      while it != null && !Eq(h, v, it.value)
        invariant k <= |l| && it == (if k < |l| then l[k] else null)
        invariant forall m :: 0 <= m < k ==> !Eq(h, l[m].value, v)
        decreases |l| - k
      {
        it := it.next;
        k := k + 1;
      }
    }

    /** emplace: the node that holds an equal value, its bucket, and whether it is new. */
    method EmplaceUnique(v: T) returns (it: Node<T>, index: nat, inserted: bool)
      requires Valid()
      modifies this, buckets, nodes
      ensures Valid() && (buckets == old(buckets) || fresh(buckets)) && maxLoadFactor == old(maxLoadFactor)
      ensures if Full(old(size), maxLoadFactor, old(buckets.Length))
              then IsNext(old(buckets.Length), buckets.Length)
              else buckets == old(buckets)
      ensures inserted <==> !old(Has(v))
      ensures Eq(hashing, it.value, v) && (inserted ==> it.value == v && fresh(it))
      ensures nodes == old(nodes) + {it} && (!inserted ==> it in old(nodes))
      ensures index < buckets.Length && it in chains[index]
      ensures size == old(size) + (if inserted then 1 else 0)
      ensures maxLoadFactor == 1.0 && old(size <= buckets.Length) ==>
        (size <= buckets.Length <==>
          old(Has(v)) || old(size) < old(buckets.Length) || old(buckets.Length) < LARGEST)
    {
      hide Stored, Linked, Unique, Hashed, Lawful, Chain, Holds, IsNext, Full;
      MakeRoom();
      var node := new Node(null, v, Hash(hashing, v));
      size := size + 1;
      index := node.hash % buckets.Length;
      ChainLinked(index);
      HoldsInChain(hashing, chains, nodes, v);
      var duplicate := FindDuplicate(buckets[index], hashing, v, chains[index]);
      if duplicate != null {
        size := size - 1;
        return duplicate, index, false;
      }
      Attach(node, index);
      return node, index, true;
    }

    /** Link a new node whose value no stored value is equal to. */
    method Attach(node: Node<T>, index: nat)
      requires Lawful(hashing) && Stored(chains, nodes) && Linked(buckets, chains, nodes)
      requires Hashed(hashing, nodes) && Unique(hashing, nodes) && maxLoadFactor > 0.0
      requires size == |nodes| + 1 && node !in nodes && node.hash == Hash(hashing, node.value)
      requires !Holds(hashing, nodes, node.value)
      requires index < buckets.Length && index == node.hash % buckets.Length
      modifies `chains, `nodes, buckets, node`next
      ensures Valid() && nodes == old(nodes) + {node} && index < |chains| && node in chains[index]
      ensures Eq(hashing, node.value, node.value)
    {
      SameLength();
      UniqueMore(hashing, nodes, node);
      hide *;
      ghost var all := nodes + {node};
      assert |all| == size;
      Store(node, index);
      PartsValid();
    }

    lemma SameLength()
      requires Stored(chains, nodes) && Linked(buckets, chains, nodes)
      ensures |chains| == buckets.Length
    {
    }

    /** Link a new node in front of its chain. */
    method Store(node: Node<T>, index: nat)
      requires Stored(chains, nodes) && Linked(buckets, chains, nodes) && node !in nodes
      requires index < buckets.Length == |chains| && index == node.hash % buckets.Length
      modifies `chains, `nodes, buckets, node`next
      ensures Stored(chains, nodes) && Linked(buckets, chains, nodes)
      ensures nodes == old(nodes) + {node} && index < |chains| && node in chains[index]
    {
      hide *;
      ghost var c, all := chains[index := [node] + chains[index]], nodes + {node};
      PushFront(buckets, node, index, chains, nodes);
      assert c[index][0] == node;
      chains, nodes := c, all;
    }

    lemma PartsValid()
      requires Lawful(hashing) && Stored(chains, nodes) && Linked(buckets, chains, nodes)
      requires Hashed(hashing, nodes) && Unique(hashing, nodes) && size == |nodes| && maxLoadFactor > 0.0
      ensures Valid()
    {
    }

    lemma ChainLinked(i: nat)
      requires Stored(chains, nodes) && Linked(buckets, chains, nodes) && i < buckets.Length
      ensures |chains| == buckets.Length && Chain(buckets[i], chains[i])
      ensures forall n <- chains[i] :: n in nodes
    {
    }

    /** erase: the iterator to the next value, which stands where the erased one stood. */
    method Erase(pos: Node<T>, i: nat, ghost p: nat) returns (it: Node?<T>, index: nat)
      requires Valid() && AtPosition(chains, pos, i, p)
      modifies this, buckets, nodes`next
      ensures Valid() && nodes == old(nodes) - {pos} && size == old(size) - 1
      ensures buckets == old(buckets) && maxLoadFactor == old(maxLoadFactor)
      ensures p < old(|All(chains)|) && All(chains) == old(All(chains)[..p] + All(chains)[p + 1..])
      ensures AtPosition(chains, it, index, p)
    {
      hide Stored, Linked, Unique, Hashed, Lawful, Chain, All, Start, Without, Heads;
      ghost var k := p - Start(chains, i);
      LinkedHeads(buckets, chains, nodes);
      LinkAt(buckets, chains, nodes, pos, i, p);
      it, index := Increment(pos, i, buckets, chains, p);
      ErasedOrder(chains, i, k, it, index);
      UniqueLess(hashing, nodes, pos);
      ghost var rest := nodes - {pos};
      Unlink(buckets, pos, i, chains, nodes, k);
      size := size - 1;
      chains, nodes := Without(chains, i, k), rest;
      hide Valid, AtPosition;
      PartsValid();
    }

    /** erase_unique */
    method EraseUnique(key: T) returns (count: nat)
      requires Valid()
      modifies this, buckets, nodes`next
      ensures Valid() && buckets == old(buckets) && maxLoadFactor == old(maxLoadFactor)
      ensures count == (if old(Has(key)) then 1 else 0) && size == old(size) - count
      ensures !Has(key) && nodes <= old(nodes) && forall n <- old(nodes) :: n in nodes <==> !Eq(hashing, n.value, key)
    {
      hide Stored, Linked, Unique, Hashed, Lawful, Chain, Holds, Start;
      var pos, index := Find(key);
      OnlyEqual(hashing, nodes, pos, key);
      if pos == null {
        return 0;
      }
      ghost var k := IndexIn(chains[index], pos);
      var it, j := Erase(pos, index, Start(chains, index) + k);
      HoldsLess(hashing, nodes, key);
      count := 1;
    }

    method Contains(key: T) returns (r: bool)
      requires Valid()
      ensures r <==> Has(key)
    {
      var it, index := Find(key);
      r := it != null;
    }

    /** clear: the nodes go one by one, and the buckets are left empty. */
    method Clear()
      requires Valid()
      modifies this, buckets
      ensures Valid() && nodes == {} && size == 0 && buckets == old(buckets) && maxLoadFactor == old(maxLoadFactor)
    {
      hide Stored, Linked, Unique, Hashed, Lawful, Chain, All, Start, Heads, AtPosition, NoRepeats, Follow;
      ghost var all := All(chains);
      AllStored(chains, nodes);
      LinkedHeads(buckets, chains, nodes);
      var it, index := Begin(buckets, chains);
      ghost var p := 0;
      PositionMeans(chains, it, index, p);
      while it != null
        invariant p <= |all| && size + p == |all| && (it == null <==> p == |all|) && (it != null ==> all[p] == it)
        invariant AtPosition(chains, it, index, p) && Heads(buckets, chains)
        invariant Stored(chains, nodes) && Linked(buckets, chains, nodes)
        invariant unchanged(`buckets) && unchanged(`maxLoadFactor) && unchanged(`chains) && unchanged(`nodes)
        invariant unchanged(buckets)
        decreases |all| - p
      {
        LinkAt(buckets, chains, nodes, it, index, p);
        it, index := Increment(it, index, buckets, chains, p);
        size := size - 1;
        p := p + 1;
        PositionMeans(chains, it, index, p);
      }
      var i := 0;
      while i < buckets.Length
        invariant i <= buckets.Length && forall j :: 0 <= j < i ==> buckets[j] == null
        invariant unchanged(`buckets) && unchanged(`maxLoadFactor) && size == 0
      {
        buckets[i] := null;
        i := i + 1;
      }
      chains, nodes := seq(buckets.Length, _ => []), {};
      EmptyValid();
    }

    lemma EmptyValid()
      requires Lawful(hashing) && nodes == {} && size == 0 && |chains| == buckets.Length && maxLoadFactor > 0.0
      requires forall i :: 0 <= i < |chains| ==> chains[i] == [] && buckets[i] == null
      ensures Valid()
    {
    }

    method SetMaxLoadFactor(ml: real)
      requires Valid() && ml > 0.0
      modifies `maxLoadFactor
      ensures Valid() && maxLoadFactor == ml && nodes == old(nodes)
    {
      hide Stored, Linked;
      maxLoadFactor := ml;
    }

    /** rehash: the next bucket count after count and after what the values need at the maximum load factor. */
    method Rehash(count: nat)
      requires Valid()
      modifies `buckets, `chains, nodes`next
      ensures Valid() && IsNext(Max(count, BucketsNeeded(size, maxLoadFactor)), buckets.Length)
      ensures buckets.Length >= count && size as real <= maxLoadFactor * buckets.Length as real
    {
      hide Stored, Linked, IsNext, BucketsNeeded;
      var c := BucketsFor(count);
      DoRehash(c);
    }

    method BucketsFor(count: nat) returns (c: nat)
      requires maxLoadFactor > 0.0
      ensures IsNext(Max(count, BucketsNeeded(size, maxLoadFactor)), c)
      ensures c >= count && c > 0 && size as real <= maxLoadFactor * c as real
    {
      hide LeastAbove, IsNext;
      var needed := Ceiling(size as real / maxLoadFactor);
      Enough(size, maxLoadFactor, needed);
      c := NextPrime(if count < needed then needed else count);
      EnoughMore(size, maxLoadFactor, needed, c);
    }

    method Reserve(count: nat)
      requires Valid()
      modifies `buckets, `chains, nodes`next
      ensures Valid()
      ensures var most := Max(BucketsNeeded(count, maxLoadFactor), BucketsNeeded(size, maxLoadFactor));
        IsNext(most, buckets.Length)
      ensures size as real <= maxLoadFactor * buckets.Length as real
      ensures count as real <= maxLoadFactor * buckets.Length as real
    {
      hide Stored, Linked, IsNext;
      var needed := Ceiling(count as real / maxLoadFactor);
      assert needed == BucketsNeeded(count, maxLoadFactor);
      hide Ceiling, BucketsNeeded;
      Enough(count, maxLoadFactor, needed);
      Rehash(needed);
      EnoughMore(count, maxLoadFactor, needed, buckets.Length);
    }

    /** Buckets for len more values, if the table is to grow. */
    method PrepareFor(len: nat)
      requires Valid()
      modifies `buckets, `chains, nodes`next
      ensures Valid() && (buckets == old(buckets) || fresh(buckets))
      ensures var asked := Quotient(size + len, maxLoadFactor);
        if asked > old(buckets.Length) then IsNext(asked, buckets.Length) else buckets == old(buckets)
    {
      hide Stored, Linked, IsNext;
      var newBucketCount := Quotient(size + len, maxLoadFactor);
      if newBucketCount > buckets.Length {
        var count := NextPrime(newBucketCount);
        DoRehash(count);
      }
    }

    /** range_insert_unique: the table grows at most once if it grows at the start. */
    method RangeInsertUnique(vs: seq<T>)
      requires Valid()
      modifies this, buckets, nodes
      ensures Valid() && maxLoadFactor == old(maxLoadFactor)
      ensures forall x :: Has(x) <==> old(Has(x)) || exists k :: 0 <= k < |vs| && Eq(hashing, vs[k], x)
      ensures var asked := Quotient(old(size) + |vs|, maxLoadFactor);
        old(buckets.Length) < asked < LARGEST ==> IsNext(asked, buckets.Length)
    {
      hide Stored, Linked, Unique, Hashed, Lawful, Holds, IsNext, Full, Quotient;
      PrepareFor(|vs|);
      ghost var before, start, most := nodes, buckets, size + |vs|;
      ghost var enough := !Full(most, maxLoadFactor, start.Length);
      RoomFor(most, maxLoadFactor, start.Length);
      var i := 0;
      while i != |vs|
        invariant i <= |vs| && Valid() && (buckets == start || fresh(buckets)) && fresh(nodes - before)
        invariant maxLoadFactor == old(maxLoadFactor) && size <= old(size) + i && (enough ==> buckets == start)
        invariant forall x :: Holds(hashing, nodes, x) <==>
          Holds(hashing, before, x) || exists k :: 0 <= k < i && Eq(hashing, vs[k], x)
      {
        ghost var was := nodes;
        if Full(size, maxLoadFactor, start.Length) {
          FullMore(size, most, maxLoadFactor, start.Length);
        }
        var it, index, inserted := EmplaceUnique(vs[i]);
        AddedValue(hashing, was, it, vs[i], inserted);
        i := i + 1;
      }
    }
  }

  lemma RoomFor(n: nat, ml: real, count: nat)
    requires ml > 0.0
    ensures Quotient(n, ml) < LARGEST && IsNext(Quotient(n, ml), count) ==> !Full(n, ml, count)
  {
    var q := Quotient(n, ml);
    if q < LARGEST && IsNext(q, count) {
      BelowNext(n, ml, q, count);
    }
  }

  lemma BelowNext(n: nat, ml: real, q: nat, count: nat)
    requires ml > 0.0 && n as real / ml < (q + 1) as real && q < count
    ensures !Full(n, ml, count)
  {
    var r := n as real / ml;
    assert n as real == ml * r;
    assert r < count as real;
    Scaled(ml, r, count as real);
  }

  lemma Scaled(ml: real, r: real, s: real)
    requires ml > 0.0 && r < s
    ensures ml * r < ml * s
  {
  }

  /** An emplacement makes the table hold what is equal to the value, and nothing else. */
  lemma AddedValue<T(!new)>(h: Hashing<T>, nodes: set<Node<T>>, it: Node<T>, v: T, inserted: bool)
    requires Lawful(h) && Eq(h, it.value, v) && (!inserted ==> it in nodes)
    ensures forall x :: Holds(h, nodes + {it}, x) <==> Holds(h, nodes, x) || Eq(h, v, x)
  {
    forall x ensures Holds(h, nodes + {it}, x) <==> Holds(h, nodes, x) || Eq(h, v, x) {
      assert Eq(h, it.value, x) <==> Eq(h, v, x) by {
        assert Eq(h, v, it.value);
      }
    }
  }

  /** The quotient as a conversion to an integer truncates it. */
  function Quotient(n: nat, ml: real): (q: nat)
    requires ml > 0.0
    ensures q as real <= n as real / ml < (q + 1) as real
  {
    (n as real / ml).Floor
  }

  lemma FullAtOne(size: nat, ml: real, count: nat)
    ensures ml == 1.0 ==> (size as real >= ml * count as real <==> size >= count)
  {
  }

  /** The buckets that so many values need at a load factor. */
  function BucketsNeeded(size: nat, ml: real): nat
    requires ml > 0.0
  {
    NonNegative(size, ml);
    Ceiling(size as real / ml)
  }

  /** They are the least number that is enough. */
  lemma BucketsNeededAreLeast(size: nat, ml: real, n: nat)
    requires ml > 0.0
    ensures BucketsNeeded(size, ml) <= n <==> size as real <= ml * n as real
  {
    var least := BucketsNeeded(size, ml);
    NonNegative(size, ml);
    Enough(size, ml, least);
    TooFew(size, ml, least);
    if least <= n {
      EnoughMore(size, ml, least, n);
    } else if size as real <= ml * n as real {
      EnoughMore(size, ml, n, least - 1);
    }
  }

  lemma NonNegative(size: nat, ml: real)
    requires ml > 0.0
    ensures size as real / ml >= 0.0
  {
  }

  lemma TooFew(size: nat, ml: real, n: nat)
    requires ml > 0.0 && (n == 0 || (n - 1) as real < size as real / ml)
    ensures n == 0 || size as real > ml * (n - 1) as real
  {
    assert size as real == ml * (size as real / ml);
  }

  function Ceiling(r: real): (n: nat)
    requires r >= 0.0
    ensures n as real >= r && (n == 0 || (n - 1) as real < r)
  {
    if r.Floor as real == r then r.Floor else r.Floor + 1
  }

  lemma Enough(size: nat, ml: real, n: nat)
    requires ml > 0.0 && n as real >= size as real / ml
    ensures size as real <= ml * n as real
  {
    assert size as real == ml * (size as real / ml);
  }

  lemma EnoughMore(size: nat, ml: real, n: nat, m: nat)
    requires ml > 0.0 && size as real <= ml * n as real && n <= m
    ensures size as real <= ml * m as real
  {
    assert ml * (m - n) as real >= 0.0;
    assert ml * m as real == ml * n as real + ml * (m - n) as real;
  }

  lemma UniqueLess<T>(h: Hashing<T>, nodes: set<Node<T>>, node: Node<T>)
    requires Unique(h, nodes) && Hashed(h, nodes)
    ensures Unique(h, nodes - {node}) && Hashed(h, nodes - {node})
  {
  }

  /** At most one stored value is equal to a key. */
  lemma OnlyEqual<T(!new)>(h: Hashing<T>, nodes: set<Node<T>>, node: Node?<T>, key: T)
    requires Lawful(h) && Unique(h, nodes)
    requires node != null ==> node in nodes && Eq(h, node.value, key)
    requires node == null ==> !Holds(h, nodes, key)
    ensures forall n <- nodes :: Eq(h, n.value, key) <==> n == node
  {
    if node != null {
      forall n <- nodes | Eq(h, n.value, key) ensures n == node {
        assert Eq(h, key, node.value);
        assert Eq(h, n.value, node.value);
      }
    }
  }

  lemma HoldsLess<T>(h: Hashing<T>, nodes: set<Node<T>>, key: T)
    requires forall n <- nodes :: !Eq(h, n.value, key)
    ensures !Holds(h, nodes, key)
  {
  }

  lemma IndexIn<T>(l: seq<Node<T>>, n: Node<T>) returns (k: nat)
    requires n in l
    ensures k < |l| && l[k] == n
  {
    k :| k < |l| && l[k] == n;
  }

  // Comparing tables.

  /** Every value of a has an equal one in b. */
  ghost predicate Within<T>(h: Hashing<T>, a: set<Node<T>>, b: set<Node<T>>) {
    forall n <- a :: Holds(h, b, n.value)
  }

  /** Of two sets of the same size without equal values, neither has a value the other lacks if one
      of them has not. */
  lemma {:induction false} SameSizeWithin<T(!new)>(h: Hashing<T>, a: set<Node<T>>, b: set<Node<T>>)
    requires Lawful(h) && Unique(h, a) && Unique(h, b) && |a| == |b| && Within(h, a, b)
    ensures Within(h, b, a)
    decreases |a|
  {
    if a != {} {
      var m :| m in a;
      var n :| n in b && Eq(h, n.value, m.value);
      PartnersOut(h, a, b, m, n);
      SameSizeWithin(h, a - {m}, b - {n});
      PartnersIn(h, b, a, n, m);
    }
  }

  lemma PartnersOut<T(!new)>(h: Hashing<T>, a: set<Node<T>>, b: set<Node<T>>, m: Node<T>, n: Node<T>)
    requires Lawful(h) && Unique(h, a) && Unique(h, b) && Within(h, a, b)
    requires m in a && n in b && Eq(h, n.value, m.value)
    ensures Unique(h, a - {m}) && Unique(h, b - {n}) && Within(h, a - {m}, b - {n})
  {
    forall x <- a - {m} ensures Holds(h, b - {n}, x.value) {
      var y :| y in b && Eq(h, y.value, x.value);
      NotPartner(h, a, m, n, x);
      assert y in b - {n};
    }
  }

  lemma NotPartner<T(!new)>(h: Hashing<T>, a: set<Node<T>>, m: Node<T>, n: Node<T>, x: Node<T>)
    requires Lawful(h) && Unique(h, a) && m in a && x in a && x != m && Eq(h, n.value, m.value)
    ensures !Eq(h, n.value, x.value)
  {
    hide Lawful;
    if Eq(h, n.value, x.value) { EqualToBoth(h, n.value, x.value, m.value); }
  }

  lemma EqualToBoth<T(!new)>(h: Hashing<T>, u: T, x: T, y: T)
    requires Lawful(h) && Eq(h, u, x) && Eq(h, u, y)
    ensures Eq(h, x, y)
  {
    assert Eq(h, x, u);
  }

  lemma PartnersIn<T>(h: Hashing<T>, b: set<Node<T>>, a: set<Node<T>>, n: Node<T>, m: Node<T>)
    requires Within(h, b - {n}, a - {m}) && m in a && Eq(h, m.value, n.value)
    ensures Within(h, b, a)
  {
    forall y <- b ensures Holds(h, a, y.value) {
      if y != n { assert Holds(h, a - {m}, y.value); }
    }
  }

  /** operator==: the sizes agree and every value of lhs is found in rhs. */
  method Equal<T(!new)>(lhs: HashTable<T>, rhs: HashTable<T>) returns (r: bool)
    requires lhs.Valid() && rhs.Valid() && lhs.hashing == rhs.hashing
    ensures r <==> forall x :: lhs.Has(x) <==> rhs.Has(x)
  {
    hide Stored, Linked, Unique, Hashed, Lawful, All, Start, Heads, AtPosition, NoRepeats, Follow, Holds;
    if lhs.size != rhs.size {
      SizesDiffer(lhs, rhs);
      return false;
    }
    ghost var h, a, b, all := lhs.hashing, lhs.nodes, rhs.nodes, All(lhs.chains);
    AllStored(lhs.chains, a);
    LinkedHeads(lhs.buckets, lhs.chains, a);
    var it, index := Begin(lhs.buckets, lhs.chains);
    ghost var p := 0;
    PositionMeans(lhs.chains, it, index, p);
    while it != null
      invariant p <= |all| && (it == null <==> p == |all|) && (it != null ==> all[p] == it)
      invariant AtPosition(lhs.chains, it, index, p) && lhs.Valid() && rhs.Valid()
      invariant forall q :: 0 <= q < p ==> Holds(h, b, all[q].value)
      decreases |all| - p
    {
      var found := rhs.Contains(it.value);
      if !found {
        OwnValue(h, a, it);
        return false;
      }
      LinkedHeads(lhs.buckets, lhs.chains, a);
      LinkAt(lhs.buckets, lhs.chains, a, it, index, p);
      it, index := Increment(it, index, lhs.buckets, lhs.chains, p);
      p := p + 1;
      PositionMeans(lhs.chains, it, index, p);
    }
    AllHeld(h, all, a, b);
    SameSizeWithin(h, a, b);
    SameHoldings(h, a, b);
    r := true;
  }

  lemma OwnValue<T(!new)>(h: Hashing<T>, nodes: set<Node<T>>, n: Node<T>)
    requires Lawful(h) && n in nodes
    ensures Holds(h, nodes, n.value)
  {
  }

  lemma AllHeld<T>(h: Hashing<T>, all: seq<Node<T>>, a: set<Node<T>>, b: set<Node<T>>)
    requires Lists(all, a) && forall q :: 0 <= q < |all| ==> Holds(h, b, all[q].value)
    ensures Within(h, a, b)
  {
  }

  lemma SameHoldings<T(!new)>(h: Hashing<T>, a: set<Node<T>>, b: set<Node<T>>)
    requires Lawful(h) && Within(h, a, b) && Within(h, b, a)
    ensures forall x :: Holds(h, a, x) <==> Holds(h, b, x)
  {
    forall x ensures Holds(h, a, x) <==> Holds(h, b, x) {
      HeldToo(h, a, b, x);
      HeldToo(h, b, a, x);
    }
  }

  lemma HeldToo<T(!new)>(h: Hashing<T>, a: set<Node<T>>, b: set<Node<T>>, x: T)
    requires Lawful(h) && Within(h, a, b)
    ensures Holds(h, a, x) ==> Holds(h, b, x)
  {
    if Holds(h, a, x) {
      var n :| n in a && Eq(h, n.value, x);
      var m :| m in b && Eq(h, m.value, n.value);
      assert Eq(h, m.value, x);
    }
  }

  /** Tables of different sizes do not hold the same values. */
  lemma SizesDiffer<T(!new)>(lhs: HashTable<T>, rhs: HashTable<T>)
    requires lhs.Valid() && rhs.Valid() && lhs.hashing == rhs.hashing
    requires lhs.size != rhs.size
    ensures !(forall x :: lhs.Has(x) <==> rhs.Has(x))
  {
    hide Stored, Linked;
    var h, a, b := lhs.hashing, lhs.nodes, rhs.nodes;
    if |a| < |b| {
      Missing(h, a, b);
      var n :| n in b && !Holds(h, a, n.value);
      OwnValue(h, b, n);
      assert !lhs.Has(n.value) && rhs.Has(n.value);
    } else {
      Missing(h, b, a);
      var n :| n in a && !Holds(h, b, n.value);
      OwnValue(h, a, n);
      assert lhs.Has(n.value) && !rhs.Has(n.value);
    }
  }

  /** A larger set without equal values holds a value the smaller one lacks. */
  lemma {:induction false} Missing<T(!new)>(h: Hashing<T>, a: set<Node<T>>, b: set<Node<T>>)
    requires Lawful(h) && Unique(h, a) && Unique(h, b) && |a| < |b|
    ensures exists n <- b :: !Holds(h, a, n.value)
    decreases |a|
  {
    var n :| n in b;
    if Holds(h, a, n.value) {
      var m :| m in a && Eq(h, m.value, n.value);
      Missing(h, a - {m}, b - {n});
      var x :| x in b - {n} && !Holds(h, a - {m}, x.value);
      NotPartner(h, b, n, m, x);
      assert !Holds(h, a, x.value);
    }
  }
}
