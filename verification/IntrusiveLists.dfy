/** The base of an intrusive doubly linked list: a ring of nodes through an anchor. */
module IntrusiveLists {
  import opened Sequences

  class Node {
    var next: Node
    var prev: Node

    constructor ()
      ensures next == this && prev == this
    {
      next, prev := this, this;
    }
  }

  /** Every node of l links to the next one and back, and the last one to the first. */
  ghost predicate Ring(l: seq<Node>, anchor: Node)
    reads l
  {
    && l != [] && l[0] == anchor && NoRepeats(l)
    && (forall i :: 0 <= i < |l| - 1 ==> l[i].next == l[i + 1] && l[i + 1].prev == l[i])
    && l[|l| - 1].next == anchor && anchor.prev == l[|l| - 1]
  }

  /** The nodes met by following next from the anchor, all links between them having matching back
      links. */
  ghost predicate Walk(w: seq<Node>, anchor: Node)
    reads w
  {
    && w != [] && w[0] == anchor
    && forall i :: 0 <= i < |w| - 1 ==> w[i].next == w[i + 1] && w[i + 1].prev == w[i]
  }

  /** Equal nodes have equal predecessors, back to the anchor. */
  lemma {:induction false} RepeatReachesAnchor(w: seq<Node>, anchor: Node, i: nat, j: nat)
    requires Walk(w, anchor) && i < j < |w| && w[i] == w[j]
    ensures w[j - i] == anchor
    decreases i
  {
    if i > 0 {
      assert w[i - 1 + 1].prev == w[i - 1] && w[j - 1 + 1].prev == w[j - 1];
      RepeatReachesAnchor(w, anchor, i - 1, j - 1);
    }
  }

  /** A walk that has not come back to the anchor has not met any node twice. */
  lemma WalkNoRepeats(w: seq<Node>, anchor: Node)
    requires Walk(w, anchor) && forall i :: 0 < i < |w| ==> w[i] != anchor
    ensures NoRepeats(w)
  {
    forall i: nat, j: nat | i < j < |w| ensures w[i] != w[j] {
      if w[i] == w[j] { RepeatReachesAnchor(w, anchor, i, j); }
    }
  }

  /** A ring through the anchor begins with what a walk meets. */
  lemma {:induction false} RingFollowsWalk(l: seq<Node>, w: seq<Node>, anchor: Node, m: nat)
    requires Ring(l, anchor) && Walk(w, anchor) && m < |w|
    requires forall i :: 0 < i < |w| ==> w[i] != anchor
    ensures m < |l| && l[m] == w[m]
    decreases m
  {
    if m > 0 {
      RingFollowsWalk(l, w, anchor, m - 1);
      assert w[m - 1].next == w[m - 1 + 1];
    }
  }

  lemma NoRingThroughBreak(w: seq<Node>, anchor: Node, p: Node, l: seq<Node>)
    requires Walk(w, anchor) && p == w[|w| - 1] && p.next.prev != p
    requires forall i :: 0 < i < |w| ==> w[i] != anchor
    ensures !Ring(l, anchor)
  {
    hide Ring;
    if Ring(l, anchor) {
      RingFollowsWalk(l, w, anchor, |w| - 1);
      RingLinks(l, anchor, |w| - 1);
    }
  }

  lemma RingLinks(l: seq<Node>, anchor: Node, m: nat)
    requires Ring(l, anchor) && m < |l|
    ensures l[m].next.prev == l[m]
  {
    assert m < |l| - 1 ==> l[m].next == l[m + 1];
  }

  lemma WalkFits(w: seq<Node>, nodes: set<Node>)
    requires NoRepeats(w) && forall n <- w :: n in nodes
    ensures |w| <= |nodes|
  {
    SizeOf(w, set n | n in w);
    SubsetSize((set n | n in w), nodes);
  }

  /** A walk of nodes that ends at p and has not come back to the anchor; q is half as far. */
  ghost predicate Halfway(w: seq<Node>, k: nat, p: Node, q: Node, anchor: Node, nodes: set<Node>)
    reads w
  {
    && Walk(w, anchor) && NoRepeats(w) && (forall i :: 0 < i < |w| ==> w[i] != anchor)
    && p == w[|w| - 1] && k < |w| && q == w[k] && |w| <= |nodes| && forall n <- w :: n in nodes
  }

  /** One step further along checked links. */
  lemma WalkOn(w: seq<Node>, k: nat, p: Node, q: Node, anchor: Node, nodes: set<Node>)
    requires Halfway(w, k, p, q, anchor, nodes) && p.next.prev == p && p.next in nodes
    ensures p.next == anchor ==> Ring(w, anchor)
    ensures p.next != anchor ==> Halfway(w + [p.next], k, p.next, q, anchor, nodes) && p.next !in w
  {
    if p.next != anchor {
      var v := w + [p.next];
      WalkNoRepeats(v, anchor);
      WalkFits(v, nodes);
      forall i: nat | i < |w| ensures w[i] != p.next { assert v[i] != v[|w|]; }
    }
  }

  lemma BrokenHere(w: seq<Node>, k: nat, p: Node, q: Node, anchor: Node, nodes: set<Node>)
    requires Halfway(w, k, p, q, anchor, nodes) && p.next.prev != p
    ensures !exists l :: Ring(l, anchor)
  {
    forall l ensures !Ring(l, anchor) { NoRingThroughBreak(w, anchor, p, l); }
  }

  /** validate: p walks one link at a time, checking each, and q follows at half the rate. */
  method Validate(anchor: Node, ghost nodes: set<Node>) returns (valid: bool)
    requires anchor in nodes && forall n <- nodes :: n.next in nodes && n.prev in nodes
    ensures valid <==> exists l :: Ring(l, anchor)
  {
    hide Ring, Walk, NoRepeats;
    var p, q := anchor, anchor;
    ghost var w, k := [anchor], 0;
    Starting(anchor, nodes);
    while true
      invariant Halfway(w, k, p, q, anchor, nodes) && |w| == 2 * k + 1
      decreases |nodes| - |w|
    {
      if p.next.prev != p {
        BrokenHere(w, k, p, q, anchor, nodes);
        valid := false;
        break;
      }
      WalkOn(w, k, p, q, anchor, nodes);
      p := p.next;
      if p == anchor {
        valid := true;
        break;
      }
      assert p != q;
      if p == q {
        valid := false;
        break;
      }
      w := w + [p];
      if p.next.prev != p {
        BrokenHere(w, k, p, q, anchor, nodes);
        valid := false;
        break;
      }
      WalkOn(w, k, p, q, anchor, nodes);
      QMoves(w, k, p, q, anchor, nodes);
      p := p.next;
      q := q.next;
      assert p != q;
      if p == q {
        valid := false;
        break;
      }
      if p == anchor {
        valid := true;
        break;
      }
      w := w + [p];
      k := k + 1;
    }
  }

  lemma Starting(anchor: Node, nodes: set<Node>)
    requires anchor in nodes
    ensures Halfway([anchor], 0, anchor, anchor, anchor, nodes)
  {
    assert {anchor} <= nodes;
    SubsetSize({anchor}, nodes);
  }

  /** The slow cursor stays on the walk, away from the anchor. */
  lemma QMoves(w: seq<Node>, k: nat, p: Node, q: Node, anchor: Node, nodes: set<Node>)
    requires Halfway(w, k, p, q, anchor, nodes) && k + 1 < |w|
    ensures q.next == w[k + 1] && q.next != anchor
    ensures q.next in w
  {
    assert w[k].next == w[k + 1];
  }

  // Reversing.

  /** The ring walked the other way, from the anchor. */
  ghost function Turned(l: seq<Node>): seq<Node> {
    if l == [] then [] else [l[0]] + Reversed(l[1..])
  }

  lemma TurnedAt(l: seq<Node>, k: nat)
    requires k < |l|
    ensures |Turned(l)| == |l| && Turned(l)[k] == if k == 0 then l[0] else l[|l| - k]
  {
  }

  /** Turning a ring twice gives the ring itself. */
  lemma TurnedTwice(l: seq<Node>)
    ensures Turned(Turned(l)) == l
  {
    if l != [] {
      var t := Turned(l);
      TurnedAt(l, 0);
      forall k: nat | k < |l| ensures Turned(t)[k] == l[k] {
        TurnedAt(t, k);
        if k > 0 { TurnedAt(l, |l| - k); }
      }
    }
  }

  /** next and prev run around the ring l. */
  ghost predicate RingLinked(l: seq<Node>, anchor: Node, next: map<Node, Node>, prev: map<Node, Node>) {
    && l != [] && l[0] == anchor && NoRepeats(l)
    && (forall k :: 0 <= k < |l| ==> l[k] in next && l[k] in prev)
    && (forall k :: 0 <= k < |l| - 1 ==> next[l[k]] == l[k + 1] && prev[l[k + 1]] == l[k])
    && next[l[|l| - 1]] == anchor && prev[anchor] == l[|l| - 1]
  }

  lemma RingIsLinked(l: seq<Node>, anchor: Node, next: map<Node, Node>, prev: map<Node, Node>)
    requires Ring(l, anchor) && next == (map n <- l :: n.next) && prev == (map n <- l :: n.prev)
    ensures RingLinked(l, anchor, next, prev) && Exchanged(l, 0, next, prev)
  {
  }

  lemma NextInRing(l: seq<Node>, anchor: Node, next: map<Node, Node>, prev: map<Node, Node>, i: nat)
    requires RingLinked(l, anchor, next, prev) && i < |l|
    ensures NoRepeats(l) && l[i] in next && next[l[i]] == (if i + 1 < |l| then l[i + 1] else anchor)
    ensures i + 1 < |l| ==> l[i + 1] != anchor
  {
  }

  /** If every node has its links exchanged, the ring is turned. */
  lemma TurnedRing(l: seq<Node>, anchor: Node, next: map<Node, Node>, prev: map<Node, Node>)
    requires RingLinked(l, anchor, next, prev) && Exchanged(l, |l|, next, prev)
    ensures Ring(Turned(l), anchor)
  {
    var t, n := Turned(l), |l|;
    TurnedAt(l, 0);
    forall i: nat | i < n - 1 ensures t[i].next == t[i + 1] && t[i + 1].prev == t[i] {
      TurnedAt(l, i);
      TurnedAt(l, i + 1);
      assert next[l[n - i - 1]] == if i == 0 then anchor else l[n - i - 1 + 1];
    }
    forall i: nat, j: nat | i < j < n ensures t[i] != t[j] {
      TurnedAt(l, i);
      TurnedAt(l, j);
    }
    TurnedAt(l, n - 1);
    assert n > 1 ==> next[l[0]] == l[0 + 1];
  }

  /** Exchange the links of a node and return the one that came next. */
  method Exchange(node: Node) returns (after: Node)
    modifies node
    ensures node.next == old(node.prev) && node.prev == old(node.next) == after
  {
    var temp := node.next;
    node.next := node.prev;
    node.prev := temp;
    after := node.prev;
  }

  ghost predicate Exchanged(l: seq<Node>, i: nat, next: map<Node, Node>, prev: map<Node, Node>)
    reads l
  {
    && i <= |l| && (forall k :: 0 <= k < |l| ==> l[k] in next && l[k] in prev)
    && (forall k :: 0 <= k < i ==> l[k].next == prev[l[k]] && l[k].prev == next[l[k]])
    && (forall k :: i <= k < |l| ==> l[k].next == next[l[k]] && l[k].prev == prev[l[k]])
  }

  method ExchangeAt(node: Node, ghost l: seq<Node>, ghost i: nat, ghost next: map<Node, Node>,
                    ghost prev: map<Node, Node>)
    returns (after: Node)
    requires i < |l| && node == l[i] && NoRepeats(l) && Exchanged(l, i, next, prev)
    modifies node
    ensures Exchanged(l, i + 1, next, prev) && after == next[node]
  {
    after := Exchange(node);
  }

  /** reverse */
  method Reverse(anchor: Node, ghost l: seq<Node>)
    requires Ring(l, anchor)
    modifies l
    ensures Ring(Turned(l), anchor)
    ensures forall n <- l :: n.next == old(n.prev) && n.prev == old(n.next)
  {
    ghost var next, prev := map n <- l :: n.next, map n <- l :: n.prev;
    RingIsLinked(l, anchor, next, prev);
    assert l != [] && l[0] == anchor;
    hide Ring, NoRepeats, RingLinked, Exchanged;
    var node := anchor;
    ghost var i := 0;
    var again := true;
    while again
      invariant 0 <= i <= |l| && (again <==> i < |l|) && node == (if i < |l| then l[i] else anchor)
      invariant Exchanged(l, i, next, prev)
      decreases |l| - i
    {
      NextInRing(l, anchor, next, prev, i);
      node := ExchangeAt(node, l, i, next, prev);
      i := i + 1;
      again := node != anchor;
    }
    TurnedRing(l, anchor, next, prev);
    AllExchanged(l, next, prev);
  }

  lemma AllExchanged(l: seq<Node>, next: map<Node, Node>, prev: map<Node, Node>)
    requires Exchanged(l, |l|, next, prev)
    ensures forall n <- l :: n in next && n in prev && n.next == prev[n] && n.prev == next[n]
  {
  }
}
