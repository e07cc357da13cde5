/** Erasing a node with two children: its neighbour in order, which has at most one child, leaves
    its own place to that child and takes over the place of the node. */
module Replacement {
  import opened Sequences
  import opened Trees

  /** v consists of the node other and the subtree c on one of its sides. */
  ghost predicate Single<N>(v: Tree<N>, c: Tree<N>, other: N) {
    v == Branch(c, other, Leaf) || v == Branch(Leaf, other, c)
  }

  /** The links of n once other, with the only subtree c and the context q, has replaced node. */
  ghost function Replaced<N>(t: Tree<N>, node: N, other: N, c: Tree<N>, q: Path<N>, n: N): Links<N>
    requires node in Nodes(t) && n in Nodes(t)
  {
    var m := if n == other then node else n;
    SwapLinks(Spliced(c, q, m, LinksIn(t, m, None)), node, other)
  }

  /** Only its parent and its children link to a node. */
  lemma OnlyNeighbours<N>(t: Tree<N>, l: N, node: N, r: N, p: Path<N>)
    requires Distinct(t) && node in Nodes(t)
    requires LinksIn(t, node, None) == Links(Some(l), Some(r), ParentOf(p))
    ensures forall n <- Nodes(t) :: var k := LinksIn(t, n, None);
      && (k.left == Some(node) || k.right == Some(node) ==> Some(n) == ParentOf(p))
      && (k.parent == Some(node) ==> n == l || n == r)
  {
    hide Distinct, LinksIn;
    forall n <- Nodes(t) ensures var k := LinksIn(t, n, None);
      && (k.left == Some(node) || k.right == Some(node) ==> Some(n) == ParentOf(p))
      && (k.parent == Some(node) ==> n == l || n == r)
    {
      LinksMutual(t, n, None);
    }
  }

  /** The other child of a parent is another node. */
  lemma ChildApart<N>(t: Tree<N>, p: Path<N>)
    requires Apart(t, p) && t.Branch?
    ensures p.InLeft? ==> RootOf(p.right) != RootOf(t)
    ensures p.InRight? ==> RootOf(p.left) != RootOf(t)
  {
  }

  /** The tree without node, as a cursor at the hole other has left. */
  lemma ReplacedTree<N>(t: Tree<N>, node: N, v: Tree<N>, c: Tree<N>, other: N, q: Path<N>)
    requires Distinct(t) && node in Nodes(t) && node != other && node !in Nodes(c) && !q.Top?
    requires Single(v, c, other) && Apart(v, q) && Plug(v, q) == t
    ensures Distinct(Plug(c, q)) && Nodes(Plug(c, q)) == Nodes(t) - {other}
    ensures Plug(c, RenamePath(q, node, other)) == Rename(Plug(c, q), node, other)
    ensures Apart(c, RenamePath(q, node, other))
    ensures Nodes(Plug(c, RenamePath(q, node, other))) == Nodes(t) - {node}
    ensures RootOf(Plug(c, RenamePath(q, node, other))) == SwapOption(RootOf(t), node, other)
  {
    assert Nodes(v) == Nodes(c) + {other} && Apart(c, q);
    PlugNodes(v, q);
    PlugFacts(c, q);
    RenamePlug(c, q, node, other);
    RenameAbsent(c, node, other);
    RenameNodes(Plug(c, q), node, other);
    PlugDistinct(c, RenamePath(q, node, other));
    PlugRoot(c, q, v);
  }

  lemma ReplacedLinks<N>(t: Tree<N>, node: N, v: Tree<N>, c: Tree<N>, other: N, q: Path<N>, n: N)
    requires Distinct(t) && node in Nodes(t) && node != other && node !in Nodes(c) && !q.Top?
    requires Single(v, c, other) && Apart(v, q) && Plug(v, q) == t
    requires n in Nodes(t) && n != node
    ensures n in Nodes(Plug(c, RenamePath(q, node, other)))
    ensures LinksIn(Plug(c, RenamePath(q, node, other)), n, None) == Replaced(t, node, other, c, q, n)
  {
    hide Distinct, DistinctPath, LinksIn, Plug, Spliced, Nodes, Apart;
    var m := if n == other then node else n;
    ReplacedTree(t, node, v, c, other, q);
    assert v == Branch(v.left, other, v.right) && OnlyChild(c, v.left, v.right);
    SpliceLinks(c, v.left, other, v.right, q, m);
    RenameLinks(Plug(c, q), node, other, m, None);
  }

  /** Taking other, a neighbour of node, out of its place and putting it where node was. */
  lemma ReplacedInorder<N>(b: seq<N>, node: N, other: N, a: seq<N>)
    requires node !in b && node !in a
    ensures SwapAll(b + ([node] + a), node, other) == b + [other] + a
  {
    SwapAllConcat(b, [node] + a, node, other);
    SwapAllConcat([node], a, node, other);
    SwapAllAbsent(b, node, other);
    SwapAllAbsent(a, node, other);
    assert SwapAll([node], node, other) == [other];
  }

  lemma AbsentAround<N>(b: seq<N>, node: N, a: seq<N>)
    requires NoRepeats(b + [node] + a)
    ensures node !in b && node !in a
  {
    var s := b + [node] + a;
    forall k: nat | k < |b| ensures b[k] != node { assert s[k] == b[k] && s[|b|] == node; }
    forall k: nat | k < |a| ensures a[k] != node { assert s[|b| + 1 + k] == a[k] && s[|b|] == node; }
  }

  /** other is the last node before node. */
  lemma PredecessorSequence<N>(u: seq<N>, v: seq<N>, other: N, p: seq<N>, l: seq<N>, node: N, r: seq<N>, a: seq<N>)
    requires u + (v + [other] + []) == p + l && NoRepeats(p + (l + [node] + r) + a)
    ensures SwapAll(u + v + ([node] + r + a), node, other) == p + l + r + a
  {
    hide NoRepeats, SwapAll;
    assert u + v + [other] == p + l by { assert u + (v + [other] + []) == u + v + [other]; }
    assert p + (l + [node] + r) + a == (u + v + [other]) + [node] + (r + a);
    AbsentAround(u + v + [other], node, r + a);
    assert node !in u + v by { assert forall x <- u + v :: x in u + v + [other]; }
    ReplacedInorder(u + v, node, other, r + a);
    assert [node] + r + a == [node] + (r + a);
    assert (u + v) + [other] + (r + a) == p + l + r + a;
  }

  /** other is the first node after node. */
  lemma SuccessorSequence<N>(v: seq<N>, u: seq<N>, other: N, p: seq<N>, l: seq<N>, node: N, r: seq<N>, a: seq<N>)
    requires ([] + [other] + v) + u == r + a && NoRepeats(p + (l + [node] + r) + a)
    ensures SwapAll(p + l + [node] + v + u, node, other) == p + l + r + a
  {
    hide NoRepeats, SwapAll;
    assert [other] + (v + u) == r + a by { assert ([] + [other] + v) + u == [other] + (v + u); }
    assert p + (l + [node] + r) + a == (p + l) + [node] + ([other] + (v + u));
    AbsentAround(p + l, node, [other] + (v + u));
    assert node !in v + u by { assert forall x <- v + u :: x in [other] + (v + u); }
    ReplacedInorder(p + l, node, other, v + u);
    assert p + l + [node] + v + u == (p + l) + ([node] + (v + u));
    assert (p + l) + [other] + (v + u) == (p + l) + ([other] + (v + u));
    assert (p + l) + (r + a) == p + l + r + a;
  }
}
