/** Unlinking a node from an AVL tree. */
module AvlErase {
  import opened Arithmetic
  import opened Sequences
  import opened Trees
  import opened AvlNodes
  import opened AvlBalance
  import opened AvlCursor
  import opened Replacement

  /** node hangs in the hole of p, and its children are c and nothing else. */
  ghost predicate Spliceable<T>(node: Node<T>, c: Tree<Node<T>>, p: Path<Node<T>>, end: Node<T>,
                                nodes: set<Node<T>>)
    reads node, end, PathNodes(p)
  {
    && node in nodes && end !in nodes && (!p.Top? ==> p.node in nodes && p.node != node)
    && (c.Branch? ==> c.node in nodes && c.node != node && Some(c.node) != ParentOf(p))
    && node.parent == ParentPtr(ParentOf(p), end)
    && ((node.left == Ptr(RootOf(c)) && node.right == null) || (node.right == Ptr(RootOf(c)) && node.left == null))
    && (p.Top? ==> end.left == node)
    && (p.InLeft? ==> p.node.left == node)
    && (p.InRight? ==> p.node.right == node && p.node.left != node)
  }

  lemma SpliceStart<T>(c: Tree<Node<T>>, l: Tree<Node<T>>, node: Node<T>, r: Tree<Node<T>>,
                       p: Path<Node<T>>, end: Node<T>)
    requires OnlyChild(c, l, r) && Apart(Branch(l, node, r), p) && Linked(Plug(Branch(l, node, r), p), end)
    ensures Spliceable(node, c, p, end, Nodes(Plug(Branch(l, node, r), p)))
    ensures end !in Nodes(Plug(Branch(l, node, r), p))
  {
    hide DistinctPath, LinksIn, Plug;
    var t := Branch(l, node, r);
    RootPointers(t, p, end);
    PlugNodes(t, p);
    PlugRoot(t, p, t);
    if !p.Top? { ParentLinks(t, p); }
  }

  /** If every other node has the links that splicing gives it, the heap is the spliced tree. */
  lemma SplicedLinked<T>(c: Tree<Node<T>>, l: Tree<Node<T>>, node: Node<T>, r: Tree<Node<T>>,
                         p: Path<Node<T>>, end: Node<T>)
    requires OnlyChild(c, l, r) && Apart(Branch(l, node, r), p)
    requires var t := Plug(Branch(l, node, r), p);
      && end !in Nodes(t)
      && (forall n <- Nodes(t) :: n != node ==> NodeLinked(n, Spliced(c, p, n, LinksIn(t, n, None)), end))
      && end.left == if p.Top? then Ptr(RootOf(c)) else Ptr(RootOf(t))
    ensures Apart(c, p) && Linked(Plug(c, p), end)
    ensures Nodes(Plug(c, p)) == Nodes(Plug(Branch(l, node, r), p)) - {node}
  {
    var t := Branch(l, node, r);
    PlugNodes(t, p);
    PlugNodes(c, p);
    assert Nodes(t) == Nodes(c) + {node};
    PlugRoot(c, p, t);
    forall n <- Nodes(Plug(c, p)) ensures NodeLinked(n, LinksIn(Plug(c, p), n, None), end) {
      SpliceLinks(c, l, node, r, p, n);
    }
  }

  method UnlinkOnlyChild<T>(node: Node<T>, ghost t: Tree<Node<T>>, ghost c: Tree<Node<T>>,
                            ghost p: Path<Node<T>>, ghost end: Node<T>, ghost nodes: set<Node<T>>)
    requires Linked(t, end) && nodes == Nodes(t)
    requires Spliceable(node, c, p, end, nodes)
    modifies nodes`left, nodes`right, nodes`parent, end`left, end`right
    ensures forall n <- nodes :: n != node ==> NodeLinked(n, Spliced(c, p, n, LinksIn(t, n, None)), end)
    ensures end.left == if p.Top? then Ptr(RootOf(c)) else Ptr(RootOf(t))
    ensures node.left == old(node.left) && node.right == old(node.right) && node.parent == old(node.parent)
  {
    if node.left != null {
      if node.IsLeftChild() {
        node.parent.left := node.left;
      } else {
        node.parent.right := node.left;
      }
      node.left.parent := node.parent;
    } else if node.right != null {
      if node.IsLeftChild() {
        node.parent.left := node.right;
      } else {
        node.parent.right := node.right;
      }
      node.right.parent := node.parent;
    } else {
      if node.IsLeftChild() {
        node.parent.left := null;
      } else {
        node.parent.right := null;
      }
    }
    forall n <- nodes | n != node ensures NodeLinked(n, Spliced(c, p, n, LinksIn(t, n, None)), end) {
      assert old(NodeLinked(n, LinksIn(t, n, None), end));
    }
  }

  // A node with two children: its predecessor leaves its own place and takes over the node's.

  /** node has the children l and r and hangs in the hole of p; prev is its predecessor, whose
      only subtree is pl and which hangs in the hole of q. */
  ghost predicate Replaceable<N>(t: Tree<N>, l: N, node: N, r: N, p: Path<N>, pl: Tree<N>, prev: N, q: Path<N>) {
    ReplaceLinks(t, l, node, r, p, pl, prev, q) && ReplaceDistinct(t, l, node, r, p, pl, prev, q)
  }

  ghost predicate ReplaceLinks<N>(t: Tree<N>, l: N, node: N, r: N, p: Path<N>, pl: Tree<N>, prev: N, q: Path<N>) {
    && {node, prev, l, r} <= Nodes(t)
    && LinksIn(t, node, None) == Links(Some(l), Some(r), ParentOf(p))
    && LinksIn(t, prev, None) == Links(RootOf(pl), None, ParentOf(q))
    && LinksIn(t, l, None).parent == Some(node) && LinksIn(t, r, None).parent == Some(node)
    && (pl.Branch? ==> pl.node in Nodes(t) && LinksIn(t, pl.node, None).parent == Some(prev))
    && (forall n <- Nodes(t) :: var k := LinksIn(t, n, None);
          && (k.left == Some(node) || k.right == Some(node) ==> Some(n) == ParentOf(p))
          && (k.parent == Some(node) ==> n == l || n == r))
    && (p.Top? ==> RootOf(t) == Some(node))
    && (p.InLeft? ==> p.node in Nodes(t) && var k := LinksIn(t, p.node, None);
                      k.left == Some(node) && k.right != Some(node))
    && (p.InRight? ==> p.node in Nodes(t) && var k := LinksIn(t, p.node, None);
                       k.right == Some(node) && k.left != Some(node))
    && (q.InRight? ==> q.node in Nodes(t) && var k := LinksIn(t, q.node, None);
                       k.right == Some(prev) && k.left != Some(prev))
  }

  ghost predicate ReplaceDistinct<N>(t: Tree<N>, l: N, node: N, r: N, p: Path<N>, pl: Tree<N>, prev: N, q: Path<N>) {
    && node != prev && node != l && node != r && r != prev && r != l
    && (pl.Branch? ==> pl.node !in {node, prev, l, r})
    && (!p.Top? ==> p.node !in {node, prev, l, r} && RootOf(pl) != ParentOf(p))
    && ((q.InLeft? && q.node == node && l == prev)
        || (q.InRight? && l != prev && q.node !in {node, prev, r}
            && ParentOf(q) != ParentOf(p) && ParentOf(q) != RootOf(pl)))
  }

  /** prev is the left child of node. */
  method ReplaceByLeftChild<T>(node: Node<T>, prev: Node<T>, ghost t: Tree<Node<T>>,
                               ghost l: Node<T>, ghost r: Node<T>, ghost p: Path<Node<T>>,
                               ghost pl: Tree<Node<T>>, ghost q: Path<Node<T>>,
                               ghost end: Node<T>, ghost nodes: set<Node<T>>)
    requires Linked(t, end) && nodes == Nodes(t)
    requires Replaceable(t, l, node, r, p, pl, prev, q) && q.InLeft?
    modifies nodes`left, nodes`right, nodes`parent, end`left, end`right
    ensures forall n <- nodes :: n != node ==> NodeLinked(n, Replaced(t, node, prev, pl, q, n), end)
    ensures end.left == if p.Top? then prev else Ptr(RootOf(t))
  {
    assert NodeLinked(node, LinksIn(t, node, None), end);
    assert NodeLinked(prev, LinksIn(t, prev, None), end);
    assert !p.Top? ==> NodeLinked(p.node, LinksIn(t, p.node, None), end);
    prev.right := node.right;
    node.right.parent := prev;
    if node.IsLeftChild() {
      node.parent.left := prev;
    } else {
      node.parent.right := prev;
    }
    prev.parent := node.parent;
    forall n <- nodes | n != node ensures NodeLinked(n, Replaced(t, node, prev, pl, q, n), end) {
      assert old(NodeLinked(n, LinksIn(t, n, None), end));
      if n == prev {
      } else if n == r {
      } else if Some(n) == RootOf(pl) {
      } else if Some(n) == ParentOf(p) {
      } else {
      }
    }
  }

  /** prev, deeper on the right spine of the left subtree, leaves its place to its left child and
      takes over the links of node. */
  method TakeOver<T>(node: Node<T>, prev: Node<T>)
    requires prev.parent != null && node.left != null && node.right != null && node.parent != null
    requires var l, r, up, par, pl := node.left, node.right, node.parent, prev.parent, prev.left;
      && node != prev && l != node && l != prev && r != node && r != prev && l != r
      && up != node && up != prev && up != l && up != r
      && par != node && par != prev && par != r && par != up
      && pl != node && pl != prev && pl != l && pl != r && pl != up && pl != par
    modifies prev`left, prev`right, prev`parent, prev.parent`right
    modifies {node.left, node.right}`parent, node.parent`left, node.parent`right
    modifies (if prev.left == null then {} else {prev.left})`parent
    ensures var l, r, up, par, pl := node.left, node.right, node.parent, old(prev.parent), old(prev.left);
      && par.right == pl && (pl != null ==> pl.parent == par)
      && prev.left == l && prev.right == r && prev.parent == up
      && l.parent == prev && r.parent == prev
      && up.left == (if old(up.left) == node then prev else old(up.left))
      && up.right == (if old(up.left) == node then old(up.right) else prev)
  {
    prev.parent.right := prev.left;
    if prev.left != null {
      prev.left.parent := prev.parent;
    }
    prev.left := node.left;
    prev.right := node.right;
    prev.parent := node.parent;
    prev.left.parent := prev;
    prev.right.parent := prev;
    if node.IsLeftChild() {
      prev.parent.left := prev;
    } else {
      prev.parent.right := prev;
    }
  }

  method ReplaceByDescendant<T>(node: Node<T>, prev: Node<T>, ghost t: Tree<Node<T>>,
                                ghost l: Node<T>, ghost r: Node<T>, ghost p: Path<Node<T>>,
                                ghost pl: Tree<Node<T>>, ghost q: Path<Node<T>>,
                                ghost end: Node<T>, ghost nodes: set<Node<T>>)
    requires Linked(t, end) && nodes == Nodes(t)
    requires Replaceable(t, l, node, r, p, pl, prev, q) && q.InRight?
    modifies nodes`left, nodes`right, nodes`parent, end`left, end`right
    ensures forall n <- nodes :: n != node ==> NodeLinked(n, Replaced(t, node, prev, pl, q, n), end)
    ensures end.left == if p.Top? then prev else Ptr(RootOf(t))
  {
    assert NodeLinked(node, LinksIn(t, node, None), end);
    assert NodeLinked(prev, LinksIn(t, prev, None), end);
    assert NodeLinked(q.node, LinksIn(t, q.node, None), end);
    assert !p.Top? ==> NodeLinked(p.node, LinksIn(t, p.node, None), end);
    TakeOver(node, prev);
    forall n <- nodes | n != node ensures NodeLinked(n, Replaced(t, node, prev, pl, q, n), end) {
      assert old(NodeLinked(n, LinksIn(t, n, None), end));
      if n == prev {
      } else if n == r {
      } else if n == l {
      } else if Some(n) == RootOf(pl) {
      } else if Some(n) == ParentOf(p) {
      } else if Some(n) == ParentOf(q) {
      } else {
      }
    }
  }

  /** The nodes a replacement writes are distinct. */
  lemma ReplaceApart<N>(l: Tree<N>, node: N, r: Tree<N>, p: Path<N>, pl: Tree<N>, prev: N, q: Path<N>)
    requires l.Branch? && r.Branch? && Apart(Branch(l, node, r), p)
    requires Apart(Branch(pl, prev, Leaf), q) && Nodes(Branch(pl, prev, Leaf)) <= Nodes(l)
    requires q == InLeft(p, node, r) || (q.InRight? && q.node in Nodes(l))
    ensures node !in Nodes(l) && node !in Nodes(r) && prev in Nodes(l) && Nodes(l) !! Nodes(r)
    ensures Nodes(l) + {node} + Nodes(r) !! PathNodes(p)
    ensures Nodes(pl) <= Nodes(l) && prev !in Nodes(pl) && Nodes(pl) + {prev} !! PathNodes(q)
  {
    var u, v := Branch(l, node, r), Branch(pl, prev, Leaf);
    assert Nodes(u) == Nodes(l) + {node} + Nodes(r);
    assert Nodes(v) == Nodes(pl) + {prev} + {};
  }

  lemma ReplaceStartLinks<N>(l: Tree<N>, node: N, r: Tree<N>, p: Path<N>, pl: Tree<N>, prev: N, q: Path<N>)
    requires l.Branch? && r.Branch? && Apart(Branch(l, node, r), p)
    requires Apart(Branch(pl, prev, Leaf), q) && Plug(Branch(pl, prev, Leaf), q) == Plug(Branch(l, node, r), p)
    requires !q.Top?
    ensures ReplaceLinks(Plug(Branch(l, node, r), p), l.node, node, r.node, p, pl, prev, q)
    ensures q.InLeft? ==> q.node in Nodes(Plug(Branch(l, node, r), p))
                          && LinksIn(Plug(Branch(l, node, r), p), q.node, None).left == Some(prev)
  {
    hide Distinct, DistinctPath, Apart, Plug, LinksIn, PathNodes;
    var u, v := Branch(l, node, r), Branch(pl, prev, Leaf);
    var t := Plug(u, p);
    PlugDistinct(u, p);
    CursorLinks(l, node, r, p);
    CursorLinks(pl, prev, Leaf, q);
    OnlyNeighbours(t, l.node, node, r.node, p);
    ParentLinks(v, q);
    if !p.Top? { ParentLinks(u, p); }
    PlugRoot(u, p, u);
    LinksMutual(t, node, None);
    LinksMutual(t, prev, None);
    ChildApart(u, p);
  }

  lemma ReplaceStartDistinct<N>(t: Tree<N>, l: N, node: N, r: N, p: Path<N>, pl: Tree<N>, prev: N, q: Path<N>,
                                left: set<N>, right: set<N>)
    requires ReplaceLinks(t, l, node, r, p, pl, prev, q)
    requires l in left && r in right && prev in left && left !! right && node !in left && node !in right
    requires pl.Branch? ==> pl.node in left && pl.node != prev
    requires !p.Top? ==> p.node !in left && p.node !in right && p.node != node
    requires q.InLeft? ==> q.node == node && l == prev
    requires q.InRight? ==> q.node in left && q.node != prev && Some(q.node) != RootOf(pl)
    requires !q.Top?
    ensures ReplaceDistinct(t, l, node, r, p, pl, prev, q)
  {
    hide LinksIn;
  }

  /** The cursor at node and the one at its predecessor meet all that the replacement relies on. */
  lemma ReplaceStart<N>(l: Tree<N>, node: N, r: Tree<N>, p: Path<N>, pl: Tree<N>, prev: N, q: Path<N>)
    requires l.Branch? && r.Branch? && Apart(Branch(l, node, r), p)
    requires Apart(Branch(pl, prev, Leaf), q) && Plug(Branch(pl, prev, Leaf), q) == Plug(Branch(l, node, r), p)
    requires Nodes(Branch(pl, prev, Leaf)) <= Nodes(l)
    requires q == InLeft(p, node, r) || (q.InRight? && q.node in Nodes(l))
    ensures Replaceable(Plug(Branch(l, node, r), p), l.node, node, r.node, p, pl, prev, q)
  {
    hide Distinct, DistinctPath, Plug, LinksIn, ReplaceLinks, ReplaceDistinct, Apart;
    ReplaceApart(l, node, r, p, pl, prev, q);
    ReplaceStartLinks(l, node, r, p, pl, prev, q);
    CursorLinks(l, node, r, p);
    var t := Plug(Branch(l, node, r), p);
    ReplaceStartDistinct(t, l.node, node, r.node, p, pl, prev, q, Nodes(l), Nodes(r));
  }

  /** If every other node has the links Replaced gives it, the heap is the tree without node. */
  lemma ReplacedLinked<T>(t: Tree<Node<T>>, node: Node<T>, p: Path<Node<T>>, pl: Tree<Node<T>>,
                          prev: Node<T>, q: Path<Node<T>>, end: Node<T>)
    requires Distinct(t) && node in Nodes(t) && node != prev && node !in Nodes(pl) && !q.Top?
    requires Apart(Branch(pl, prev, Leaf), q) && Plug(Branch(pl, prev, Leaf), q) == t
    requires end !in Nodes(t)
    requires forall n <- Nodes(t) :: n != node ==> NodeLinked(n, Replaced(t, node, prev, pl, q, n), end)
    requires RootOf(t) == Some(node) <==> p.Top?
    requires end.left == if p.Top? then prev else Ptr(RootOf(t))
    ensures Apart(pl, RenamePath(q, node, prev)) && Linked(Plug(pl, RenamePath(q, node, prev)), end)
    ensures Nodes(Plug(pl, RenamePath(q, node, prev))) == Nodes(t) - {node}
  {
    hide Distinct, DistinctPath, Apart, LinksIn, Plug, Replaced;
    ReplacedTree(t, node, Branch(pl, prev, Leaf), pl, prev, q);
    var t2 := Plug(pl, RenamePath(q, node, prev));
    forall n <- Nodes(t2) ensures NodeLinked(n, LinksIn(t2, n, None), end) {
      ReplacedLinks(t, node, Branch(pl, prev, Leaf), pl, prev, q, n);
    }
  }

  // The erasure up to the climb.

  /** The state of the climb: the tree without node, seen from a hole whose subtree t has become at
      most one lower than the h the context p was balanced for. */
  ghost predicate Unlinked<T>(t: Tree<Node<T>>, p: Path<Node<T>>, h: nat, end: Node<T>, rest: seq<Node<T>>)
    reads end, Nodes(t), PathNodes(p), Nodes(Plug(t, p))
  {
    && Apart(t, p) && Linked(Plug(t, p), end) && Inorder(Plug(t, p)) == rest
    && Exact(t) && ExactAside(p) && Balanced(t) && PathBalanced(p, h) && Height(t) <= h <= Height(t) + 1
  }

  lemma ApartBranch<N>(t: Tree<N>, p: Path<N>)
    requires Apart(t, p) && t.Branch?
    ensures Distinct(t) && Distinct(Branch(t.left, t.node, t.right))
  {
  }

  method UnlinkLower<T>(node: Node<T>, ghost sub: Tree<Node<T>>, ghost p: Path<Node<T>>,
                        ghost end: Node<T>, ghost nodes: set<Node<T>>)
    returns (upping: Node<T>, ghost t: Tree<Node<T>>)
    requires sub.Branch? && sub.node == node && (sub.left.Leaf? || sub.right.Leaf?)
    requires Apart(sub, p) && Linked(Plug(sub, p), end) && nodes == Nodes(Plug(sub, p))
    requires Exact(Plug(sub, p)) && Balanced(Plug(sub, p))
    modifies nodes`left, nodes`right, nodes`parent, end`left, end`right
    ensures Unlinked(t, p, Height(sub), end, Before(p) + Inorder(sub.left) + Inorder(sub.right) + After(p))
    ensures Nodes(Plug(t, p)) == nodes - {node} && upping == ParentPtr(ParentOf(p), end)
  {
    hide Distinct, DistinctPath, Apart, Plug, LinksIn, Linked, PathNodes, Nodes, Sides, Spliced, Spliceable, Inorder,
         Before, After, ExactAside, NodeLinked;
    t := if sub.left.Leaf? then sub.right else sub.left;
    assert sub == Branch(sub.left, node, sub.right);
    RootPointers(sub, p, end);
    upping := node.parent;
    SpliceStart(t, sub.left, node, sub.right, p, end);
    UnlinkOnlyChild(node, Plug(sub, p), t, p, end, nodes);
    SplicedLinked(t, sub.left, node, sub.right, p, end);
    ExactSplit(sub, p);
    ApartBranch(sub, p);
    ExactChildren(sub.left, node, sub.right);
    BalancedPlug(sub, p);
    PlugInorder(t, p);
    EmptyInorder(if sub.left.Leaf? then sub.left else sub.right);
  }

  /** The links of a node with two children, its predecessor having been found. */
  method ReplaceByPredecessor<T>(node: Node<T>, prev: Node<T>, ghost sub: Tree<Node<T>>, ghost p: Path<Node<T>>,
                                 ghost pl: Tree<Node<T>>, ghost q: Path<Node<T>>,
                                 ghost end: Node<T>, ghost nodes: set<Node<T>>)
    returns (upping: Node<T>)
    requires sub.Branch? && sub.node == node && sub.left.Branch? && sub.right.Branch? && Apart(sub, p)
    requires Linked(Plug(sub, p), end) && nodes == Nodes(Plug(sub, p))
    requires Apart(Branch(pl, prev, Leaf), q) && Plug(Branch(pl, prev, Leaf), q) == Plug(sub, p)
    requires Nodes(Branch(pl, prev, Leaf)) <= Nodes(sub.left)
    requires q == InLeft(p, node, sub.right) || (q.InRight? && q.node in Nodes(sub.left))
    modifies nodes`left, nodes`right, nodes`parent, end`left, end`right
    ensures Apart(pl, RenamePath(q, node, prev)) && Linked(Plug(pl, RenamePath(q, node, prev)), end)
    ensures Nodes(Plug(pl, RenamePath(q, node, prev))) == nodes - {node}
    ensures upping == ParentPtr(ParentOf(RenamePath(q, node, prev)), end)
  {
    hide Distinct, DistinctPath, Apart, Plug, LinksIn, PathNodes, Replaced;
    ghost var l, r, t := sub.left, sub.right, Plug(sub, p);
    assert sub == Branch(l, node, r);
    ReplaceStart(l, node, r, p, pl, prev, q);
    ReplaceApart(l, node, r, p, pl, prev, q);
    PlugDistinct(sub, p);
    LinksMutual(t, node, None);
    assert NodeLinked(node, LinksIn(t, node, None), end);
    assert NodeLinked(prev, LinksIn(t, prev, None), end);
    assert q.InRight? ==> NodeLinked(q.node, LinksIn(t, q.node, None), end);
    if prev.IsLeftChild() {
      upping := prev;
      ReplaceByLeftChild(node, prev, t, l.node, r.node, p, pl, q, end, nodes);
    } else {
      upping := prev.parent;
      ReplaceByDescendant(node, prev, t, l.node, r.node, p, pl, q, end, nodes);
    }
    ReplacedLinked(t, node, p, pl, prev, q, end);
  }

  /** What the replacement does to the in-order sequence. */
  lemma UnlinkedInorder<N>(sub: Tree<N>, p: Path<N>, t: Tree<N>, prev: N, c: Path<N>)
    requires sub.Branch? && Apart(sub, p) && Apart(Branch(t, prev, Leaf), c) && !c.Top?
    requires Plug(Branch(t, prev, Leaf), c) == Plug(sub, p)
    requires After(c) == [sub.node] + Inorder(sub.right) + After(p)
    requires Before(c) + Inorder(Branch(t, prev, Leaf)) == Before(p) + Inorder(sub.left)
    requires sub.node != prev && sub.node !in Nodes(t)
    ensures Inorder(Plug(t, RenamePath(c, sub.node, prev)))
         == Before(p) + Inorder(sub.left) + Inorder(sub.right) + After(p)
  {
    hide Distinct, DistinctPath, Apart, Plug, Before, After, NoRepeats, SwapAll;
    var node, tree := sub.node, Plug(sub, p);
    PlugDistinct(sub, p);
    PlugInorder(sub, p);
    PlugNodes(sub, p);
    InorderNoRepeats(tree);
    ReplacedTree(tree, node, Branch(t, prev, Leaf), t, prev, c);
    PlugInorder(t, c);
    RenameInorder(Plug(t, c), node, prev);
    PredecessorSequence(Before(c), Inorder(t), prev, Before(p), Inorder(sub.left), node, Inorder(sub.right), After(p));
  }

  lemma RenameAside<T>(c: Path<Node<T>>, node: Node<T>, prev: Node<T>)
    requires node !in Sides(c) && ExactAside(c)
    ensures ExactAside(RenamePath(c, node, prev))
  {
    RenameSides(c, node, prev);
  }

  /** Cached heights and balance around the hole the predecessor has left. */
  lemma UnlinkedHeights<T>(tree: Tree<Node<T>>, node: Node<T>, t: Tree<Node<T>>, prev: Node<T>, c: Path<Node<T>>)
    requires Apart(Branch(t, prev, Leaf), c) && Plug(Branch(t, prev, Leaf), c) == tree
    requires Exact(tree) && Balanced(tree) && node !in Sides(c)
    ensures var q := RenamePath(c, node, prev);
      Exact(t) && ExactAside(q) && Balanced(t) && PathBalanced(q, Height(t) + 1)
  {
    hide Distinct, DistinctPath, Plug, Apart, Exact, ExactAside, Sides;
    var v := Branch(t, prev, Leaf);
    ExactSplit(v, c);
    ApartBranch(v, c);
    ExactChildren(t, prev, Leaf);
    BalancedPlug(v, c);
    RenameAside(c, node, prev);
    RenamePathBalanced(c, Height(t) + 1, node, prev);
  }

  method UnlinkInner<T>(node: Node<T>, ghost sub: Tree<Node<T>>, ghost p: Path<Node<T>>,
                        ghost end: Node<T>, ghost nodes: set<Node<T>>)
    returns (upping: Node<T>, ghost t: Tree<Node<T>>, ghost q: Path<Node<T>>)
    requires sub.Branch? && sub.node == node && sub.left.Branch? && sub.right.Branch?
    requires Apart(sub, p) && Linked(Plug(sub, p), end) && nodes == Nodes(Plug(sub, p))
    requires Exact(Plug(sub, p)) && Balanced(Plug(sub, p))
    modifies nodes`left, nodes`right, nodes`parent, end`left, end`right
    ensures Unlinked(t, q, Height(t) + 1, end, Before(p) + Inorder(sub.left) + Inorder(sub.right) + After(p))
    ensures Nodes(Plug(t, q)) == nodes - {node} && upping == ParentPtr(ParentOf(q), end)
  {
    hide Distinct, DistinctPath, Apart, Plug, LinksIn, Linked, PathNodes, Nodes, Sides, Inorder,
         Before, After, ExactAside, NodeLinked;
    RootPointers(sub, p, end);
    StepDown(sub, p);
    ghost var hole := InLeft(p, node, sub.right);
    HoleFacts(sub, p);
    var prev;
    ghost var c;
    prev, t, c := GotoTreeMax(node.left, sub.left, hole, end);
    q := RenamePath(c, node, prev);
    assert node != prev && node !in Nodes(t) by { ReplaceApart(sub.left, node, sub.right, p, t, prev, c); }
    UnlinkedInorder(sub, p, t, prev, c);
    upping := ReplaceByPredecessor(node, prev, sub, p, t, c, end, nodes);
    UnlinkedHeights(Plug(sub, p), node, t, prev, c);
  }

  /** One step of the climb: the parent of the hole gets its height back, and its balance. */
  method ClimbStep<T>(upping: Node<T>, ghost t0: Tree<Node<T>>, ghost p: Path<Node<T>>, ghost h: nat,
                      ghost end: Node<T>, ghost nodes: set<Node<T>>, ghost rest: seq<Node<T>>)
    returns (next: Node<T>, ghost t: Tree<Node<T>>, ghost h': nat)
    requires Unlinked(t0, p, h, end, rest) && nodes == Nodes(Plug(t0, p))
    requires !p.Top? && upping == p.node
    modifies nodes, end`left, end`right
    ensures Unlinked(t, p.up, h', end, rest) && nodes == Nodes(Plug(t, p.up))
    ensures next == ParentPtr(ParentOf(p.up), end)
  {
    hide Distinct, DistinctPath, Apart, Plug, LinksIn, Linked, PathNodes, Nodes, Sides, Inorder,
         Before, After, Exact, ExactAside, NodeLinked;
    ghost var l, r := if p.InLeft? then t0 else p.left, if p.InLeft? then p.right else t0;
    Ascend(t0, p);
    AsideDown(l, upping, r, p.up);
    h' := 1 + Max(h, if p.InLeft? then Height(r) else Height(l));
    next, t := FixNode(upping, l, r, p.up, end, nodes);
    SameInorder(Branch(l, upping, r), t, p.up);
  }

  /** The climb: every node on the way to the end node gets its height back, and its balance. */
  method Climb<T>(start: Node<T>, ghost t0: Tree<Node<T>>, ghost p0: Path<Node<T>>, ghost h0: nat,
                  end: Node<T>, ghost nodes: set<Node<T>>, ghost rest: seq<Node<T>>)
    returns (ghost t: Tree<Node<T>>)
    requires Unlinked(t0, p0, h0, end, rest) && nodes == Nodes(Plug(t0, p0))
    requires start == ParentPtr(ParentOf(p0), end)
    modifies nodes, end`left, end`right
    ensures Distinct(t) && Linked(t, end) && Exact(t) && Balanced(t)
    ensures nodes == Nodes(t) && Inorder(t) == rest
  {
    hide Distinct, DistinctPath, Apart, Plug, LinksIn, Linked, PathNodes, Nodes, Sides, Inorder,
         Before, After, Exact, ExactAside, NodeLinked, Balanced, PathBalanced, Height;
    var upping := start;
    t := t0;
    ghost var p, h := p0, h0;
    EndOutside(t, p, end);
    while upping != end
      invariant upping == ParentPtr(ParentOf(p), end)
      invariant Unlinked(t, p, h, end, rest) && nodes == Nodes(Plug(t, p))
      invariant upping == end <==> p.Top?
      decreases p
    {
      upping, t, h := ClimbStep(upping, t, p, h, end, nodes, rest);
      p := p.up;
      EndOutside(t, p, end);
    }
    PlugDistinct(t, p);
    PlugTop(t, p);
  }

  /** Unlink node, the i-th of the tree, and climb from where the tree has become lower. */
  method EraseNode<T>(node: Node<T>, ghost tree: Tree<Node<T>>, ghost i: nat, end: Node<T>,
                      ghost nodes: set<Node<T>>)
    returns (ghost t: Tree<Node<T>>)
    requires Distinct(tree) && Linked(tree, end) && Exact(tree) && Balanced(tree) && nodes == Nodes(tree)
    requires i < |Inorder(tree)| && Inorder(tree)[i] == node
    modifies nodes, end`left, end`right
    ensures Distinct(t) && Linked(t, end) && Exact(t) && Balanced(t)
    ensures Nodes(t) == nodes - {node} && Inorder(t) == Inorder(tree)[..i] + Inorder(tree)[i + 1..]
  {
    hide Distinct, DistinctPath, Apart, Plug, LinksIn, Linked, PathNodes, Nodes, Sides, Inorder,
         Before, After, Exact, ExactAside, NodeLinked, Unlinked, PathBalanced, Balanced, Height;
    ghost var sub, p := CursorAt(tree, node, i);
    RootPointers(sub, p, end);
    ghost var rest := Before(p) + Inorder(sub.left) + Inorder(sub.right) + After(p);
    ghost var q, h := p, Height(sub);
    var upping;
    if node.left != null && node.right != null {
      upping, t, q := UnlinkInner(node, sub, p, end, nodes);
      h := Height(t) + 1;
    } else {
      upping, t := UnlinkLower(node, sub, p, end, nodes);
    }
    t := Climb(upping, t, q, h, end, nodes - {node}, rest);
  }
}
