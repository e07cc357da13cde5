/** Unlinking a node from a red-black tree. */
module RedBlackUnlink {
  import opened Sequences
  import opened Trees
  import opened RedBlackNodes
  import opened Replacement

  method GetMinChild(start: Node, ghost sub: Tree<Node>, ghost p: Path<Node>, ghost anchor: Node)
    returns (it: Node, ghost r: Tree<Node>, ghost q: Path<Node>)
    requires Apart(sub, p) && Linked(Plug(sub, p), anchor) && sub.Branch? && sub.node == start
    ensures Apart(Branch(Leaf, it, r), q) && Plug(Branch(Leaf, it, r), q) == Plug(sub, p)
    ensures Before(q) == Before(p) && Inorder(Branch(Leaf, it, r)) + After(q) == Inorder(sub) + After(p)
    ensures q == p || (q.InLeft? && q.node in Nodes(sub))
    ensures Nodes(Branch(Leaf, it, r)) <= Nodes(sub) && Linked(Plug(sub, p), anchor)
  {
    hide Apart, Linked, LinksIn, Plug, Inorder, Before, After;
    ghost var c, t := sub, Plug(sub, p);
    it, q := start, p;
    CursorPointers(c, q, anchor);
    while it.left != null
      invariant Linked(t, anchor)
      invariant Apart(c, q) && Plug(c, q) == t && c.Branch? && c.node == it
      invariant it.left == Ptr(RootOf(c.left))
      invariant Before(q) == Before(p) && Inorder(c) + After(q) == Inorder(sub) + After(p)
      invariant q == p || (q.InLeft? && q.node in Nodes(sub))
      invariant Nodes(c) <= Nodes(sub)
      decreases c
    {
      it := it.left;
      StepDown(c, q);
      c, q := c.left, InLeft(q, c.node, c.right);
      CursorPointers(c, q, anchor);
    }
    r := c.right;
  }

  method GetMaxChild(start: Node, ghost sub: Tree<Node>, ghost p: Path<Node>, ghost anchor: Node)
    returns (it: Node, ghost l: Tree<Node>, ghost q: Path<Node>)
    requires Apart(sub, p) && Linked(Plug(sub, p), anchor) && sub.Branch? && sub.node == start
    ensures Apart(Branch(l, it, Leaf), q) && Plug(Branch(l, it, Leaf), q) == Plug(sub, p)
    ensures After(q) == After(p) && Before(q) + Inorder(Branch(l, it, Leaf)) == Before(p) + Inorder(sub)
  {
    hide Apart, Linked, LinksIn, Plug, Inorder, Before, After;
    ghost var c, t := sub, Plug(sub, p);
    it, q := start, p;
    CursorPointers(c, q, anchor);
    while it.right != null
      invariant Linked(t, anchor)
      invariant Apart(c, q) && Plug(c, q) == t && c.Branch? && c.node == it
      invariant it.right == Ptr(RootOf(c.right))
      invariant After(q) == After(p) && Before(q) + Inorder(c) == Before(p) + Inorder(sub)
      decreases c
    {
      it := it.right;
      StepDown(c, q);
      c, q := c.right, InRight(q, c.left, c.node);
      CursorPointers(c, q, anchor);
    }
    l := c.left;
  }

  // At most one child: the child takes the place of the node.

  /** node hangs in the hole of p, and its children are c and nothing else. */
  ghost predicate Spliceable(node: Node, c: Tree<Node>, p: Path<Node>, anchor: Node, nodes: set<Node>)
    reads node, anchor, PathNodes(p)
  {
    && node in nodes && anchor !in nodes && (!p.Top? ==> p.node in nodes && p.node != node)
    && (c.Branch? ==> c.node in nodes && c.node != node && Some(c.node) != ParentOf(p))
    && node.parent == ParentPtr(ParentOf(p), anchor)
    && (anchor.parent == node <==> p.Top?)
    && (p.InLeft? ==> p.node.left == node)
    && (p.InRight? ==> p.node.right == node && p.node.left != node)
  }

  lemma SpliceStart(c: Tree<Node>, l: Tree<Node>, node: Node, r: Tree<Node>, p: Path<Node>, anchor: Node)
    requires OnlyChild(c, l, r) && Apart(Branch(l, node, r), p) && Linked(Plug(Branch(l, node, r), p), anchor)
    ensures Spliceable(node, c, p, anchor, Nodes(Plug(Branch(l, node, r), p)))
  {
    hide DistinctPath, LinksIn, Plug;
    var t := Branch(l, node, r);
    CursorPointers(t, p, anchor);
    PlugNodes(t, p);
    RootIsTop(t, p);
    if !p.Top? { ParentLinks(t, p); }
  }

  /** If every other node has the links that splicing gives it, the heap is the spliced tree. */
  lemma SplicedLinked(c: Tree<Node>, l: Tree<Node>, node: Node, r: Tree<Node>, p: Path<Node>, anchor: Node)
    requires OnlyChild(c, l, r) && Apart(Branch(l, node, r), p)
    requires var t := Plug(Branch(l, node, r), p);
      && anchor !in Nodes(t)
      && (forall n <- Nodes(t) :: n != node ==> NodeLinked(n, Spliced(c, p, n, LinksIn(t, n, None)), anchor))
      && anchor.parent == if p.Top? then Ptr(RootOf(c)) else Ptr(RootOf(t))
    ensures Apart(c, p) && Linked(Plug(c, p), anchor)
    ensures Nodes(Plug(c, p)) == Nodes(Plug(Branch(l, node, r), p)) - {node}
  {
    var t := Branch(l, node, r);
    PlugNodes(t, p);
    PlugNodes(c, p);
    assert Nodes(t) == Nodes(c) + {node};
    PlugRoot(c, p, t);
    forall n <- Nodes(Plug(c, p)) ensures NodeLinked(n, LinksIn(Plug(c, p), n, None), anchor) {
      SpliceLinks(c, l, node, r, p, n);
    }
  }

  method UnlinkOnlyChild(node: Node, child: Node?, anchor: Node, ghost t: Tree<Node>, ghost c: Tree<Node>,
                         ghost p: Path<Node>, ghost nodes: set<Node>)
    requires Linked(t, anchor) && nodes == Nodes(t)
    requires Spliceable(node, c, p, anchor, nodes) && child == Ptr(RootOf(c))
    modifies nodes`left, nodes`right, nodes`parent, anchor`parent
    ensures forall n <- nodes :: n != node ==> NodeLinked(n, Spliced(c, p, n, LinksIn(t, n, None)), anchor)
    ensures anchor.parent == if p.Top? then Ptr(RootOf(c)) else Ptr(RootOf(t))
    ensures node.left == old(node.left) && node.right == old(node.right) && node.parent == old(node.parent)
  {
    if child != null {
      child.parent := node.parent;
    }
    if node == anchor.parent {
      anchor.parent := child;
    } else if node == node.parent.left {
      node.parent.left := child;
    } else {
      node.parent.right := child;
    }
    forall n <- nodes | n != node ensures NodeLinked(n, Spliced(c, p, n, LinksIn(t, n, None)), anchor) {
      assert old(NodeLinked(n, LinksIn(t, n, None), anchor));
    }
  }

  // Two children: the successor takes the place of the node.

  /** node has the children l and r and hangs in the hole of p; next is its successor, whose only
      subtree is c and which hangs in the hole of q. */
  ghost predicate SuccessorLinks<N>(t: Tree<N>, l: N, node: N, r: N, p: Path<N>, c: Tree<N>, next: N, q: Path<N>) {
    && {node, next, l, r} <= Nodes(t)
    && LinksIn(t, node, None) == Links(Some(l), Some(r), ParentOf(p))
    && LinksIn(t, next, None) == Links(None, RootOf(c), ParentOf(q))
    && LinksIn(t, l, None).parent == Some(node) && LinksIn(t, r, None).parent == Some(node)
    && (c.Branch? ==> c.node in Nodes(t) && LinksIn(t, c.node, None).parent == Some(next))
    && (forall n <- Nodes(t) :: var k := LinksIn(t, n, None);
          && (k.left == Some(node) || k.right == Some(node) ==> Some(n) == ParentOf(p))
          && (k.parent == Some(node) ==> n == l || n == r))
    && (RootOf(t) == Some(node) <==> p.Top?)
    && (p.InLeft? ==> p.node in Nodes(t) && var k := LinksIn(t, p.node, None);
                      k.left == Some(node) && k.right != Some(node))
    && (p.InRight? ==> p.node in Nodes(t) && var k := LinksIn(t, p.node, None);
                       k.right == Some(node) && k.left != Some(node))
    && (q.InLeft? ==> q.node in Nodes(t) && var k := LinksIn(t, q.node, None);
                      k.left == Some(next) && k.right != Some(next))
  }

  ghost predicate SuccessorApart<N>(l: N, node: N, r: N, p: Path<N>, c: Tree<N>, next: N, q: Path<N>) {
    && node != next && node != l && node != r && l != next && r != l
    && (c.Branch? ==> c.node !in {node, next, l, r})
    && (!p.Top? ==> p.node !in {node, next, l, r} && RootOf(c) != ParentOf(p))
    && ((q.InRight? && q.node == node && r == next)
        || (q.InLeft? && r != next && q.node !in {node, next, l}
            && ParentOf(q) != ParentOf(p) && ParentOf(q) != RootOf(c)))
  }

  method TakeOver(node: Node, next: Node, child: Node?, anchor: Node) returns (childParent: Node)
    requires next.parent != null && node.left != null && node.right != null && node.parent != null
    requires child == next.right
    requires var l, r, up, par := node.left, node.right, node.parent, next.parent;
      && node != next && l != node && l != next && r != node && l != r
      && up != node && up != next && up != l && up != r
      && (if next == r then par == node else par != node && par != next && par != l && par != up)
      && (child != null ==> child !in {node, next, l, r, up, par})
      && anchor !in {node, next, l, r, par} && anchor != child
    modifies next`left, next`right, next`parent, next.parent`left, {node.left, node.right}`parent
    modifies (if next.right == null then {} else {next.right})`parent
    modifies (if anchor.parent == node then {} else {node.parent})`left
    modifies (if anchor.parent == node then {} else {node.parent})`right, anchor`parent
    ensures var l, r, up, par := node.left, node.right, node.parent, old(next.parent);
      && node.left == old(node.left) && node.right == old(node.right) && node.parent == old(node.parent)
      && next.left == l && next.right == (if next == r then child else r) && next.parent == up && l.parent == next
      && childParent == (if next == r then next else par)
      && (if next == r then par.left == old(par.left) && (child != null ==> child.parent == old(child.parent))
          else par.left == child && r.parent == next && (child != null ==> child.parent == par))
      && anchor.parent == (if old(anchor.parent) == node then next else old(anchor.parent))
      && up.left == (if old(anchor.parent != node && up.left == node) then next else old(up.left))
      && up.right == (if old(anchor.parent != node && up.left != node) then next else old(up.right))
  {
    node.left.parent := next;
    next.left := node.left;
    if next == node.right {
      childParent := next;
    } else {
      childParent := next.parent;
      if child != null {
        child.parent := childParent;
      }
      childParent.left := child;
      next.right := node.right;
      node.right.parent := next;
    }
    if node == anchor.parent {
      anchor.parent := next;
    } else if node == node.parent.left {
      node.parent.left := next;
    } else {
      node.parent.right := next;
    }
    next.parent := node.parent;
  }

  method TakeOverLinks(node: Node, next: Node, child: Node?, anchor: Node, ghost t: Tree<Node>, ghost l: Node,
                       ghost r: Node, ghost p: Path<Node>, ghost c: Tree<Node>, ghost q: Path<Node>,
                       ghost nodes: set<Node>)
    returns (childParent: Node)
    requires Linked(t, anchor) && nodes == Nodes(t) && child == Ptr(RootOf(c))
    requires SuccessorLinks(t, l, node, r, p, c, next, q) && SuccessorApart(l, node, r, p, c, next, q)
    modifies nodes`left, nodes`right, nodes`parent, anchor`parent
    ensures forall n <- nodes :: n != node ==> NodeLinked(n, Replaced(t, node, next, c, q, n), anchor)
    ensures anchor.parent == if p.Top? then next else Ptr(RootOf(t))
    ensures childParent == if q.node == node then next else q.node
  {
    assert NodeLinked(node, LinksIn(t, node, None), anchor);
    assert NodeLinked(next, LinksIn(t, next, None), anchor);
    assert q.InLeft? ==> NodeLinked(q.node, LinksIn(t, q.node, None), anchor);
    assert !p.Top? ==> NodeLinked(p.node, LinksIn(t, p.node, None), anchor);
    childParent := TakeOver(node, next, child, anchor);
    forall n <- nodes | n != node ensures NodeLinked(n, Replaced(t, node, next, c, q, n), anchor) {
      assert old(NodeLinked(n, LinksIn(t, n, None), anchor));
      if n == next {
      } else if n == r {
      } else if n == l {
      } else if Some(n) == RootOf(c) {
      } else if Some(n) == ParentOf(p) {
      } else if Some(n) == ParentOf(q) {
      } else {
      }
    }
  }

  lemma SuccessorSetting<N>(l: Tree<N>, node: N, r: Tree<N>, p: Path<N>, c: Tree<N>, next: N, q: Path<N>)
    requires l.Branch? && r.Branch? && Apart(Branch(l, node, r), p)
    requires Apart(Branch(Leaf, next, c), q) && Nodes(Branch(Leaf, next, c)) <= Nodes(r)
    requires q == InRight(p, l, node) || (q.InLeft? && q.node in Nodes(r))
    ensures node !in Nodes(l) && node !in Nodes(r) && next in Nodes(r) && Nodes(l) !! Nodes(r)
    ensures Nodes(l) + {node} + Nodes(r) !! PathNodes(p)
    ensures Nodes(c) <= Nodes(r) && next !in Nodes(c) && Nodes(c) + {next} !! PathNodes(q)
  {
    var u, v := Branch(l, node, r), Branch(Leaf, next, c);
    assert Nodes(u) == Nodes(l) + {node} + Nodes(r);
    assert Nodes(v) == {} + {next} + Nodes(c);
  }

  lemma SuccessorLinksHold<N>(l: Tree<N>, node: N, r: Tree<N>, p: Path<N>, c: Tree<N>, next: N, q: Path<N>)
    requires l.Branch? && r.Branch? && Apart(Branch(l, node, r), p)
    requires Apart(Branch(Leaf, next, c), q) && Plug(Branch(Leaf, next, c), q) == Plug(Branch(l, node, r), p)
    requires !q.Top?
    ensures SuccessorLinks(Plug(Branch(l, node, r), p), l.node, node, r.node, p, c, next, q)
    ensures q.InRight? ==> q.node in Nodes(Plug(Branch(l, node, r), p))
                           && LinksIn(Plug(Branch(l, node, r), p), q.node, None).right == Some(next)
  {
    hide Distinct, DistinctPath, Apart, Plug, LinksIn, PathNodes;
    var u, v := Branch(l, node, r), Branch(Leaf, next, c);
    var t := Plug(u, p);
    PlugDistinct(u, p);
    CursorLinks(l, node, r, p);
    CursorLinks(Leaf, next, c, q);
    OnlyNeighbours(t, l.node, node, r.node, p);
    ParentLinks(v, q);
    if !p.Top? { ParentLinks(u, p); }
    RootIsTop(u, p);
    LinksMutual(t, node, None);
    LinksMutual(t, next, None);
    ChildApart(u, p);
    ChildApart(v, q);
  }

  lemma SuccessorApartHolds<N>(t: Tree<N>, l: N, node: N, r: N, p: Path<N>, c: Tree<N>, next: N, q: Path<N>,
                               left: set<N>, right: set<N>)
    requires SuccessorLinks(t, l, node, r, p, c, next, q)
    requires l in left && r in right && next in right && left !! right && node !in left && node !in right
    requires c.Branch? ==> c.node in right && c.node != next
    requires !p.Top? ==> p.node !in left && p.node !in right && p.node != node
    requires q.InRight? ==> q.node == node && r == next
    requires q.InLeft? ==> q.node in right && q.node != next && Some(q.node) != RootOf(c)
    requires !q.Top?
    ensures SuccessorApart(l, node, r, p, c, next, q)
  {
    hide LinksIn;
  }

  /** The cursor at node and the one at its successor meet all that taking over relies on. */
  lemma SuccessorStart<N>(l: Tree<N>, node: N, r: Tree<N>, p: Path<N>, c: Tree<N>, next: N, q: Path<N>)
    requires l.Branch? && r.Branch? && Apart(Branch(l, node, r), p)
    requires Apart(Branch(Leaf, next, c), q) && Plug(Branch(Leaf, next, c), q) == Plug(Branch(l, node, r), p)
    requires Nodes(Branch(Leaf, next, c)) <= Nodes(r)
    requires q == InRight(p, l, node) || (q.InLeft? && q.node in Nodes(r))
    ensures SuccessorLinks(Plug(Branch(l, node, r), p), l.node, node, r.node, p, c, next, q)
    ensures SuccessorApart(l.node, node, r.node, p, c, next, q)
  {
    hide Distinct, DistinctPath, Plug, LinksIn, SuccessorLinks, SuccessorApart, Apart;
    SuccessorSetting(l, node, r, p, c, next, q);
    SuccessorLinksHold(l, node, r, p, c, next, q);
    CursorLinks(l, node, r, p);
    var t := Plug(Branch(l, node, r), p);
    SuccessorApartHolds(t, l.node, node, r.node, p, c, next, q, Nodes(l), Nodes(r));
  }

  /** If every other node has the links Replaced gives it, the heap is the tree without node. */
  lemma ReplacedLinked(t: Tree<Node>, node: Node, p: Path<Node>, c: Tree<Node>, next: Node, q: Path<Node>,
                       anchor: Node)
    requires Distinct(t) && node in Nodes(t) && node != next && node !in Nodes(c) && !q.Top?
    requires Apart(Branch(Leaf, next, c), q) && Plug(Branch(Leaf, next, c), q) == t
    requires anchor !in Nodes(t)
    requires forall n <- Nodes(t) :: n != node ==> NodeLinked(n, Replaced(t, node, next, c, q, n), anchor)
    requires RootOf(t) == Some(node) <==> p.Top?
    requires anchor.parent == if p.Top? then next else Ptr(RootOf(t))
    ensures Apart(c, RenamePath(q, node, next)) && Linked(Plug(c, RenamePath(q, node, next)), anchor)
    ensures Nodes(Plug(c, RenamePath(q, node, next))) == Nodes(t) - {node}
  {
    hide Distinct, DistinctPath, Apart, LinksIn, Plug, Replaced;
    var v := Branch(Leaf, next, c);
    ReplacedTree(t, node, v, c, next, q);
    var t2 := Plug(c, RenamePath(q, node, next));
    forall n <- Nodes(t2) ensures NodeLinked(n, LinksIn(t2, n, None), anchor) {
      ReplacedLinks(t, node, v, c, next, q, n);
    }
  }

  /** What taking over does to the in-order sequence. */
  lemma ReplacedSequence<N>(sub: Tree<N>, p: Path<N>, c: Tree<N>, next: N, q: Path<N>)
    requires sub.Branch? && Apart(sub, p) && Apart(Branch(Leaf, next, c), q) && !q.Top?
    requires Plug(Branch(Leaf, next, c), q) == Plug(sub, p)
    requires Before(q) == Before(p) + Inorder(sub.left) + [sub.node]
    requires Inorder(Branch(Leaf, next, c)) + After(q) == Inorder(sub.right) + After(p)
    requires sub.node != next && sub.node !in Nodes(c)
    ensures Inorder(Plug(c, RenamePath(q, sub.node, next)))
         == Before(p) + Inorder(sub.left) + Inorder(sub.right) + After(p)
  {
    hide Distinct, DistinctPath, Apart, Plug, Before, After, NoRepeats, SwapAll;
    var node, tree := sub.node, Plug(sub, p);
    PlugDistinct(sub, p);
    PlugInorder(sub, p);
    PlugNodes(sub, p);
    InorderNoRepeats(tree);
    ReplacedTree(tree, node, Branch(Leaf, next, c), c, next, q);
    PlugInorder(c, q);
    RenameInorder(Plug(c, q), node, next);
    SuccessorSequence(Inorder(c), After(q), next, Before(p), Inorder(sub.left), node, Inorder(sub.right), After(p));
  }
}
