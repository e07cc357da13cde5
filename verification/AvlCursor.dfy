/** Iterators of an AVL tree: a cursor is a node, the end node standing for end(). */
module AvlCursor {
  import opened Sequences
  import opened Trees
  import opened AvlNodes

  method GotoTreeMin<T>(start: Node<T>, ghost sub: Tree<Node<T>>, ghost p: Path<Node<T>>, ghost end: Node<T>)
    returns (it: Node<T>, ghost r: Tree<Node<T>>, ghost q: Path<Node<T>>)
    requires Apart(sub, p) && Linked(Plug(sub, p), end) && sub.Branch? && sub.node == start
    ensures Apart(Branch(Leaf, it, r), q) && Plug(Branch(Leaf, it, r), q) == Plug(sub, p)
    ensures Before(q) == Before(p) && Inorder(Branch(Leaf, it, r)) + After(q) == Inorder(sub) + After(p)
  {
    hide Apart, Linked, LinksIn, Plug, Inorder, Before, After;
    ghost var c, t := sub, Plug(sub, p);
    it, q := start, p;
    RootPointers(c, q, end);
    while it.left != null
      invariant Linked(t, end)
      invariant Apart(c, q) && Plug(c, q) == t && c.Branch? && c.node == it
      invariant it.left == Ptr(RootOf(c.left))
      invariant Before(q) == Before(p) && Inorder(c) + After(q) == Inorder(sub) + After(p)
      decreases c
    {
      it := it.left;
      StepDown(c, q);
      c, q := c.left, InLeft(q, c.node, c.right);
      RootPointers(c, q, end);
    }
    r := c.right;
  }

  method GotoTreeMax<T>(start: Node<T>, ghost sub: Tree<Node<T>>, ghost p: Path<Node<T>>, ghost end: Node<T>)
    returns (it: Node<T>, ghost l: Tree<Node<T>>, ghost q: Path<Node<T>>)
    requires Apart(sub, p) && Linked(Plug(sub, p), end) && sub.Branch? && sub.node == start
    ensures Apart(Branch(l, it, Leaf), q) && Plug(Branch(l, it, Leaf), q) == Plug(sub, p)
    ensures After(q) == After(p) && Before(q) + Inorder(Branch(l, it, Leaf)) == Before(p) + Inorder(sub)
    ensures q == p || (q.InRight? && q.node in Nodes(sub))
    ensures Nodes(Branch(l, it, Leaf)) <= Nodes(sub) && Sides(q) <= Sides(p) + Nodes(sub)
  {
    hide Apart, Linked, LinksIn, Plug, Inorder, Before, After;
    ghost var c, t := sub, Plug(sub, p);
    it, q := start, p;
    RootPointers(c, q, end);
    while it.right != null
      invariant Linked(t, end)
      invariant Apart(c, q) && Plug(c, q) == t && c.Branch? && c.node == it
      invariant it.right == Ptr(RootOf(c.right))
      invariant After(q) == After(p) && Before(q) + Inorder(c) == Before(p) + Inorder(sub)
      invariant q == p || (q.InRight? && q.node in Nodes(sub))
      invariant Nodes(c) <= Nodes(sub) && Sides(q) <= Sides(p) + Nodes(sub)
      decreases c
    {
      it := it.right;
      StepDown(c, q);
      c, q := c.right, InRight(q, c.left, c.node);
      RootPointers(c, q, end);
    }
    l := c.left;
  }

  /** Whether n is a left child can be read off the path. */
  lemma IsLeftChildMeans<T>(t: Tree<Node<T>>, p: Path<Node<T>>, end: Node<T>)
    requires Apart(t, p) && Linked(Plug(t, p), end) && t.Branch?
    ensures t.node in Nodes(Plug(t, p)) && t.node.parent == ParentPtr(ParentOf(p), end)
    ensures t.node.IsLeftChild() <==> !p.InRight?
  {
    RootPointers(t, p, end);
    PlugRoot(t, p, t);
    if !p.Top? { ParentLinks(t, p); }
  }

  /** operator++ */
  method Next<T>(start: Node<T>, ghost t: Tree<Node<T>>, ghost end: Node<T>, ghost i: nat)
    returns (it: Node<T>)
    requires Linked(t, end) && Distinct(t)
    requires i < |Inorder(t)| && Inorder(t)[i] == start
    ensures it == At(Inorder(t), i + 1, end)
  {
    hide Apart, Linked, LinksIn, Plug, Inorder, Before, After;
    ghost var sub, p := CursorAt(t, start, i);
    RootPointers(sub, p, end);
    StepDown(sub, p);
    it := start;
    if it.right != null {
      ghost var r, q;
      it, r, q := GotoTreeMin(it.right, sub.right, InRight(p, sub.left, start), end);
      EndNodes(Leaf, it, r);
      assert Inorder(t)[i + 1..][0] == it;
    } else {
      assert Inorder(t)[i + 1..] == After(p) by { EmptyInorder(sub.right); }
      IsLeftChildMeans(sub, p, end);
      while !it.IsLeftChild()
        invariant Linked(t, end)
        invariant Apart(sub, p) && Plug(sub, p) == t && sub.Branch? && sub.node == it
        invariant it.parent == ParentPtr(ParentOf(p), end) && (it.IsLeftChild() <==> !p.InRight?)
        invariant Inorder(t)[i + 1..] == After(p)
        decreases p
      {
        it := it.parent;
        Ascend(sub, p);
        AscendAfter(p);
        sub, p := Branch(p.left, p.node, sub), p.up;
        IsLeftChildMeans(sub, p, end);
      }
      it := it.parent;
      AscendAfter(p);
    }
  }

  /** operator--, from the end node too */
  method Prev<T>(start: Node<T>, ghost t: Tree<Node<T>>, ghost end: Node<T>, ghost i: nat)
    returns (it: Node<T>)
    requires Linked(t, end) && Distinct(t)
    requires 0 < i <= |Inorder(t)| && At(Inorder(t), i, end) == start
    ensures it == Inorder(t)[i - 1]
  {
    hide Apart, Linked, LinksIn, Plug, Inorder, Before, After;
    it := start;
    ghost var sub, p := HoleBefore(t, start, i, end);
    if it.left != null {
      ghost var l, q;
      it, l, q := GotoTreeMax(it.left, sub, p, end);
      EndNodes(l, it, Leaf);
      assert Inorder(t)[..i][i - 1] == it;
    } else {
      assert Inorder(t)[..i] == Before(p) by { EmptyInorder(sub); }
      AscendAfter(p);
      AtTop(t, end);
      Ascend(sub, p);
      sub, p := Branch(sub, p.node, p.right), p.up;
      IsLeftChildMeans(sub, p, end);
      while it.IsLeftChild()
        invariant Linked(t, end)
        invariant Apart(sub, p) && Plug(sub, p) == t && sub.Branch? && sub.node == it
        invariant it.parent == ParentPtr(ParentOf(p), end) && (it.IsLeftChild() <==> !p.InRight?)
        invariant Inorder(t)[..i] == Before(p)
        decreases p
      {
        AscendAfter(p);
        it := it.parent;
        Ascend(sub, p);
        sub, p := Branch(sub, p.node, p.right), p.up;
        IsLeftChildMeans(sub, p, end);
      }
      it := it.parent;
      AscendAfter(p);
    }
  }

  /** The hole in front of position i of the in-order sequence, below the node pos that stands there. */
  lemma HoleBefore<T>(tree: Tree<Node<T>>, pos: Node<T>, i: nat, end: Node<T>)
    returns (t: Tree<Node<T>>, p: Path<Node<T>>)
    requires Distinct(tree) && Linked(tree, end) && i <= |Inorder(tree)| && pos == At(Inorder(tree), i, end)
    ensures Apart(t, p) && Plug(t, p) == tree && !p.InRight? && pos == ParentPtr(ParentOf(p), end)
    ensures pos == end || pos in Nodes(tree)
    ensures pos.left == Ptr(RootOf(t))
    ensures Before(p) + Inorder(t) == Inorder(tree)[..i] && After(p) == Inorder(tree)[i..]
  {
    hide Distinct, DistinctPath, Apart, Plug, LinksIn, Inorder, Before, After, Linked;
    if i < |Inorder(tree)| {
      var sub;
      sub, p := CursorAt(tree, pos, i);
      RootPointers(sub, p, end);
      StepDown(sub, p);
      HoleFacts(sub, p);
      assert Inorder(tree)[i..] == [pos] + Inorder(tree)[i + 1..];
      t, p := sub.left, InLeft(p, pos, sub.right);
    } else {
      t, p := tree, Top;
      AtTop(tree, end);
      assert Inorder(tree)[..i] == Inorder(tree);
    }
  }

  lemma AtTop<T>(tree: Tree<Node<T>>, end: Node<T>)
    requires Distinct(tree) && Linked(tree, end)
    ensures Apart(tree, Top) && Plug(tree, Top) == tree && end.left == Ptr(RootOf(tree))
    ensures Before<Node<T>>(Top) == [] && After<Node<T>>(Top) == []
  {
  }
}
