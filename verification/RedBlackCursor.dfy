/** Walking a red-black tree: iterators and the count of black nodes on a way down. */
module RedBlackCursor {
  import opened Sequences
  import opened Trees
  import opened RedBlackNodes
  import opened RedBlackColors
  import opened RedBlackState
  import opened RedBlackUnlink

  /** Which child of its parent a node is, as the iterators read it. */
  lemma SideMeans(t: Tree<Node>, p: Path<Node>, anchor: Node)
    requires Apart(t, p) && Linked(Plug(t, p), anchor) && t.Branch?
    ensures t.node in Nodes(Plug(t, p)) && t.node != anchor
    ensures t.node.parent == ParentPtr(ParentOf(p), anchor)
    ensures t.node.left == Ptr(RootOf(t.left)) && t.node.right == Ptr(RootOf(t.right))
    ensures p.Top? ==> anchor.parent == t.node && t.node.right != anchor
    ensures !p.Top? ==> p.node != anchor && (p.node.right == t.node <==> p.InRight?)
    ensures !p.Top? ==> (p.node.left == t.node <==> p.InLeft?) && t.node.right != p.node
    ensures !p.Top? ==> t.node.parent.parent == ParentPtr(ParentOf(p.up), anchor) != t.node
  {
    hide DistinctPath, PathNodes, LinksIn, Plug, Nodes, Distinct;
    CursorPointers(t, p, anchor);
    RootIsTop(t, p);
    PlugNodes(t, p);
    if t.right.Branch? { StepDown(t, p); PlugNodes(t.right, InRight(p, t.left, t.node)); }
    if !p.Top? { ParentLinks(t, p); OtherChild(t, p); ParentApart(t, p); }
  }

  lemma ParentApart<N>(t: Tree<N>, p: Path<N>)
    requires Apart(t, p) && t.Branch? && !p.Top?
    ensures RootOf(t.right) != Some(p.node) && ParentOf(p.up) != Some(t.node)
  {
  }

  /** operator++ of an iterator at the i-th node; from the last node it leads to the anchor. */
  method RBTreeIncrement(start: Node, ghost t: Tree<Node>, anchor: Node, ghost nodes: set<Node>, ghost i: nat)
    returns (it: Node)
    requires RbTree(t, anchor, nodes) && i < |Inorder(t)| && Inorder(t)[i] == start
    ensures it == At(Inorder(t), i + 1, anchor)
  {
    hide Distinct, DistinctPath, Apart, Linked, LinksIn, Plug, Inorder, Before, After, RedBlack, RootBlack;
    ghost var s := Inorder(t);
    ghost var sub, p := CursorAt(t, start, i);
    CursorPointers(sub, p, anchor);
    it := start;
    if it.right != null {
      StepDown(sub, p);
      ghost var r, q;
      it, r, q := GetMinChild(it.right, sub.right, InRight(p, sub.left, start), anchor);
      EndNodes(Leaf, it, r);
      assert s[i + 1..][0] == it;
    } else {
      assert s[i + 1..] == After(p) by { EmptyInorder(sub.right); }
      SideMeans(sub, p, anchor);
      var temp := it.parent;
      ghost var over := false;
      while it == temp.right
        invariant Linked(t, anchor) && temp != null
        invariant s[i + 1..] == After(p)
        invariant over ==> it == anchor && temp == anchor.parent && temp != null
                           && temp.right != anchor && it.right == temp && After(p) == []
        invariant !over ==> Apart(sub, p) && Plug(sub, p) == t && sub.Branch? && sub.node == it && temp == it.parent
        invariant !over ==> temp == ParentPtr(ParentOf(p), anchor) && it.right != temp
        invariant !over && !p.Top? ==> (temp.right == it <==> p.InRight?)
        invariant !over && p.Top? ==> anchor.parent == it
        decreases !over, p
      {
        it := temp;
        temp := temp.parent;
        AscendAfter(p);
        if p.Top? {
          over := true;
        } else {
          Ascend(sub, p);
          sub, p := Branch(p.left, p.node, sub), p.up;
          SideMeans(sub, p, anchor);
        }
      }
      AscendAfter(p);
      if it.right != temp {
        it := temp;
      }
    }
  }

  /** operator-- of an iterator at position i; the anchor, end(), is told from the nodes by its
      colour, which is red. */
  method RBTreeDecrement(start: Node, ghost t: Tree<Node>, anchor: Node, ghost nodes: set<Node>, ghost i: nat)
    returns (it: Node)
    requires RbTree(t, anchor, nodes) && anchor.color == Red
    requires 0 < i <= |Inorder(t)| && At(Inorder(t), i, anchor) == start
    ensures it == Inorder(t)[i - 1]
  {
    hide Distinct, DistinctPath, Apart, Linked, LinksIn, Plug, Inorder, Before, After, RedBlack, BlackHeight;
    ghost var s := Inorder(t);
    EndsLinked(t, anchor, nodes);
    ghost var sub, p := t, Top;
    if i < |s| {
      sub, p := CursorAt(t, start, i);
      SideMeans(sub, p, anchor);
    }
    if start.parent.parent == start && start.color == Red {
      return start.right;
    } else if start.left != null {
      StepDown(sub, p);
      it := start.left;
      ghost var l, q;
      it, l, q := GetMaxChild(start.left, sub.left, InLeft(p, start, sub.right), anchor);
      EndNodes(l, it, Leaf);
      assert s[..i][i - 1] == it;
    } else {
      assert s[..i] == Before(p) by { EmptyInorder(sub.left); }
      it := start;
      var temp := it.parent;
      AscendAfter(p);
      while it == temp.left
        invariant Linked(t, anchor) && Apart(sub, p) && Plug(sub, p) == t && sub.Branch? && sub.node == it
        invariant s[..i] == Before(p) && !p.Top? && temp == p.node && (temp.left == it <==> p.InLeft?)
        decreases p
      {
        it := temp;
        temp := temp.parent;
        AscendAfter(p);
        Ascend(sub, p);
        sub, p := Branch(sub, p.node, p.right), p.up;
        AscendAfter(p);
        SideMeans(sub, p, anchor);
      }
      AscendAfter(p);
      it := temp;
    }
  }

  lemma EndsLinked(t: Tree<Node>, anchor: Node, nodes: set<Node>)
    requires RbTree(t, anchor, nodes) && Inorder(t) != []
    ensures anchor !in nodes && anchor.parent != null && anchor.parent in nodes
    ensures anchor.parent.parent == anchor && anchor.parent.color == Black
    ensures anchor.right == Inorder(t)[|Inorder(t)| - 1]
  {
    hide RedBlack;
    assert Apart(t, Top) && Plug(t, Top) == t;
    if t.Leaf? { EmptyInorder(t); }
    CursorPointers(t, Top, anchor);
  }

  // Black counts.

  /** Climbing from the subtree t meets top. */
  ghost predicate Meets<N>(t: Tree<N>, p: Path<N>, top: N)
    requires t.Branch?
    decreases p
  {
    t.node == top || (!p.Top? && Meets(Above(t, p), p.up, top))
  }

  /** The subtree of top. */
  ghost function TopTree<N>(t: Tree<N>, p: Path<N>, top: N): (s: Tree<N>)
    requires t.Branch? && Meets(t, p, top)
    ensures s.Branch? && s.node == top
    decreases p
  {
    if t.node == top then t else TopTree(Above(t, p), p.up, top)
  }

  /** The black nodes from the root of t up to top. */
  ghost function BlacksUpTo<N>(t: Tree<N>, p: Path<N>, top: N, b: set<N>): nat
    requires t.Branch? && Meets(t, p, top)
    decreases p
  {
    Weight(t.node, b) + if t.node == top then 0 else BlacksUpTo(Above(t, p), p.up, top, b)
  }

  /** The root of the whole tree is met from everywhere. */
  lemma {:induction false} RootMet<N>(t: Tree<N>, p: Path<N>, root: N)
    requires Apart(t, p) && t.Branch? && RootOf(Plug(t, p)) == Some(root)
    ensures Meets(t, p, root) && TopTree(t, p, root) == Plug(t, p)
    decreases p
  {
    hide Distinct, DistinctPath, Apart, PathNodes, Plug;
    RootIsTop(t, p);
    if !p.Top? {
      Ascend(t, p);
      RootMet(Above(t, p), p.up, root);
    } else {
      PlugTop(t, p);
    }
  }

  /** From a node with a missing child up to any node above, the black nodes are as many as the
      subtree of that node is high in black nodes, wherever the lower node stands. */
  lemma {:induction false} CountsAgree<N>(t: Tree<N>, p: Path<N>, top: N, b: set<N>)
    requires t.Branch? && Meets(t, p, top) && PathRedBlack(p, b, BlackHeight(t, b))
    ensures BlackHeight(TopTree(t, p, top), b) + Weight(t.node, b) == BlackHeight(t, b) + BlacksUpTo(t, p, top, b)
    decreases p
  {
    if t.node != top {
      CountsAgree(Above(t, p), p.up, top, b);
    }
  }

  lemma LeafCount<N>(t: Tree<N>, p: Path<N>, top: N, b: set<N>)
    requires t.Branch? && (t.left.Leaf? || t.right.Leaf?) && Meets(t, p, top)
    requires RedBlack(Plug(t, p), b) && RootBlack(Plug(t, p), b)
    ensures BlacksUpTo(t, p, top, b) == BlackHeight(TopTree(t, p, top), b)
  {
    RedBlackPlug(t, p, b);
    CountsAgree(t, p, top, b);
  }

  /** The black nodes from bottom, the i-th node, up to a node top above it; none from a null bottom. */
  method RBTreeGetBlackCount(top: Node, bottom: Node?, ghost t: Tree<Node>, ghost anchor: Node,
                             ghost nodes: set<Node>, ghost sub0: Tree<Node>, ghost p0: Path<Node>)
    returns (count: nat)
    requires RbTree(t, anchor, nodes)
    requires bottom != null ==>
      Apart(sub0, p0) && Plug(sub0, p0) == t && sub0.Branch? && sub0.node == bottom && Meets(sub0, p0, top)
    ensures bottom == null ==> count == 0
    ensures bottom != null ==> count == BlacksUpTo(sub0, p0, top, Blacks(nodes))
    ensures bottom != null && (bottom.left == null || bottom.right == null) ==>
      count == BlackHeight(TopTree(sub0, p0, top), Blacks(nodes))
  {
    hide Distinct, DistinctPath, Apart, Linked, LinksIn, Plug, RedBlack, BlackHeight, TopTree;
    ghost var b := Blacks(nodes);
    count := 0;
    var node: Node? := bottom;
    if bottom == null {
      return;
    }
    ghost var sub, p := sub0, p0;
    SideMeans(sub, p, anchor);
    if bottom.left == null || bottom.right == null {
      LeafCount(sub, p, top, b);
    }
    AnchorIn(t, anchor, nodes);
    while node != null
      invariant Linked(t, anchor) && Apart(sub, p) && Plug(sub, p) == t && sub.Branch? && sub.node == node
      invariant node != null && node in nodes && node.parent == ParentPtr(ParentOf(p), anchor)
      invariant Meets(sub, p, top) && count + BlacksUpTo(sub, p, top, b) == BlacksUpTo(sub0, p0, top, b)
      decreases p
    {
      if node.color == Black {
        count := count + 1;
      }
      if node == top {
        break;
      }
      node := node.parent;
      Ascend(sub, p);
      sub, p := Above(sub, p), p.up;
      SideMeans(sub, p, anchor);
    }
  }

  lemma AnchorIn(t: Tree<Node>, anchor: Node, nodes: set<Node>)
    requires RbTree(t, anchor, nodes)
    ensures anchor.parent == Ptr(RootOf(t)) && nodes == Nodes(t)
  {
  }

  ghost function PowerOfTwo(n: nat): nat {
    if n == 0 then 1 else 2 * PowerOfTwo(n - 1)
  }

  /** A red-black tree is no higher than twice its black height, and has at least as many nodes as a
      full tree of that black height: the height is at most twice the logarithm of the size. */
  lemma {:induction false} HeightBound<N>(t: Tree<N>, b: set<N>)
    requires RedBlack(t, b)
    ensures Height(t) <= 2 * BlackHeight(t, b) + (if RootBlack(t, b) then 0 else 1)
    ensures PowerOfTwo(BlackHeight(t, b)) <= |Inorder(t)| + 1
  {
    match t
    case Leaf =>
    case Branch(l, n, r) => HeightBound(l, b); HeightBound(r, b);
  }
}
