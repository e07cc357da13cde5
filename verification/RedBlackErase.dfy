/** Erasing a node from a red-black tree. */
module RedBlackErase {
  import opened Sequences
  import opened Trees
  import opened RedBlackNodes
  import opened RedBlackColors
  import opened RedBlackState
  import opened RedBlackUnlink
  import opened RedBlackFix
  import Replacement

  // The unlinked tree.

  /** The heap is the tree with the subtree c in the hole of p, and its sequence is rest. */
  ghost predicate Unlinked(c: Tree<Node>, p: Path<Node>, anchor: Node, nodes: set<Node>, rest: seq<Node>)
    reads anchor, Nodes(Plug(c, p))
  {
    Apart(c, p) && Linked(Plug(c, p), anchor) && nodes == Nodes(Plug(c, p)) && Inorder(Plug(c, p)) == rest
  }

  ghost function Rest<N>(sub: Tree<N>, p: Path<N>): seq<N>
    requires sub.Branch?
  {
    Before(p) + Inorder(sub.left) + Inorder(sub.right) + After(p)
  }

  method UnlinkLower(node: Node, child: Node?, anchor: Node, ghost sub: Tree<Node>, ghost p: Path<Node>,
                     ghost nodes: set<Node>)
    returns (childParent: Node, ghost c: Tree<Node>)
    requires sub.Branch? && sub.node == node && (sub.left.Leaf? || sub.right.Leaf?)
    requires Apart(sub, p) && Linked(Plug(sub, p), anchor) && nodes == Nodes(Plug(sub, p))
    requires child == if node.left == null then node.right else node.left
    modifies nodes`left, nodes`right, nodes`parent, anchor`parent
    ensures c == if sub.left.Leaf? then sub.right else sub.left
    ensures Unlinked(c, p, anchor, nodes - {node}, Rest(sub, p))
    ensures child == Ptr(RootOf(c)) && childParent == node.parent == ParentPtr(ParentOf(p), anchor)
    ensures node.left == Ptr(RootOf(sub.left)) && node.right == Ptr(RootOf(sub.right))
  {
    hide Distinct, DistinctPath, Apart, Plug, LinksIn, Linked, PathNodes, Nodes, Spliced, Spliceable, Inorder,
         Before, After, NodeLinked;
    c := if sub.left.Leaf? then sub.right else sub.left;
    assert sub == Branch(sub.left, node, sub.right);
    CursorPointers(sub, p, anchor);
    AnchorOutside(Plug(sub, p), anchor);
    childParent := node.parent;
    SpliceStart(c, sub.left, node, sub.right, p, anchor);
    UnlinkOnlyChild(node, child, anchor, Plug(sub, p), c, p, nodes);
    SplicedLinked(c, sub.left, node, sub.right, p, anchor);
    PlugInorder(c, p);
    EmptyInorder(if sub.left.Leaf? then sub.left else sub.right);
  }

  lemma AnchorOutside(t: Tree<Node>, anchor: Node)
    requires Linked(t, anchor)
    ensures anchor !in Nodes(t)
  {
  }

  method UnlinkInner(node: Node, next: Node, child: Node?, anchor: Node, ghost sub: Tree<Node>, ghost p: Path<Node>,
                     ghost c: Tree<Node>, ghost q: Path<Node>, ghost nodes: set<Node>)
    returns (childParent: Node)
    requires sub.Branch? && sub.node == node && sub.left.Branch? && sub.right.Branch?
    requires Apart(sub, p) && Linked(Plug(sub, p), anchor) && nodes == Nodes(Plug(sub, p))
    requires SuccessorAt(sub, p, next, c, q) && child == Ptr(RootOf(c))
    modifies nodes`left, nodes`right, nodes`parent, anchor`parent
    ensures Unlinked(c, RenamePath(q, node, next), anchor, nodes - {node}, Rest(sub, p))
    ensures childParent == ParentPtr(ParentOf(RenamePath(q, node, next)), anchor)
  {
    hide Distinct, DistinctPath, Apart, Plug, LinksIn, PathNodes, Replacement.Replaced, SuccessorLinks, Inorder,
         Before, After;
    ghost var l, r, t := sub.left, sub.right, Plug(sub, p);
    assert sub == Branch(l, node, r);
    SuccessorStart(l, node, r, p, c, next, q);
    SuccessorSetting(l, node, r, p, c, next, q);
    PlugDistinct(sub, p);
    RootIsTop(sub, p);
    CursorPointers(sub, p, anchor);
    ReplacedSequence(sub, p, c, next, q);
    childParent := TakeOverLinks(node, next, child, anchor, t, l.node, r.node, p, c, q, nodes);
    ReplacedLinked(t, node, p, c, next, q, anchor);
  }

  /** next is the successor of the root of sub: the leftmost node of its right subtree. */
  ghost predicate SuccessorAt<N>(sub: Tree<N>, p: Path<N>, next: N, c: Tree<N>, q: Path<N>)
    requires sub.Branch?
  {
    && Apart(Branch(Leaf, next, c), q) && Plug(Branch(Leaf, next, c), q) == Plug(sub, p)
    && Before(q) == Before(p) + Inorder(sub.left) + [sub.node]
    && Inorder(Branch(Leaf, next, c)) + After(q) == Inorder(sub.right) + After(p)
    && (q == InRight(p, sub.left, sub.node) || (q.InLeft? && q.node in Nodes(sub.right)))
    && Nodes(Branch(Leaf, next, c)) <= Nodes(sub.right)
  }

  // The ends of the sequence.

  /** sub, in the hole of p, has the i-th node of s at its root; anchor knew both ends of s. */
  ghost predicate Placed(sub: Tree<Node>, p: Path<Node>, s: seq<Node>, i: nat)
    requires sub.Branch?
  {
    && i < |s| && s[i] == sub.node && NoRepeats(s)
    && s[..i] == Before(p) + Inorder(sub.left) && s[i + 1..] == Inorder(sub.right) + After(p)
  }

  lemma RestIs(sub: Tree<Node>, p: Path<Node>, s: seq<Node>, i: nat, anchor: Node)
    requires sub.Branch? && Placed(sub, p, s, i)
    ensures i < |s| && s[i] == sub.node
    ensures Rest(sub, p) == s[..i] + s[i + 1..]
    ensures s[i] == First(s, anchor) <==> i == 0
    ensures s[i] == Last(s, anchor) <==> i == |s| - 1
    ensures i != 0 ==> First(Rest(sub, p), anchor) == First(s, anchor)
    ensures i != |s| - 1 ==> Last(Rest(sub, p), anchor) == Last(s, anchor)
    ensures i == 0 ==> sub.left.Leaf? && Before(p) == [] && Rest(sub, p) == Inorder(sub.right) + After(p)
    ensures i == |s| - 1 ==> sub.right.Leaf? && After(p) == [] && Rest(sub, p) == Before(p) + Inorder(sub.left)
  {
    assert Rest(sub, p) == (Before(p) + Inorder(sub.left)) + (Inorder(sub.right) + After(p));
    if sub.left.Branch? { NonEmptyInorder(sub.left); }
    if sub.right.Branch? { NonEmptyInorder(sub.right); }
  }

  /** The parent of the hole is next to it in order, or else one of the ends is. */
  lemma ParentAtEnd(p: Path<Node>, anchor: Node)
    ensures Before(p) == [] ==> First(After(p), anchor) == ParentPtr(ParentOf(p), anchor)
    ensures After(p) == [] ==> Last(Before(p), anchor) == ParentPtr(ParentOf(p), anchor)
  {
    AscendAfter(p);
  }

  method UpdateLeftmost(node: Node, child: Node?, anchor: Node, ghost sub: Tree<Node>, ghost p: Path<Node>,
                        ghost c: Tree<Node>, ghost nodes: set<Node>, ghost s: seq<Node>, ghost i: nat)
    requires sub.Branch? && sub.node == node && Placed(sub, p, s, i) && anchor.left == First(s, anchor)
    requires c == (if sub.left.Leaf? then sub.right else sub.left) && child == Ptr(RootOf(c))
    requires Unlinked(c, p, anchor, nodes, Rest(sub, p))
    requires node.right == Ptr(RootOf(sub.right)) && node.parent == ParentPtr(ParentOf(p), anchor)
    modifies anchor`left
    ensures Unlinked(c, p, anchor, nodes, Rest(sub, p)) && anchor.left == First(Rest(sub, p), anchor)
  {
    hide Distinct, DistinctPath, Apart, Plug, LinksIn, Inorder, Before, After, Rest, NodeLinked, Placed;
    RestIs(sub, p, s, i, anchor);
    if node == anchor.left {
      if node.right != null && child != null {
        ghost var r, q;
        anchor.left, r, q := GetMinChild(child, c, p, anchor);
        EndNodes(Leaf, anchor.left, r);
      } else {
        anchor.left := node.parent;
        EmptyInorder(sub.right);
        ParentAtEnd(p, anchor);
      }
    }
  }

  method UpdateRightmost(node: Node, child: Node?, anchor: Node, ghost sub: Tree<Node>, ghost p: Path<Node>,
                         ghost c: Tree<Node>, ghost nodes: set<Node>, ghost s: seq<Node>, ghost i: nat)
    requires sub.Branch? && sub.node == node && Placed(sub, p, s, i) && anchor.right == Last(s, anchor)
    requires c == (if sub.left.Leaf? then sub.right else sub.left) && child == Ptr(RootOf(c))
    requires Unlinked(c, p, anchor, nodes, Rest(sub, p))
    requires node.left == Ptr(RootOf(sub.left)) && node.parent == ParentPtr(ParentOf(p), anchor)
    modifies anchor`right
    ensures Unlinked(c, p, anchor, nodes, Rest(sub, p)) && anchor.right == Last(Rest(sub, p), anchor)
  {
    hide Distinct, DistinctPath, Apart, Plug, LinksIn, Inorder, Before, After, Rest, NodeLinked, Placed;
    RestIs(sub, p, s, i, anchor);
    if node == anchor.right {
      if node.left != null && child != null {
        ghost var l, q;
        anchor.right, l, q := GetMaxChild(child, c, p, anchor);
        EndNodes(l, anchor.right, Leaf);
      } else {
        anchor.right := node.parent;
        EmptyInorder(sub.left);
        ParentAtEnd(p, anchor);
      }
    }
  }

  // The fix-up.

  ghost function Rounds(t: Tree<Node>, p: Path<Node>, b: set<Node>): nat {
    if RootBlack(t, b) then 1 + Depth(p) else 0
  }

  ghost function Depth<N>(p: Path<N>): nat {
    if p.Top? then 0 else 1 + Depth(p.up)
  }

  /** What the loop condition reads. */
  lemma FixGuard(child: Node?, t: Tree<Node>, p: Path<Node>, b: set<Node>, anchor: Node, nodes: set<Node>,
                 all: seq<Node>)
    requires Fixing(t, p, b, anchor, nodes, all) && child == Ptr(RootOf(t))
    ensures child == anchor.parent <==> p.Top?
    ensures BlackOrNull(child) <==> RootBlack(t, b)
    ensures t.Branch? ==> child in nodes
  {
    hide Distinct, DistinctPath, Apart, Inorder, RedBlack, PathRedBlack, BlackHeight, LinksIn, Short;
    PlugNodes(t, p);
    if t.Branch? { RootIsTop(t, p); } else { LeafRoot(t, p); }
  }

  lemma LeafRoot<N>(t: Tree<N>, p: Path<N>)
    requires t.Leaf?
    ensures RootOf(Plug(t, p)).None? <==> p.Top?
  {
    PlugNodes(t, p);
  }

  /** Painting the root of the short subtree black ends the fix-up, at the top or at a red node. */
  lemma PaintedSound(t: Tree<Node>, p: Path<Node>, b: set<Node>)
    requires Apart(t, p) && Short(t, p, b) && (p.Top? || !RootBlack(t, b))
    ensures var c := if t.Leaf? then b else b + {t.node};
      RedBlack(Plug(t, p), c) && RootBlack(Plug(t, p), c)
  {
    if t.Branch? {
      var c := b + {t.node};
      RootApart(t);
      SameColors(t.left, b, c);
      SameColors(t.right, b, c);
      if p.Top? {
        assert Plug(t, p) == t;
      } else {
        SamePathColors(p, b, c, BlackHeight(t, b) + 1);
        RedBlackPlug(t, p, c);
      }
    }
  }

  method FixUp(child0: Node?, childParent0: Node, anchor: Node, ghost t0: Tree<Node>, ghost p0: Path<Node>,
               ghost b0: set<Node>, ghost nodes: set<Node>, ghost all: seq<Node>)
    returns (ghost w: Tree<Node>, ghost b: set<Node>)
    requires Fixing(t0, p0, b0, anchor, nodes, all)
    requires child0 == Ptr(RootOf(t0)) && childParent0 == ParentPtr(ParentOf(p0), anchor)
    modifies nodes, anchor`parent
    ensures Fixed(w, b, anchor, nodes, all)
  {
    hide Distinct, DistinctPath, Apart, Plug, Inorder, RedBlack, PathRedBlack, BlackHeight, LinksIn, Linked, Short,
         Colored;
    var child, childParent, done := child0, childParent0, false;
    ghost var t, p := t0, p0;
    b := b0;
    w := t;
    FixGuard(child, t, p, b, anchor, nodes, all);
    while child != anchor.parent && BlackOrNull(child)
      invariant Fixing(t, p, b, anchor, nodes, all) && !done
      invariant child == Ptr(RootOf(t)) && childParent == ParentPtr(ParentOf(p), anchor)
      invariant child == anchor.parent <==> p.Top?
      invariant BlackOrNull(child) <==> RootBlack(t, b)
      invariant child != null ==> child in nodes
      decreases Rounds(t, p, b)
    {
      SiblingFacts(t, p, b, anchor, nodes, all);
      var parent := childParent;
      ghost var q := p;
      if child == childParent.left {
        done, childParent, w, p, b := StepRight(parent, anchor, t, p, b, nodes, all);
      } else {
        done, childParent, w, p, b := StepLeft(parent, anchor, t, p, b, nodes, all);
      }
      if done {
        break;
      }
      t := w;
      child := parent;
      FixGuard(child, t, p, b, anchor, nodes, all);
    }
    if !done {
      w := Plug(t, p);
      PlugDistinct(t, p);
      PaintedSound(t, p, b);
    }
    PaintChild(child, w, b, anchor, nodes);
    if child != null {
      assert done ==> b + {child} == b;
      b := b + {child};
    }
  }

  method PaintChild(child: Node?, ghost w: Tree<Node>, ghost b: set<Node>, ghost anchor: Node, ghost nodes: set<Node>)
    requires Linked(w, anchor) && nodes == Nodes(w) && Colored(nodes, b) && (child != null ==> child in nodes)
    modifies nodes`color
    ensures Linked(w, anchor) && Colored(nodes, if child == null then b else b + {child})
  {
    if child != null {
      child.color := Black;
    }
  }

  // The whole erasure.

  /** The state between unlinking and fix-up. */
  ghost predicate Detached(black: bool, c: Tree<Node>, q: Path<Node>, b: set<Node>, anchor: Node, nodes: set<Node>,
                           rest: seq<Node>)
    reads anchor, nodes, Nodes(Plug(c, q))
  {
    && Standing(c, q, b, anchor, nodes, rest) && Vacated(c, q, black, b)
    && anchor.left == First(rest, anchor) && anchor.right == Last(rest, anchor)
  }

  /** A node with at most one child. */
  method DetachLower(node: Node, child: Node?, anchor: Node, ghost sub: Tree<Node>, ghost p: Path<Node>,
                     ghost i: nat, ghost nodes: set<Node>)
    returns (childParent: Node, ghost c: Tree<Node>, ghost b: set<Node>)
    requires sub.Branch? && sub.node == node && (sub.left.Leaf? || sub.right.Leaf?)
    requires Apart(sub, p) && RbTree(Plug(sub, p), anchor, nodes) && Placed(sub, p, Inorder(Plug(sub, p)), i)
    requires child == if node.left == null then node.right else node.left
    modifies nodes`left, nodes`right, nodes`parent, anchor`left, anchor`right, anchor`parent
    ensures Detached(node.color == Black, c, p, b, anchor, nodes - {node}, Rest(sub, p))
    ensures child == Ptr(RootOf(c)) && childParent == ParentPtr(ParentOf(p), anchor)
  {
    hide Distinct, DistinctPath, Apart, Plug, Inorder, LinksIn, Linked, RedBlack, RootBlack, Rest, Placed, Vacated,
         Nodes, First, Last;
    b := Blacks(nodes);
    ghost var s := Inorder(Plug(sub, p));
    AnchorOutside(Plug(sub, p), anchor);
    assert node in nodes by { PlugNodes(sub, p); RootIn(sub); }
    childParent, c := UnlinkLower(node, child, anchor, sub, p, nodes);
    assert sub == Branch(sub.left, node, sub.right);
    VacatedByChild(c, sub.left, node, sub.right, p, b);
    UpdateLeftmost(node, child, anchor, sub, p, c, nodes - {node}, s, i);
    UpdateRightmost(node, child, anchor, sub, p, c, nodes - {node}, s, i);
  }

  lemma RootIn<N>(t: Tree<N>)
    requires t.Branch?
    ensures t.node in Nodes(t)
  {
  }

  /** A node with two children: its successor takes its place and its colour. */
  method DetachInner(node: Node, next: Node, child: Node?, anchor: Node, ghost sub: Tree<Node>, ghost p: Path<Node>,
                     ghost c: Tree<Node>, ghost q0: Path<Node>, ghost i: nat, ghost nodes: set<Node>)
    returns (childParent: Node, ghost q: Path<Node>, ghost b: set<Node>)
    requires sub.Branch? && sub.node == node && sub.left.Branch? && sub.right.Branch?
    requires Apart(sub, p) && RbTree(Plug(sub, p), anchor, nodes) && Placed(sub, p, Inorder(Plug(sub, p)), i)
    requires SuccessorAt(sub, p, next, c, q0) && child == Ptr(RootOf(c))
    modifies nodes, anchor`parent
    ensures Detached(node.color == Black, c, q, b, anchor, nodes - {node}, Rest(sub, p))
    ensures child == Ptr(RootOf(c)) && childParent == ParentPtr(ParentOf(q), anchor)
  {
    hide Distinct, DistinctPath, Apart, Plug, Inorder, LinksIn, Linked, RedBlack, RootBlack, Rest, Placed, Vacated,
         Nodes, First, Last, SuccessorAt;
    ghost var b0, w := Blacks(nodes), Plug(sub, p);
    AnchorOutside(w, anchor);
    SuccessorNodes(sub, p, next, c, q0, nodes);
    NotAtEnd(sub, p, Inorder(w), i, anchor);
    childParent := UnlinkInner(node, next, child, anchor, sub, p, c, q0, nodes);
    q := RenamePath(q0, node, next);
    b := if node in b0 then b0 + {next} else b0 - {next};
    SwapColors(next, node, Plug(c, q), b0, b, anchor, nodes);
    assert Plug(Branch(Leaf, next, c), q0) == w by { SuccessorCursor(sub, p, next, c, q0); }
    SuccessorCursor(sub, p, next, c, q0);
    VacatedBySuccessor(Branch(Leaf, next, c), c, next, q0, node, b0, b);
  }

  lemma SuccessorCursor<N>(sub: Tree<N>, p: Path<N>, next: N, c: Tree<N>, q: Path<N>)
    requires sub.Branch? && SuccessorAt(sub, p, next, c, q)
    ensures Apart(Branch(Leaf, next, c), q) && Plug(Branch(Leaf, next, c), q) == Plug(sub, p)
  {
  }

  lemma SuccessorNodes<N>(sub: Tree<N>, p: Path<N>, next: N, c: Tree<N>, q: Path<N>, nodes: set<N>)
    requires sub.Branch? && sub.left.Branch? && sub.right.Branch? && SuccessorAt(sub, p, next, c, q)
    requires Apart(sub, p) && nodes == Nodes(Plug(sub, p))
    ensures next in nodes && sub.node in nodes && next != sub.node && sub.node !in Nodes(c)
  {
    hide Distinct, DistinctPath, Apart, Plug;
    assert sub == Branch(sub.left, sub.node, sub.right);
    SuccessorSetting(sub.left, sub.node, sub.right, p, c, next, q);
    PlugNodes(sub, p);
  }

  lemma NotAtEnd(sub: Tree<Node>, p: Path<Node>, s: seq<Node>, i: nat, anchor: Node)
    requires sub.Branch? && sub.left.Branch? && sub.right.Branch? && Placed(sub, p, s, i)
    ensures First(Rest(sub, p), anchor) == First(s, anchor) && Last(Rest(sub, p), anchor) == Last(s, anchor)
  {
    hide Placed, Rest;
    RestIs(sub, p, s, i, anchor);
  }

  method SwapColors(next: Node, node: Node, ghost w: Tree<Node>, ghost b0: set<Node>, ghost b: set<Node>,
                    ghost anchor: Node, ghost nodes: set<Node>)
    requires Linked(w, anchor) && nodes - {node} == Nodes(w) && Colored(nodes, b0)
    requires next in nodes && node in nodes && next != node
    requires b == if node in b0 then b0 + {next} else b0 - {next}
    modifies next`color, node`color
    ensures Linked(w, anchor) && Colored(nodes - {node}, b) && (node.color == Black <==> next in b0)
  {
    next.color, node.color := node.color, next.color;
  }

  /** The successor, and the only child of the node that leaves its place. */
  method FindSuccessor(node: Node, anchor: Node, ghost sub: Tree<Node>, ghost p: Path<Node>)
    returns (next: Node, child: Node?, ghost c: Tree<Node>, ghost q: Path<Node>)
    requires sub.Branch? && sub.node == node && Apart(sub, p) && Linked(Plug(sub, p), anchor)
    ensures next == node <==> sub.left.Leaf? || sub.right.Leaf?
    ensures next == node ==> child == if node.left == null then node.right else node.left
    ensures next != node ==> SuccessorAt(sub, p, next, c, q) && child == Ptr(RootOf(c))
  {
    hide Distinct, DistinctPath, Apart, Plug, LinksIn, Linked, Inorder, Before, After;
    CursorPointers(sub, p, anchor);
    next, c, q := node, sub, p;
    if next.left == null {
      child := next.right;
    } else if next.right == null {
      child := next.left;
    } else {
      StepDown(sub, p);
      HoleFacts(sub, p);
      next, c, q := GetMinChild(next.right, sub.right, InRight(p, sub.left, node), anchor);
      CursorPointers(Branch(Leaf, next, c), q, anchor);
      SuccessorNodes(sub, p, next, c, q, Nodes(Plug(sub, p)));
      child := next.right;
    }
  }

  lemma CursorPlaced(t: Tree<Node>, sub: Tree<Node>, p: Path<Node>, i: nat)
    requires Distinct(t) && sub.Branch? && i < |Inorder(t)| && Inorder(t)[i] == sub.node
    requires Inorder(t)[..i] == Before(p) + Inorder(sub.left)
    requires Inorder(t)[i + 1..] == Inorder(sub.right) + After(p)
    ensures Placed(sub, p, Inorder(t), i) && Rest(sub, p) == Inorder(t)[..i] + Inorder(t)[i + 1..]
  {
    hide Rest, Placed, Distinct;
    InorderNoRepeats(t);
    assert Placed(sub, p, Inorder(t), i) by { PlacedMeans(sub, p, Inorder(t), i); }
    RestIs(sub, p, Inorder(t), i, sub.node);
  }

  lemma PlacedMeans(sub: Tree<Node>, p: Path<Node>, s: seq<Node>, i: nat)
    requires sub.Branch? && i < |s| && s[i] == sub.node && NoRepeats(s)
    requires s[..i] == Before(p) + Inorder(sub.left) && s[i + 1..] == Inorder(sub.right) + After(p)
    ensures Placed(sub, p, s, i)
  {
  }

  /** Erase node, the i-th of the tree. */
  method RBTreeErase(node: Node, anchor: Node, ghost t0: Tree<Node>, ghost i: nat, ghost nodes: set<Node>)
    returns (ghost t: Tree<Node>)
    requires RbTree(t0, anchor, nodes) && i < |Inorder(t0)| && Inorder(t0)[i] == node
    modifies nodes, anchor`left, anchor`right, anchor`parent
    ensures RbTree(t, anchor, nodes - {node})
    ensures Inorder(t) == Inorder(t0)[..i] + Inorder(t0)[i + 1..]
  {
    hide Distinct, DistinctPath, Apart, Plug, LinksIn, Linked, Inorder, Before, After, Rest, Placed, SuccessorAt,
         RedBlack, RootBlack, PathRedBlack, BlackHeight, First, Last, Nodes;
    ghost var sub, p := CursorAt(t0, node, i);
    CursorPlaced(t0, sub, p, i);
    ghost var c, q, b;
    var next, child, childParent;
    next, child, c, q := FindSuccessor(node, anchor, sub, p);
    if next == node {
      childParent, c, b := DetachLower(node, child, anchor, sub, p, i, nodes);
      q := p;
    } else {
      childParent, q, b := DetachInner(node, next, child, anchor, sub, p, c, q, i, nodes);
    }
    t := Plug(c, q);
    AnchorOutside(t, anchor);
    if node.color == Black {
      t, b := FixUp(child, childParent, anchor, c, q, b, nodes - {node}, Rest(sub, p));
    } else {
      PlugDistinct(c, q);
    }
    SameColors(t, b, Blacks(nodes - {node}));
  }
}
