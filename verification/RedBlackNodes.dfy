/** The nodes of a red-black tree and the rotations on them. */
module RedBlackNodes {
  import opened Trees

  datatype Color = Red | Black

  /** Of the anchor, parent is the root of the tree, left its first node and right its last. */
  class Node {
    var left: Node?
    var right: Node?
    var parent: Node?
    var color: Color

    constructor ()
    {
    }
  }

  ghost function Ptr(o: Option<Node>): Node? {
    if o.None? then null else o.value
  }

  ghost function ParentPtr(o: Option<Node>, anchor: Node): Node {
    if o.None? then anchor else o.value
  }

  ghost predicate NodeLinked(n: Node, k: Links<Node>, anchor: Node)
    reads n
  {
    n.left == Ptr(k.left) && n.right == Ptr(k.right) && n.parent == ParentPtr(k.parent, anchor)
  }

  /** The links in the heap below the anchor form the tree t. */
  ghost predicate Linked(t: Tree<Node>, anchor: Node)
    reads anchor, Nodes(t)
  {
    && anchor !in Nodes(t)
    && anchor.parent == Ptr(RootOf(t))
    && forall n <- Nodes(t) :: NodeLinked(n, LinksIn(t, n, None), anchor)
  }

  lemma CursorPointers(t: Tree<Node>, p: Path<Node>, anchor: Node)
    requires Apart(t, p) && Linked(Plug(t, p), anchor) && t.Branch?
    ensures t.node in Nodes(Plug(t, p))
    ensures t.node.left == Ptr(RootOf(t.left)) && t.node.right == Ptr(RootOf(t.right))
    ensures t.node.parent == ParentPtr(ParentOf(p), anchor)
  {
    hide Apart, Plug, LinksIn;
    assert t == Branch(t.left, t.node, t.right);
    CursorLinks(t.left, t.node, t.right, p);
  }

  // Rotation to the right.

  /** If every node has the links a right rotation gives it, the heap is the rotated tree. */
  lemma RotatedRightLinked(a: Tree<Node>, x: Node, b: Tree<Node>, h: Node, c: Tree<Node>, p: Path<Node>, anchor: Node)
    requires Apart(Branch(Branch(a, x, b), h, c), p)
    requires var t := Plug(Branch(Branch(a, x, b), h, c), p);
             && anchor !in Nodes(t)
             && forall n <- Nodes(t) :: NodeLinked(n, RotatedRight(x, b, h, p, n, LinksIn(t, n, None)), anchor)
    requires anchor.parent == if p.Top? then x else Ptr(RootOf(Plug(Branch(Branch(a, x, b), h, c), p)))
    ensures Apart(Branch(a, x, Branch(b, h, c)), p)
    ensures Linked(Plug(Branch(a, x, Branch(b, h, c)), p), anchor)
    ensures Nodes(Plug(Branch(a, x, Branch(b, h, c)), p)) == Nodes(Plug(Branch(Branch(a, x, b), h, c), p))
  {
    hide Apart, Distinct, DistinctPath, Plug, LinksIn, Nodes, RotatedRight;
    PlugRotateRight(a, x, b, h, c, p);
  }

  /** pivot has the left child x, whose right subtree is b, and the hole of p is where pivot
      hangs; the nodes whose links a right rotation writes are distinct. */
  ghost predicate RightRotatable(pivot: Node, x: Node, b: Tree<Node>, p: Path<Node>, anchor: Node, nodes: set<Node>)
    reads pivot, x, anchor, Nodes(b), PathNodes(p)
  {
    && pivot in nodes && x in nodes && anchor !in nodes && Nodes(b) <= nodes && (!p.Top? ==> p.node in nodes)
    && pivot.left == x && x.right == Ptr(RootOf(b)) && pivot.parent == ParentPtr(ParentOf(p), anchor)
    && pivot != x && RootOf(b) != Some(pivot) && RootOf(b) != Some(x)
    && ParentOf(p) != Some(pivot) && ParentOf(p) != Some(x) && (b.Branch? ==> RootOf(b) != ParentOf(p))
    && (anchor.parent == pivot <==> p.Top?)
    && (p.InLeft? ==> p.node.left == pivot && p.node.right != pivot)
    && (p.InRight? ==> p.node.right == pivot && p.node.left != pivot)
  }

  lemma RightRotateStart(a: Tree<Node>, x: Node, b: Tree<Node>, pivot: Node, c: Tree<Node>, p: Path<Node>, anchor: Node)
    requires Apart(Branch(Branch(a, x, b), pivot, c), p)
    requires Linked(Plug(Branch(Branch(a, x, b), pivot, c), p), anchor)
    ensures anchor !in Nodes(Plug(Branch(Branch(a, x, b), pivot, c), p))
    ensures RightRotatable(pivot, x, b, p, anchor, Nodes(Plug(Branch(Branch(a, x, b), pivot, c), p)))
  {
    hide Distinct, DistinctPath, Apart, LinksIn, Plug;
    RightParts(a, x, b, pivot, c, p);
    ghost var t := RightLinks(a, x, b, pivot, c, p);
    RootIsTop(Branch(Branch(a, x, b), pivot, c), p);
    OtherChild(Branch(Branch(a, x, b), pivot, c), p);
  }

  /** The root of the whole tree is the root under the cursor only at the top. */
  lemma RootIsTop<N>(t: Tree<N>, p: Path<N>)
    requires Apart(t, p) && t.Branch?
    ensures RootOf(Plug(t, p)) == RootOf(t) <==> p.Top?
  {
    PlugRoot(t, p, Leaf);
    PlugNodes(Leaf, p);
  }

  lemma OtherChild<N>(t: Tree<N>, p: Path<N>)
    requires Apart(t, p) && t.Branch?
    ensures !p.Top? ==> p.node in Nodes(Plug(t, p))
    ensures p.InLeft? ==> LinksIn(Plug(t, p), p.node, None).right != RootOf(t)
    ensures p.InRight? ==> LinksIn(Plug(t, p), p.node, None).left != RootOf(t)
  {
    if !p.Top? { ParentLinks(t, p); }
  }

  method RotateRight(pivot: Node, root: Node?) returns (newRoot: Node?)
    requires pivot.left != null && pivot.parent != null
    requires var x, b, up := pivot.left, pivot.left.right, pivot.parent;
      && pivot != x && pivot != up && x != up && b != pivot && b != x && b != up
    modifies pivot`left, pivot`parent, pivot.left`right, pivot.left`parent
    modifies (if pivot.left.right == null then {} else {pivot.left.right})`parent
    modifies (if pivot == root then {} else {pivot.parent})`left, (if pivot == root then {} else {pivot.parent})`right
    ensures var x, b, up := old(pivot.left), old(pivot.left.right), old(pivot.parent);
      && pivot.left == b && pivot.parent == x && x.right == pivot && x.parent == up
      && (b != null ==> b.parent == pivot)
      && newRoot == (if pivot == root then x else root)
      && (pivot != root ==>
            && up.left == (if old(up.right) == pivot then old(up.left) else x)
            && up.right == (if old(up.right) == pivot then x else old(up.right)))
  {
    var temp := pivot.left;
    pivot.left := temp.right;
    if temp.right != null {
      temp.right.parent := pivot;
    }
    temp.parent := pivot.parent;
    newRoot := root;
    if pivot == root {
      newRoot := temp;
    } else if pivot == pivot.parent.right {
      pivot.parent.right := temp;
    } else {
      pivot.parent.left := temp;
    }
    temp.right := pivot;
    pivot.parent := temp;
  }

  method RightRotateLinks(pivot: Node, anchor: Node, ghost t: Tree<Node>, ghost x: Node, ghost b: Tree<Node>,
                          ghost p: Path<Node>, ghost nodes: set<Node>)
    requires Linked(t, anchor) && nodes == Nodes(t)
    requires RightRotatable(pivot, x, b, p, anchor, nodes)
    modifies nodes`left, nodes`right, nodes`parent, anchor`parent
    ensures forall n <- nodes :: NodeLinked(n, RotatedRight(x, b, pivot, p, n, LinksIn(t, n, None)), anchor)
    ensures anchor.parent == if p.Top? then x else Ptr(RootOf(t))
  {
    assert b.Branch? ==> b.node in Nodes(b);
    hide LinksIn, Nodes, PathNodes;
    anchor.parent := RotateRight(pivot, anchor.parent);
    forall n <- nodes ensures NodeLinked(n, RotatedRight(x, b, pivot, p, n, LinksIn(t, n, None)), anchor) {
      assert old(NodeLinked(n, LinksIn(t, n, None), anchor));
      if n == pivot {
      } else if n == x {
      } else if Some(n) == RootOf(b) {
      } else if Some(n) == ParentOf(p) {
      } else {
      }
    }
  }

  method RotateRightAt(pivot: Node, anchor: Node, ghost a: Tree<Node>, ghost x: Node, ghost b: Tree<Node>,
                       ghost c: Tree<Node>, ghost p: Path<Node>, ghost nodes: set<Node>)
    requires Apart(Branch(Branch(a, x, b), pivot, c), p)
    requires Linked(Plug(Branch(Branch(a, x, b), pivot, c), p), anchor)
    requires nodes == Nodes(Plug(Branch(Branch(a, x, b), pivot, c), p))
    modifies nodes`left, nodes`right, nodes`parent, anchor`parent
    ensures nodes == Nodes(Plug(Branch(a, x, Branch(b, pivot, c)), p))
    ensures Apart(Branch(a, x, Branch(b, pivot, c)), p)
    ensures Linked(Plug(Branch(a, x, Branch(b, pivot, c)), p), anchor)
    ensures Inorder(Plug(Branch(a, x, Branch(b, pivot, c)), p))
         == Inorder(Plug(Branch(Branch(a, x, b), pivot, c), p))
  {
    hide Apart, Distinct, DistinctPath, PathNodes, LinksIn, Plug, Linked, NodeLinked, RotatedRight, RightRotatable,
         RootOf, Inorder;
    RightRotateStart(a, x, b, pivot, c, p, anchor);
    RightRotateLinks(pivot, anchor, Plug(Branch(Branch(a, x, b), pivot, c), p), x, b, p, nodes);
    RotatedRightLinked(a, x, b, pivot, c, p, anchor);
    RotationInorder(a, x, b, pivot, c);
    SameInorder(Branch(a, x, Branch(b, pivot, c)), Branch(Branch(a, x, b), pivot, c), p);
  }

  // Rotation to the left.

  /** If every node has the links a left rotation gives it, the heap is the rotated tree. */
  lemma RotatedLeftLinked(a: Tree<Node>, h: Node, b: Tree<Node>, x: Node, c: Tree<Node>, p: Path<Node>, anchor: Node)
    requires Apart(Branch(a, h, Branch(b, x, c)), p)
    requires var t := Plug(Branch(a, h, Branch(b, x, c)), p);
             && anchor !in Nodes(t)
             && forall n <- Nodes(t) :: NodeLinked(n, RotatedLeft(h, b, x, p, n, LinksIn(t, n, None)), anchor)
    requires anchor.parent == if p.Top? then x else Ptr(RootOf(Plug(Branch(a, h, Branch(b, x, c)), p)))
    ensures Apart(Branch(Branch(a, h, b), x, c), p)
    ensures Linked(Plug(Branch(Branch(a, h, b), x, c), p), anchor)
    ensures Nodes(Plug(Branch(Branch(a, h, b), x, c), p)) == Nodes(Plug(Branch(a, h, Branch(b, x, c)), p))
  {
    hide Apart, Distinct, DistinctPath, Plug, LinksIn, Nodes, RotatedLeft;
    PlugRotateLeft(a, h, b, x, c, p);
  }

  /** pivot has the right child x, whose left subtree is b, and the hole of p is where pivot
      hangs; the nodes whose links a left rotation writes are distinct. */
  ghost predicate LeftRotatable(pivot: Node, b: Tree<Node>, x: Node, p: Path<Node>, anchor: Node, nodes: set<Node>)
    reads pivot, x, anchor, Nodes(b), PathNodes(p)
  {
    && pivot in nodes && x in nodes && anchor !in nodes && Nodes(b) <= nodes && (!p.Top? ==> p.node in nodes)
    && pivot.right == x && x.left == Ptr(RootOf(b)) && pivot.parent == ParentPtr(ParentOf(p), anchor)
    && pivot != x && RootOf(b) != Some(pivot) && RootOf(b) != Some(x)
    && ParentOf(p) != Some(pivot) && ParentOf(p) != Some(x) && (b.Branch? ==> RootOf(b) != ParentOf(p))
    && (anchor.parent == pivot <==> p.Top?)
    && (p.InLeft? ==> p.node.left == pivot && p.node.right != pivot)
    && (p.InRight? ==> p.node.right == pivot && p.node.left != pivot)
  }

  lemma LeftRotateStart(a: Tree<Node>, pivot: Node, b: Tree<Node>, x: Node, c: Tree<Node>, p: Path<Node>, anchor: Node)
    requires Apart(Branch(a, pivot, Branch(b, x, c)), p)
    requires Linked(Plug(Branch(a, pivot, Branch(b, x, c)), p), anchor)
    ensures anchor !in Nodes(Plug(Branch(a, pivot, Branch(b, x, c)), p))
    ensures LeftRotatable(pivot, b, x, p, anchor, Nodes(Plug(Branch(a, pivot, Branch(b, x, c)), p)))
  {
    hide Distinct, DistinctPath, Apart, LinksIn, Plug;
    LeftParts(a, pivot, b, x, c, p);
    ghost var t := LeftLinks(a, pivot, b, x, c, p);
    RootIsTop(Branch(a, pivot, Branch(b, x, c)), p);
    OtherChild(Branch(a, pivot, Branch(b, x, c)), p);
  }

  method RotateLeft(pivot: Node, root: Node?) returns (newRoot: Node?)
    requires pivot.right != null && pivot.parent != null
    requires var x, b, up := pivot.right, pivot.right.left, pivot.parent;
      && pivot != x && pivot != up && x != up && b != pivot && b != x && b != up
    modifies pivot`right, pivot`parent, pivot.right`left, pivot.right`parent
    modifies (if pivot.right.left == null then {} else {pivot.right.left})`parent
    modifies (if pivot == root then {} else {pivot.parent})`right, (if pivot == root then {} else {pivot.parent})`left
    ensures var x, b, up := old(pivot.right), old(pivot.right.left), old(pivot.parent);
      && pivot.right == b && pivot.parent == x && x.left == pivot && x.parent == up
      && (b != null ==> b.parent == pivot)
      && newRoot == (if pivot == root then x else root)
      && (pivot != root ==>
            && up.right == (if old(up.left) == pivot then old(up.right) else x)
            && up.left == (if old(up.left) == pivot then x else old(up.left)))
  {
    var temp := pivot.right;
    pivot.right := temp.left;
    if temp.left != null {
      temp.left.parent := pivot;
    }
    temp.parent := pivot.parent;
    newRoot := root;
    if pivot == root {
      newRoot := temp;
    } else if pivot == pivot.parent.left {
      pivot.parent.left := temp;
    } else {
      pivot.parent.right := temp;
    }
    temp.left := pivot;
    pivot.parent := temp;
  }

  method LeftRotateLinks(pivot: Node, anchor: Node, ghost t: Tree<Node>, ghost b: Tree<Node>, ghost x: Node,
                         ghost p: Path<Node>, ghost nodes: set<Node>)
    requires Linked(t, anchor) && nodes == Nodes(t)
    requires LeftRotatable(pivot, b, x, p, anchor, nodes)
    modifies nodes`right, nodes`left, nodes`parent, anchor`parent
    ensures forall n <- nodes :: NodeLinked(n, RotatedLeft(pivot, b, x, p, n, LinksIn(t, n, None)), anchor)
    ensures anchor.parent == if p.Top? then x else Ptr(RootOf(t))
  {
    assert b.Branch? ==> b.node in Nodes(b);
    hide LinksIn, Nodes, PathNodes;
    anchor.parent := RotateLeft(pivot, anchor.parent);
    forall n <- nodes ensures NodeLinked(n, RotatedLeft(pivot, b, x, p, n, LinksIn(t, n, None)), anchor) {
      assert old(NodeLinked(n, LinksIn(t, n, None), anchor));
      if n == pivot {
      } else if n == x {
      } else if Some(n) == RootOf(b) {
      } else if Some(n) == ParentOf(p) {
      } else {
      }
    }
  }

  method RotateLeftAt(pivot: Node, anchor: Node, ghost a: Tree<Node>, ghost b: Tree<Node>, ghost x: Node,
                      ghost c: Tree<Node>, ghost p: Path<Node>, ghost nodes: set<Node>)
    requires Apart(Branch(a, pivot, Branch(b, x, c)), p)
    requires Linked(Plug(Branch(a, pivot, Branch(b, x, c)), p), anchor)
    requires nodes == Nodes(Plug(Branch(a, pivot, Branch(b, x, c)), p))
    modifies nodes`right, nodes`left, nodes`parent, anchor`parent
    ensures nodes == Nodes(Plug(Branch(Branch(a, pivot, b), x, c), p))
    ensures Apart(Branch(Branch(a, pivot, b), x, c), p)
    ensures Linked(Plug(Branch(Branch(a, pivot, b), x, c), p), anchor)
    ensures Inorder(Plug(Branch(Branch(a, pivot, b), x, c), p))
         == Inorder(Plug(Branch(a, pivot, Branch(b, x, c)), p))
  {
    hide Apart, Distinct, DistinctPath, PathNodes, LinksIn, Plug, Linked, NodeLinked, RotatedLeft, LeftRotatable,
         RootOf, Inorder;
    LeftRotateStart(a, pivot, b, x, c, p, anchor);
    LeftRotateLinks(pivot, anchor, Plug(Branch(a, pivot, Branch(b, x, c)), p), b, x, p, nodes);
    RotatedLeftLinked(a, pivot, b, x, c, p, anchor);
    RotationInorder(a, pivot, b, x, c);
    SameInorder(Branch(Branch(a, pivot, b), x, c), Branch(a, pivot, Branch(b, x, c)), p);
  }
}
