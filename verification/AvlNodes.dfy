module AvlNodes {
  import opened Arithmetic
  import opened Trees

  /** A node of the tree.  The end node of a tree is a Node without a value: of its fields only
      left (the root of the tree) is ever read. */
  class Node<T> {
    var left: Node?<T>
    var right: Node?<T>
    var parent: Node?<T>
    var height: nat
    const value: Option<T>

    constructor (v: Option<T>)
      ensures value == v && left == null && right == null && parent == null && height == 1
    {
      left, right, parent, height, value := null, null, null, 1, v;
    }

    predicate IsLeftChild()
      requires parent != null
      reads this, parent
    {
      parent.left == this
    }

    /** The height this node should cache, from those its children cache. */
    function ChildHeight(): nat
      reads this, left, right
    {
      1 + Max(HeightOf(left), HeightOf(right))
    }
  }

  function HeightOf<T>(n: Node?<T>): nat
    reads n
  {
    if n == null then 0 else n.height
  }

  ghost function Ptr<T>(o: Option<Node<T>>): Node?<T> {
    if o.None? then null else o.value
  }

  ghost function ParentPtr<T>(o: Option<Node<T>>, end: Node<T>): Node<T> {
    if o.None? then end else o.value
  }

  ghost predicate NodeLinked<T>(n: Node<T>, k: Links<Node<T>>, end: Node<T>)
    reads n
  {
    n.left == Ptr(k.left) && n.right == Ptr(k.right) && n.parent == ParentPtr(k.parent, end)
  }

  /** The links in the heap below the end node form the tree t. */
  ghost predicate Linked<T>(t: Tree<Node<T>>, end: Node<T>)
    reads end, Nodes(t)
  {
    && end !in Nodes(t)
    && end.left == Ptr(RootOf(t))
    && forall n <- Nodes(t) :: NodeLinked(n, LinksIn(t, n, None), end)
  }

  /** The heights cached in t are those of its subtrees. */
  ghost predicate Exact<T>(t: Tree<Node<T>>)
    reads Nodes(t)
  {
    forall n <- Nodes(t) :: n.height == HeightIn(t, n)
  }

  /** So are the heights cached in the trees hanging off the path p. */
  ghost predicate ExactAside<T>(p: Path<Node<T>>)
    reads PathNodes(p)
  {
    forall n <- Sides(p) :: n.height == HeightAside(p, n)
  }

  /** The pointers of the node under the cursor. */
  lemma CursorPointers<T>(l: Tree<Node<T>>, n: Node<T>, r: Tree<Node<T>>, p: Path<Node<T>>, end: Node<T>)
    requires Apart(Branch(l, n, r), p) && Linked(Plug(Branch(l, n, r), p), end)
    ensures n in Nodes(Plug(Branch(l, n, r), p))
    ensures n.left == Ptr(RootOf(l)) && n.right == Ptr(RootOf(r)) && n.parent == ParentPtr(ParentOf(p), end)
  {
    hide Apart, Plug, LinksIn;
    CursorLinks(l, n, r, p);
  }

  lemma RootPointers<T>(t: Tree<Node<T>>, p: Path<Node<T>>, end: Node<T>)
    requires Apart(t, p) && Linked(Plug(t, p), end) && t.Branch?
    ensures t.node in Nodes(Plug(t, p))
    ensures t.node.left == Ptr(RootOf(t.left)) && t.node.right == Ptr(RootOf(t.right))
    ensures t.node.parent == ParentPtr(ParentOf(p), end)
  {
    CursorPointers(t.left, t.node, t.right, p, end);
  }

  lemma RootHeight<T>(t: Tree<Node<T>>)
    requires Exact(t)
    ensures HeightOf(Ptr(RootOf(t))) == Height(t)
  {
    if t.Branch? { assert t.node in Nodes(t); }
  }

  lemma ExactBranch<T>(l: Tree<Node<T>>, n: Node<T>, r: Tree<Node<T>>)
    requires Distinct(Branch(l, n, r)) && Exact(l) && Exact(r)
    requires n.height == Height(Branch(l, n, r))
    ensures Exact(Branch(l, n, r))
  {
  }

  lemma ExactChildren<T>(l: Tree<Node<T>>, n: Node<T>, r: Tree<Node<T>>)
    requires Distinct(Branch(l, n, r)) && Exact(Branch(l, n, r))
    ensures Exact(l) && Exact(r)
  {
    var t := Branch(l, n, r);
    forall m <- Nodes(l) ensures m.height == HeightIn(l, m) { assert HeightIn(t, m) == HeightIn(l, m); }
    forall m <- Nodes(r) ensures m.height == HeightIn(r, m) { assert HeightIn(t, m) == HeightIn(r, m); }
  }

  lemma ExactRight<T>(a: Tree<Node<T>>, x: Node<T>, b: Tree<Node<T>>, h: Node<T>, c: Tree<Node<T>>)
    requires Distinct(Branch(b, h, c)) && Distinct(Branch(a, x, Branch(b, h, c)))
    requires Exact(a) && Exact(b) && Exact(c)
    requires h.height == 1 + Max(Height(b), Height(c)) && x.height == 1 + Max(Height(a), h.height)
    ensures Exact(Branch(a, x, Branch(b, h, c)))
  {
    var low := Branch(b, h, c);
    ExactBranch(b, h, c);
    ExactBranch(a, x, low);
  }

  lemma ExactLeft<T>(a: Tree<Node<T>>, h: Node<T>, b: Tree<Node<T>>, x: Node<T>, c: Tree<Node<T>>)
    requires Distinct(Branch(a, h, b)) && Distinct(Branch(Branch(a, h, b), x, c))
    requires Exact(a) && Exact(b) && Exact(c)
    requires h.height == 1 + Max(Height(a), Height(b)) && x.height == 1 + Max(h.height, Height(c))
    ensures Exact(Branch(Branch(a, h, b), x, c))
  {
    var low := Branch(a, h, b);
    ExactBranch(a, h, b);
    ExactBranch(low, x, c);
  }

  /** If every node has the links a right rotation gives it, the heap is the rotated tree. */
  lemma RotatedRightLinked<T>(a: Tree<Node<T>>, x: Node<T>, b: Tree<Node<T>>, h: Node<T>, c: Tree<Node<T>>,
                              p: Path<Node<T>>, end: Node<T>)
    requires Apart(Branch(Branch(a, x, b), h, c), p)
    requires var t := Plug(Branch(Branch(a, x, b), h, c), p);
             && end !in Nodes(t)
             && forall n <- Nodes(t) :: NodeLinked(n, RotatedRight(x, b, h, p, n, LinksIn(t, n, None)), end)
    requires end.left == if p.Top? then x else Ptr(RootOf(Plug(Branch(Branch(a, x, b), h, c), p)))
    ensures Apart(Branch(a, x, Branch(b, h, c)), p)
    ensures Linked(Plug(Branch(a, x, Branch(b, h, c)), p), end)
    ensures Nodes(Plug(Branch(a, x, Branch(b, h, c)), p)) == Nodes(Plug(Branch(Branch(a, x, b), h, c), p))
  {
    hide Apart, Distinct, DistinctPath, Plug, LinksIn, Nodes, RotatedRight;
    PlugRotateRight(a, x, b, h, c, p);
  }

  /** head has the left child x, whose right subtree is b, and the hole of p is where head
      hangs; the nodes whose links a right rotation writes are distinct. */
  ghost predicate RightRotatable<T>(head: Node<T>, x: Node<T>, b: Tree<Node<T>>, p: Path<Node<T>>,
                                    end: Node<T>, nodes: set<Node<T>>)
    reads head, x, end, Nodes(b), PathNodes(p)
  {
    && head in nodes && x in nodes && end !in nodes && Nodes(b) <= nodes && (!p.Top? ==> p.node in nodes)
    && head.left == x && x.right == Ptr(RootOf(b)) && head.parent == ParentPtr(ParentOf(p), end)
    && head != x && RootOf(b) != Some(head) && RootOf(b) != Some(x)
    && ParentOf(p) != Some(head) && ParentOf(p) != Some(x) && (b.Branch? ==> RootOf(b) != ParentOf(p))
    && head.right != head && head.right != x && x.left != head && x.left != x
    && (p.Top? ==> end.left == head)
    && (p.InLeft? ==> p.node.left == head)
    && (p.InRight? ==> p.node.right == head && p.node.left != head)
  }

  /** The pointers a right rotation reads, and that the nodes it writes are distinct. */
  lemma RightRotateStart<T>(a: Tree<Node<T>>, x: Node<T>, b: Tree<Node<T>>, head: Node<T>,
                            c: Tree<Node<T>>, p: Path<Node<T>>, end: Node<T>)
    requires Apart(Branch(Branch(a, x, b), head, c), p)
    requires Linked(Plug(Branch(Branch(a, x, b), head, c), p), end)
    requires Exact(a) && Exact(b) && Exact(c)
    ensures end !in Nodes(Plug(Branch(Branch(a, x, b), head, c), p))
    ensures RightRotatable(head, x, b, p, end, Nodes(Plug(Branch(Branch(a, x, b), head, c), p)))
    ensures Nodes(a) + Nodes(b) + Nodes(c) + Sides(p) <= Nodes(Plug(Branch(Branch(a, x, b), head, c), p))
    ensures head.right == Ptr(RootOf(c)) && x.left == Ptr(RootOf(a))
    ensures Nodes(a) + Nodes(b) + Nodes(c) + Sides(p) !! {head, x}
    ensures Distinct(Branch(b, head, c)) && Distinct(Branch(a, x, Branch(b, head, c)))
    ensures HeightOf(Ptr(RootOf(a))) == Height(a)
    ensures HeightOf(Ptr(RootOf(b))) == Height(b)
    ensures HeightOf(Ptr(RootOf(c))) == Height(c)
  {
    hide Distinct, DistinctPath, Apart, LinksIn, Plug, Exact, Height, Sides;
    RightParts(a, x, b, head, c, p);
    ghost var t := RightLinks(a, x, b, head, c, p);
    RootHeight(b);
    RootHeight(a);
    RootHeight(c);
  }

  method RightRotate<T>(head: Node<T>)
    requires head.left != null && head.parent != null
    requires var x, b, up := head.left, head.left.right, head.parent;
      && head != x && head != up && x != up && b != head && b != x && b != up
      && head.right != head && head.right != x && x.left != head && x.left != x
    modifies {head, head.left, head.parent}`left, {head, head.left, head.parent}`right
    modifies {head, head.left}`parent, {head, head.left}`height
    modifies (if head.left.right == null then {} else {head.left.right})`parent
    ensures var x, b, up := old(head.left), old(head.left.right), old(head.parent);
      && head.left == b && head.right == old(head.right) && head.parent == x
      && x.left == old(x.left) && x.right == head && x.parent == up
      && (b != null ==> b.parent == head)
      && up.left == (if old(up.left) == head then x else old(up.left))
      && up.right == (if old(up.left) == head then old(up.right) else x)
      && head.height == 1 + Max(old(HeightOf(b)), old(HeightOf(head.right)))
      && x.height == 1 + Max(old(HeightOf(x.left)), head.height)
  {
    var newHead := head.left;
    head.left := newHead.right;
    newHead.right := head;
    if head.IsLeftChild() {
      head.parent.left := newHead;
    } else {
      head.parent.right := newHead;
    }
    newHead.parent := head.parent;
    head.parent := newHead;
    if head.left != null {
      head.left.parent := head;
    }
    head.height := head.ChildHeight();
    newHead.height := newHead.ChildHeight();
  }

  /** The rotation as a step on the links of every node. */
  method RightRotateLinks<T>(head: Node<T>, ghost t: Tree<Node<T>>, ghost x: Node<T>, ghost b: Tree<Node<T>>,
                             ghost p: Path<Node<T>>, ghost end: Node<T>, ghost nodes: set<Node<T>>)
    requires Linked(t, end) && nodes == Nodes(t)
    requires RightRotatable(head, x, b, p, end, nodes)
    modifies nodes`left, nodes`right, nodes`parent, {head, x}`height, end`left, end`right
    ensures forall n <- nodes :: NodeLinked(n, RotatedRight(x, b, head, p, n, LinksIn(t, n, None)), end)
    ensures end.left == if p.Top? then x else Ptr(RootOf(t))
    ensures head.parent == x
    ensures head.height == 1 + Max(old(HeightOf(Ptr(RootOf(b)))), old(HeightOf(head.right)))
    ensures x.height == 1 + Max(old(HeightOf(x.left)), head.height)
  {
    RightRotate(head);
    forall n <- nodes ensures NodeLinked(n, RotatedRight(x, b, head, p, n, LinksIn(t, n, None)), end) {
      assert old(NodeLinked(n, LinksIn(t, n, None), end));
    }
  }

  method RotateRightAt<T>(head: Node<T>, ghost a: Tree<Node<T>>, ghost x: Node<T>, ghost b: Tree<Node<T>>,
                          ghost c: Tree<Node<T>>, ghost p: Path<Node<T>>, ghost end: Node<T>,
                          ghost nodes: set<Node<T>>)
    requires Apart(Branch(Branch(a, x, b), head, c), p)
    requires Linked(Plug(Branch(Branch(a, x, b), head, c), p), end)
    requires Exact(a) && Exact(b) && Exact(c) && ExactAside(p)
    requires nodes == Nodes(Plug(Branch(Branch(a, x, b), head, c), p))
    modifies nodes`left, nodes`right, nodes`parent, {head, x}`height, end`left, end`right
    ensures nodes == Nodes(Plug(Branch(a, x, Branch(b, head, c)), p))
    ensures Apart(Branch(a, x, Branch(b, head, c)), p)
    ensures Linked(Plug(Branch(a, x, Branch(b, head, c)), p), end)
    ensures Exact(Branch(a, x, Branch(b, head, c))) && ExactAside(p)
    ensures head.parent == x
  {
    hide Apart, Distinct, DistinctPath, PathNodes, LinksIn, Plug, Linked, NodeLinked, RotatedRight, RightRotatable, Height, RootOf;
    RightRotateStart(a, x, b, head, c, p, end);
    RightRotateLinks(head, Plug(Branch(Branch(a, x, b), head, c), p), x, b, p, end, nodes);
    ExactRight(a, x, b, head, c);
    RotatedRightLinked(a, x, b, head, c, p, end);
  }

  // The mirror image: rotation about a node with a right child.

  /** If every node has the links a left rotation gives it, the heap is the rotated tree. */
  lemma RotatedLeftLinked<T>(a: Tree<Node<T>>, h: Node<T>, b: Tree<Node<T>>, x: Node<T>, c: Tree<Node<T>>,
                             p: Path<Node<T>>, end: Node<T>)
    requires Apart(Branch(a, h, Branch(b, x, c)), p)
    requires var t := Plug(Branch(a, h, Branch(b, x, c)), p);
             && end !in Nodes(t)
             && forall n <- Nodes(t) :: NodeLinked(n, RotatedLeft(h, b, x, p, n, LinksIn(t, n, None)), end)
    requires end.left == if p.Top? then x else Ptr(RootOf(Plug(Branch(a, h, Branch(b, x, c)), p)))
    ensures Apart(Branch(Branch(a, h, b), x, c), p)
    ensures Linked(Plug(Branch(Branch(a, h, b), x, c), p), end)
    ensures Nodes(Plug(Branch(Branch(a, h, b), x, c), p)) == Nodes(Plug(Branch(a, h, Branch(b, x, c)), p))
  {
    hide Apart, Distinct, DistinctPath, Plug, LinksIn, Nodes, RotatedLeft;
    PlugRotateLeft(a, h, b, x, c, p);
  }

  /** head has the right child x, whose left subtree is b. */
  ghost predicate LeftRotatable<T>(head: Node<T>, b: Tree<Node<T>>, x: Node<T>, p: Path<Node<T>>,
                                   end: Node<T>, nodes: set<Node<T>>)
    reads head, x, end, Nodes(b), PathNodes(p)
  {
    && head in nodes && x in nodes && end !in nodes && Nodes(b) <= nodes && (!p.Top? ==> p.node in nodes)
    && head.right == x && x.left == Ptr(RootOf(b)) && head.parent == ParentPtr(ParentOf(p), end)
    && head != x && RootOf(b) != Some(head) && RootOf(b) != Some(x)
    && ParentOf(p) != Some(head) && ParentOf(p) != Some(x) && (b.Branch? ==> RootOf(b) != ParentOf(p))
    && head.left != head && head.left != x && x.right != head && x.right != x
    && (p.Top? ==> end.left == head)
    && (p.InLeft? ==> p.node.left == head)
    && (p.InRight? ==> p.node.right == head && p.node.left != head)
  }

  lemma LeftRotateStart<T>(a: Tree<Node<T>>, head: Node<T>, b: Tree<Node<T>>, x: Node<T>,
                           c: Tree<Node<T>>, p: Path<Node<T>>, end: Node<T>)
    requires Apart(Branch(a, head, Branch(b, x, c)), p)
    requires Linked(Plug(Branch(a, head, Branch(b, x, c)), p), end)
    requires Exact(a) && Exact(b) && Exact(c)
    ensures end !in Nodes(Plug(Branch(a, head, Branch(b, x, c)), p))
    ensures LeftRotatable(head, b, x, p, end, Nodes(Plug(Branch(a, head, Branch(b, x, c)), p)))
    ensures Nodes(a) + Nodes(b) + Nodes(c) + Sides(p) <= Nodes(Plug(Branch(a, head, Branch(b, x, c)), p))
    ensures head.left == Ptr(RootOf(a)) && x.right == Ptr(RootOf(c))
    ensures Nodes(a) + Nodes(b) + Nodes(c) + Sides(p) !! {head, x}
    ensures Distinct(Branch(a, head, b)) && Distinct(Branch(Branch(a, head, b), x, c))
    ensures HeightOf(Ptr(RootOf(a))) == Height(a)
    ensures HeightOf(Ptr(RootOf(b))) == Height(b)
    ensures HeightOf(Ptr(RootOf(c))) == Height(c)
  {
    hide Distinct, DistinctPath, Apart, LinksIn, Plug, Exact, Height, Sides;
    LeftParts(a, head, b, x, c, p);
    ghost var t := LeftLinks(a, head, b, x, c, p);
    RootHeight(b);
    RootHeight(a);
    RootHeight(c);
  }

  method LeftRotate<T>(head: Node<T>)
    requires head.right != null && head.parent != null
    requires var x, b, up := head.right, head.right.left, head.parent;
      && head != x && head != up && x != up && b != head && b != x && b != up
      && head.left != head && head.left != x && x.right != head && x.right != x
    modifies {head, head.right, head.parent}`left, {head, head.right, head.parent}`right
    modifies {head, head.right}`parent, {head, head.right}`height
    modifies (if head.right.left == null then {} else {head.right.left})`parent
    ensures var x, b, up := old(head.right), old(head.right.left), old(head.parent);
      && head.right == b && head.left == old(head.left) && head.parent == x
      && x.right == old(x.right) && x.left == head && x.parent == up
      && (b != null ==> b.parent == head)
      && up.left == (if old(up.left) == head then x else old(up.left))
      && up.right == (if old(up.left) == head then old(up.right) else x)
      && head.height == 1 + Max(old(HeightOf(head.left)), old(HeightOf(b)))
      && x.height == 1 + Max(head.height, old(HeightOf(x.right)))
  {
    var newHead := head.right;
    head.right := newHead.left;
    newHead.left := head;
    if head.IsLeftChild() {
      head.parent.left := newHead;
    } else {
      head.parent.right := newHead;
    }
    newHead.parent := head.parent;
    head.parent := newHead;
    if head.right != null {
      head.right.parent := head;
    }
    head.height := head.ChildHeight();
    newHead.height := newHead.ChildHeight();
  }

  method LeftRotateLinks<T>(head: Node<T>, ghost t: Tree<Node<T>>, ghost b: Tree<Node<T>>, ghost x: Node<T>,
                            ghost p: Path<Node<T>>, ghost end: Node<T>, ghost nodes: set<Node<T>>)
    requires Linked(t, end) && nodes == Nodes(t)
    requires LeftRotatable(head, b, x, p, end, nodes)
    modifies nodes`left, nodes`right, nodes`parent, {head, x}`height, end`left, end`right
    ensures forall n <- nodes :: NodeLinked(n, RotatedLeft(head, b, x, p, n, LinksIn(t, n, None)), end)
    ensures end.left == if p.Top? then x else Ptr(RootOf(t))
    ensures head.parent == x
    ensures head.height == 1 + Max(old(HeightOf(head.left)), old(HeightOf(Ptr(RootOf(b)))))
    ensures x.height == 1 + Max(head.height, old(HeightOf(x.right)))
  {
    LeftRotate(head);
    forall n <- nodes ensures NodeLinked(n, RotatedLeft(head, b, x, p, n, LinksIn(t, n, None)), end) {
      assert old(NodeLinked(n, LinksIn(t, n, None), end));
    }
  }

  method RotateLeftAt<T>(head: Node<T>, ghost a: Tree<Node<T>>, ghost b: Tree<Node<T>>, ghost x: Node<T>,
                         ghost c: Tree<Node<T>>, ghost p: Path<Node<T>>, ghost end: Node<T>,
                         ghost nodes: set<Node<T>>)
    requires Apart(Branch(a, head, Branch(b, x, c)), p)
    requires Linked(Plug(Branch(a, head, Branch(b, x, c)), p), end)
    requires Exact(a) && Exact(b) && Exact(c) && ExactAside(p)
    requires nodes == Nodes(Plug(Branch(a, head, Branch(b, x, c)), p))
    modifies nodes`left, nodes`right, nodes`parent, {head, x}`height, end`left, end`right
    ensures nodes == Nodes(Plug(Branch(Branch(a, head, b), x, c), p))
    ensures Apart(Branch(Branch(a, head, b), x, c), p)
    ensures Linked(Plug(Branch(Branch(a, head, b), x, c), p), end)
    ensures Exact(Branch(Branch(a, head, b), x, c)) && ExactAside(p)
    ensures head.parent == x
  {
    hide Apart, Distinct, DistinctPath, PathNodes, LinksIn, Plug, Linked, NodeLinked, RotatedLeft, LeftRotatable, Height, RootOf;
    LeftRotateStart(a, head, b, x, c, p, end);
    LeftRotateLinks(head, Plug(Branch(a, head, Branch(b, x, c)), p), b, x, p, end, nodes);
    ExactLeft(a, head, b, x, c);
    RotatedLeftLinked(a, head, b, x, c, p, end);
  }
}
