/** The climb that restores the balance of an AVL tree. */
module AvlBalance {
  import opened Arithmetic
  import opened Trees
  import opened AvlNodes

  // Balance is a property of the shape alone.

  ghost predicate Balanced<N>(t: Tree<N>) {
    match t
    case Leaf => true
    case Branch(l, _, r) => Near(Height(l), Height(r)) && Balanced(l) && Balanced(r)
  }

  ghost predicate Near(a: nat, b: nat) {
    a <= b + 1 && b <= a + 1
  }

  /** Filling the hole of p with a balanced tree of height h gives a balanced tree. */
  ghost predicate PathBalanced<N>(p: Path<N>, h: nat) {
    match p
    case Top => true
    case InLeft(up, _, r) => Near(h, Height(r)) && Balanced(r) && PathBalanced(up, 1 + Max(h, Height(r)))
    case InRight(up, l, _) => Near(h, Height(l)) && Balanced(l) && PathBalanced(up, 1 + Max(h, Height(l)))
  }

  lemma AsideDown<T>(l: Tree<Node<T>>, n: Node<T>, r: Tree<Node<T>>, p: Path<Node<T>>)
    requires Apart(Branch(l, n, r), p)
    ensures ExactAside(InLeft(p, n, r)) <==> Exact(r) && ExactAside(p)
    ensures ExactAside(InRight(p, l, n)) <==> Exact(l) && ExactAside(p)
  {
    var q, s := InLeft(p, n, r), InRight(p, l, n);
    assert forall m <- Sides(p) :: m in PathNodes(p);
    assert forall m <- Nodes(r) :: HeightAside(q, m) == HeightIn(r, m);
    assert forall m <- Nodes(l) :: HeightAside(s, m) == HeightIn(l, m);
    assert forall m <- Sides(p) :: m in Sides(q) && HeightAside(q, m) == HeightAside(p, m);
    assert forall m <- Sides(p) :: m in Sides(s) && HeightAside(s, m) == HeightAside(p, m);
  }

  lemma {:induction false} BalancedPlug<N>(t: Tree<N>, p: Path<N>)
    ensures Balanced(Plug(t, p)) <==> Balanced(t) && PathBalanced(p, Height(t))
    decreases p
  {
    match p
    case Top =>
    case InLeft(up, n, r) => BalancedPlug(Branch(t, n, r), up);
    case InRight(up, l, n) => BalancedPlug(Branch(l, n, t), up);
  }

  lemma {:induction false} RenameBalanced<N>(t: Tree<N>, a: N, b: N)
    ensures Balanced(Rename(t, a, b)) == Balanced(t)
  {
    match t
    case Leaf =>
    case Branch(l, _, r) =>
      RenameBalanced(l, a, b);
      RenameBalanced(r, a, b);
      RenameHeight(l, a, b);
      RenameHeight(r, a, b);
  }

  lemma {:induction false} RenamePathBalanced<N>(p: Path<N>, h: nat, a: N, b: N)
    ensures PathBalanced(RenamePath(p, a, b), h) == PathBalanced(p, h)
    decreases p
  {
    match p
    case Top =>
    case InLeft(up, _, r) =>
      RenameBalanced(r, a, b);
      RenameHeight(r, a, b);
      RenamePathBalanced(up, 1 + Max(h, Height(r)), a, b);
    case InRight(up, l, _) =>
      RenameBalanced(l, a, b);
      RenameHeight(l, a, b);
      RenamePathBalanced(up, 1 + Max(h, Height(l)), a, b);
  }

  /** Exact heights of a tree are exact heights on both sides of a cursor. */
  lemma ExactSplit<T>(t: Tree<Node<T>>, p: Path<Node<T>>)
    requires Apart(t, p) && Exact(Plug(t, p))
    ensures Exact(t) && ExactAside(p)
  {
    PlugNodes(t, p);
    forall n <- Nodes(t) ensures n.height == HeightIn(t, n) { PlugHeights(t, p, n); }
    forall n <- Sides(p) ensures n.height == HeightAside(p, n) { PlugHeights(t, p, n); }
  }

  lemma SingleRight<N>(a: Tree<N>, x: N, b: Tree<N>, n: N, r: Tree<N>)
    requires Balanced(Branch(a, x, b)) && Balanced(r)
    requires Height(Branch(a, x, b)) == Height(r) + 2 && Height(a) >= Height(b)
    ensures Balanced(Branch(a, x, Branch(b, n, r)))
    ensures Height(Branch(a, x, Branch(b, n, r)))
         == if Height(a) == Height(b) then 1 + Height(Branch(a, x, b)) else Height(Branch(a, x, b))
    ensures Inorder(Branch(a, x, Branch(b, n, r))) == Inorder(Branch(Branch(a, x, b), n, r))
  {
    var low := Branch(b, n, r);
    assert Balanced(low) && Height(low) == 1 + Max(Height(b), Height(r));
    RotationInorder(a, x, b, n, r);
  }

  lemma DoubleRight<N>(a: Tree<N>, x: N, c: Tree<N>, y: N, d: Tree<N>, n: N, r: Tree<N>)
    requires Balanced(Branch(a, x, Branch(c, y, d))) && Balanced(r)
    requires Height(Branch(a, x, Branch(c, y, d))) == Height(r) + 2 && Height(a) < Height(Branch(c, y, d))
    ensures Balanced(Branch(Branch(a, x, c), y, Branch(d, n, r)))
    ensures Height(Branch(Branch(a, x, c), y, Branch(d, n, r))) == Height(Branch(a, x, Branch(c, y, d)))
    ensures Inorder(Branch(Branch(a, x, c), y, Branch(d, n, r)))
         == Inorder(Branch(Branch(a, x, Branch(c, y, d)), n, r))
  {
    var mid, low, high := Branch(c, y, d), Branch(a, x, c), Branch(d, n, r);
    assert Balanced(mid) && Near(Height(c), Height(d)) && Height(mid) == 1 + Max(Height(c), Height(d));
    assert Balanced(low) && Height(low) == 1 + Max(Height(a), Height(c));
    assert Balanced(high) && Height(high) == 1 + Max(Height(d), Height(r));
    RotationInorder(a, x, c, y, d);
    RotationInorder(low, y, d, n, r);
  }

  /** n is too heavy on the left.  One rotation is enough when the outer grandchild is at least
      as high as the inner one; otherwise the left child is rotated first. */
  method FixLeftHeavy<T>(n: Node<T>, single: bool, ghost l: Tree<Node<T>>, ghost r: Tree<Node<T>>,
                         ghost p: Path<Node<T>>, ghost end: Node<T>, ghost nodes: set<Node<T>>)
    returns (ghost t: Tree<Node<T>>)
    requires Apart(Branch(l, n, r), p)
    requires Linked(Plug(Branch(l, n, r), p), end) && nodes == Nodes(Plug(Branch(l, n, r), p))
    requires Exact(l) && Exact(r) && ExactAside(p)
    requires Balanced(l) && Balanced(r) && Height(l) == Height(r) + 2
    requires single <==> Height(l.left) >= Height(l.right)
    modifies nodes, end`left, end`right
    ensures Apart(t, p) && Linked(Plug(t, p), end) && nodes == Nodes(Plug(t, p))
    ensures Exact(t) && ExactAside(p) && Balanced(t) && t.Branch? && t.node == n.parent
    ensures Inorder(t) == Inorder(Branch(l, n, r))
    ensures Height(t) == if Height(l.left) == Height(l.right) then 1 + Height(l) else Height(l)
  {
    ghost var a, x, b := l.left, l.node, l.right;
    PlugNodes(Branch(l, n, r), p);
    ExactChildren(a, x, b);
    if single {
      t := Branch(a, x, Branch(b, n, r));
      RotateRightAt(n, a, x, b, r, p, end, nodes);
      SingleRight(a, x, b, n, r);
    } else {
      ghost var c, y, d := b.left, b.node, b.right;
      t := Branch(Branch(a, x, c), y, Branch(d, n, r));
      RotateLeftRight(n, a, x, c, y, d, r, p, end, nodes);
      DoubleRight(a, x, c, y, d, n, r);
    }
  }

  method RotateLeftRight<T>(n: Node<T>, ghost a: Tree<Node<T>>, ghost x: Node<T>, ghost c: Tree<Node<T>>,
                            ghost y: Node<T>, ghost d: Tree<Node<T>>, ghost r: Tree<Node<T>>,
                            ghost p: Path<Node<T>>, ghost end: Node<T>, ghost nodes: set<Node<T>>)
    requires Apart(Branch(Branch(a, x, Branch(c, y, d)), n, r), p)
    requires Linked(Plug(Branch(Branch(a, x, Branch(c, y, d)), n, r), p), end)
    requires nodes == Nodes(Plug(Branch(Branch(a, x, Branch(c, y, d)), n, r), p))
    requires Exact(a) && Exact(Branch(c, y, d)) && Exact(r) && ExactAside(p)
    modifies nodes, end`left, end`right
    ensures Apart(Branch(Branch(a, x, c), y, Branch(d, n, r)), p)
    ensures Linked(Plug(Branch(Branch(a, x, c), y, Branch(d, n, r)), p), end)
    ensures nodes == Nodes(Plug(Branch(Branch(a, x, c), y, Branch(d, n, r)), p))
    ensures Exact(Branch(Branch(a, x, c), y, Branch(d, n, r))) && ExactAside(p)
    ensures n.parent == y
  {
    hide Distinct, DistinctPath, Plug, Linked, Exact, ExactAside, Nodes, PathNodes;
    ghost var mid, low := Branch(c, y, d), Branch(a, x, c);
    ghost var l, hole := Branch(a, x, mid), InLeft(p, n, r);
    CursorPointers(l, n, r, p, end);
    Descend(l, n, r, p);
    Descend(a, x, mid, hole);
    CursorPointers(a, x, mid, hole, end);
    CursorPointers(c, y, d, InRight(hole, a, x), end);
    ExactChildren(c, y, d);
    AsideDown(l, n, r, p);
    RotateLeftAt(n.left, a, c, y, d, hole, end, nodes);
    Descend(Branch(low, y, d), n, r, p);
    AsideDown(Branch(low, y, d), n, r, p);
    ExactChildren(low, y, d);
    RotateRightAt(n, low, y, d, r, p, end, nodes);
  }

  lemma SingleLeft<N>(l: Tree<N>, n: N, b: Tree<N>, x: N, a: Tree<N>)
    requires Balanced(Branch(b, x, a)) && Balanced(l)
    requires Height(Branch(b, x, a)) == Height(l) + 2 && Height(a) >= Height(b)
    ensures Balanced(Branch(Branch(l, n, b), x, a))
    ensures Height(Branch(Branch(l, n, b), x, a))
         == if Height(a) == Height(b) then 1 + Height(Branch(b, x, a)) else Height(Branch(b, x, a))
    ensures Inorder(Branch(Branch(l, n, b), x, a)) == Inorder(Branch(l, n, Branch(b, x, a)))
  {
    var low := Branch(l, n, b);
    assert Balanced(low) && Height(low) == 1 + Max(Height(l), Height(b));
    RotationInorder(l, n, b, x, a);
  }

  lemma DoubleLeft<N>(l: Tree<N>, n: N, d: Tree<N>, y: N, c: Tree<N>, x: N, a: Tree<N>)
    requires Balanced(Branch(Branch(d, y, c), x, a)) && Balanced(l)
    requires Height(Branch(Branch(d, y, c), x, a)) == Height(l) + 2 && Height(a) < Height(Branch(d, y, c))
    ensures Balanced(Branch(Branch(l, n, d), y, Branch(c, x, a)))
    ensures Height(Branch(Branch(l, n, d), y, Branch(c, x, a))) == Height(Branch(Branch(d, y, c), x, a))
    ensures Inorder(Branch(Branch(l, n, d), y, Branch(c, x, a)))
         == Inorder(Branch(l, n, Branch(Branch(d, y, c), x, a)))
  {
    var mid, low, high := Branch(d, y, c), Branch(c, x, a), Branch(l, n, d);
    assert Balanced(mid) && Near(Height(c), Height(d)) && Height(mid) == 1 + Max(Height(d), Height(c));
    assert Balanced(low) && Height(low) == 1 + Max(Height(c), Height(a));
    assert Balanced(high) && Height(high) == 1 + Max(Height(l), Height(d));
    RotationInorder(d, y, c, x, a);
    RotationInorder(l, n, d, y, low);
  }

  /** The mirror image of FixLeftHeavy. */
  method FixRightHeavy<T>(n: Node<T>, single: bool, ghost l: Tree<Node<T>>, ghost r: Tree<Node<T>>,
                          ghost p: Path<Node<T>>, ghost end: Node<T>, ghost nodes: set<Node<T>>)
    returns (ghost t: Tree<Node<T>>)
    requires Apart(Branch(l, n, r), p)
    requires Linked(Plug(Branch(l, n, r), p), end) && nodes == Nodes(Plug(Branch(l, n, r), p))
    requires Exact(l) && Exact(r) && ExactAside(p)
    requires Balanced(l) && Balanced(r) && Height(r) == Height(l) + 2
    requires single <==> Height(r.right) >= Height(r.left)
    modifies nodes, end`left, end`right
    ensures Apart(t, p) && Linked(Plug(t, p), end) && nodes == Nodes(Plug(t, p))
    ensures Exact(t) && ExactAside(p) && Balanced(t) && t.Branch? && t.node == n.parent
    ensures Inorder(t) == Inorder(Branch(l, n, r))
    ensures Height(t) == if Height(r.left) == Height(r.right) then 1 + Height(r) else Height(r)
  {
    ghost var b, x, a := r.left, r.node, r.right;
    PlugNodes(Branch(l, n, r), p);
    ExactChildren(b, x, a);
    if single {
      t := Branch(Branch(l, n, b), x, a);
      RotateLeftAt(n, l, b, x, a, p, end, nodes);
      SingleLeft(l, n, b, x, a);
    } else {
      ghost var d, y, c := b.left, b.node, b.right;
      t := Branch(Branch(l, n, d), y, Branch(c, x, a));
      RotateRightLeft(n, l, d, y, c, x, a, p, end, nodes);
      DoubleLeft(l, n, d, y, c, x, a);
    }
  }

  method RotateRightLeft<T>(n: Node<T>, ghost l: Tree<Node<T>>, ghost d: Tree<Node<T>>, ghost y: Node<T>,
                            ghost c: Tree<Node<T>>, ghost x: Node<T>, ghost a: Tree<Node<T>>,
                            ghost p: Path<Node<T>>, ghost end: Node<T>, ghost nodes: set<Node<T>>)
    requires Apart(Branch(l, n, Branch(Branch(d, y, c), x, a)), p)
    requires Linked(Plug(Branch(l, n, Branch(Branch(d, y, c), x, a)), p), end)
    requires nodes == Nodes(Plug(Branch(l, n, Branch(Branch(d, y, c), x, a)), p))
    requires Exact(a) && Exact(Branch(d, y, c)) && Exact(l) && ExactAside(p)
    modifies nodes, end`left, end`right
    ensures Apart(Branch(Branch(l, n, d), y, Branch(c, x, a)), p)
    ensures Linked(Plug(Branch(Branch(l, n, d), y, Branch(c, x, a)), p), end)
    ensures nodes == Nodes(Plug(Branch(Branch(l, n, d), y, Branch(c, x, a)), p))
    ensures Exact(Branch(Branch(l, n, d), y, Branch(c, x, a))) && ExactAside(p)
    ensures n.parent == y
  {
    hide Distinct, DistinctPath, Plug, Linked, Exact, ExactAside, Nodes, PathNodes;
    ghost var mid, low := Branch(d, y, c), Branch(c, x, a);
    ghost var r, hole := Branch(mid, x, a), InRight(p, l, n);
    CursorPointers(l, n, r, p, end);
    Descend(l, n, r, p);
    Descend(mid, x, a, hole);
    CursorPointers(mid, x, a, hole, end);
    CursorPointers(d, y, c, InLeft(hole, x, a), end);
    ExactChildren(d, y, c);
    AsideDown(l, n, r, p);
    RotateRightAt(n.right, d, y, c, a, hole, end, nodes);
    Descend(l, n, Branch(d, y, low), p);
    AsideDown(l, n, Branch(d, y, low), p);
    ExactChildren(d, y, low);
    RotateLeftAt(n, l, d, y, low, p, end, nodes);
  }

  /** The heights a climb compares at the node under the cursor. */
  lemma CursorHeights<T>(l: Tree<Node<T>>, n: Node<T>, r: Tree<Node<T>>, p: Path<Node<T>>, end: Node<T>)
    requires Apart(Branch(l, n, r), p) && Linked(Plug(Branch(l, n, r), p), end)
    requires Exact(l) && Exact(r)
    ensures n in Nodes(Plug(Branch(l, n, r), p))
    ensures n.left == Ptr(RootOf(l)) && n.right == Ptr(RootOf(r)) && n.parent == ParentPtr(ParentOf(p), end)
    ensures HeightOf(n.left) == Height(l) && HeightOf(n.right) == Height(r)
    ensures n.ChildHeight() == Height(Branch(l, n, r))
  {
    hide Apart, Plug, LinksIn, Exact;
    CursorPointers(l, n, r, p, end);
    RootHeight(l);
    RootHeight(r);
  }

  method AdjustHeight<T>(n: Node<T>, ghost l: Tree<Node<T>>, ghost r: Tree<Node<T>>, ghost p: Path<Node<T>>,
                         ghost end: Node<T>, ghost nodes: set<Node<T>>)
    requires Apart(Branch(l, n, r), p)
    requires Linked(Plug(Branch(l, n, r), p), end) && nodes == Nodes(Plug(Branch(l, n, r), p))
    requires Exact(l) && Exact(r) && ExactAside(p)
    modifies n`height
    ensures Linked(Plug(Branch(l, n, r), p), end)
    ensures Exact(l) && Exact(r) && Exact(Branch(l, n, r)) && ExactAside(p)
  {
    CursorHeights(l, n, r, p, end);
    n.height := n.ChildHeight();
    ExactBranch(l, n, r);
  }

  /** One step of the climb after an erasure: n has subtrees l and r. */
  method FixNode<T>(n: Node<T>, ghost l: Tree<Node<T>>, ghost r: Tree<Node<T>>, ghost p: Path<Node<T>>,
                    ghost end: Node<T>, ghost nodes: set<Node<T>>)
    returns (up: Node<T>, ghost t: Tree<Node<T>>)
    requires Apart(Branch(l, n, r), p)
    requires Linked(Plug(Branch(l, n, r), p), end) && nodes == Nodes(Plug(Branch(l, n, r), p))
    requires Exact(l) && Exact(r) && ExactAside(p)
    requires Balanced(l) && Balanced(r) && Height(l) <= Height(r) + 2 && Height(r) <= Height(l) + 2
    modifies nodes, end`left, end`right
    ensures Apart(t, p) && Linked(Plug(t, p), end) && nodes == Nodes(Plug(t, p))
    ensures Exact(t) && ExactAside(p) && Balanced(t) && t.Branch?
    ensures up == ParentPtr(ParentOf(p), end)
    ensures Inorder(t) == Inorder(Branch(l, n, r))
    ensures Near(Height(l), Height(r)) ==> Height(t) == Height(Branch(l, n, r))
    ensures !Near(Height(l), Height(r)) ==> Height(t) <= Height(Branch(l, n, r)) <= Height(t) + 1
  {
    hide Distinct, DistinctPath, Plug, Linked, Exact, ExactAside, PathNodes, LinksIn;
    CursorPointers(l, n, r, p, end);
    AdjustHeight(n, l, r, p, end, nodes);
    CursorHeights(l, n, r, p, end);
    Descend(l, n, r, p);
    var balance := HeightOf(n.left) - HeightOf(n.right);
    var top := n;
    if balance > 1 {
      ExactChildren(l.left, l.node, l.right);
      CursorHeights(l.left, l.node, l.right, InLeft(p, n, r), end);
      var single := HeightOf(n.left.left) >= HeightOf(n.left.right);
      t := FixLeftHeavy(n, single, l, r, p, end, nodes);
      top := n.parent;
    } else if balance < -1 {
      ExactChildren(r.left, r.node, r.right);
      CursorHeights(r.left, r.node, r.right, InRight(p, l, n), end);
      var single := HeightOf(n.right.right) >= HeightOf(n.right.left);
      t := FixRightHeavy(n, single, l, r, p, end, nodes);
      top := n.parent;
    } else {
      t := Branch(l, n, r);
    }
    CursorPointers(t.left, t.node, t.right, p, end);
    up := top.parent;
  }

  /** The climb stops exactly at the top of the path. */
  lemma EndOutside<T>(t: Tree<Node<T>>, p: Path<Node<T>>, end: Node<T>)
    requires Linked(Plug(t, p), end)
    ensures ParentPtr(ParentOf(p), end) == end <==> p.Top?
  {
    PlugNodes(t, p);
  }

  ghost function Fib(n: nat): nat {
    if n < 2 then n else Fib(n - 2) + Fib(n - 1)
  }

  lemma {:induction false} FibMonotone(m: nat, n: nat)
    requires m <= n
    ensures Fib(m) <= Fib(n)
    decreases n - m
  {
    if m < n {
      FibMonotone(m + 1, n);
    }
  }

  lemma InorderLength<N>(t: Tree<N>)
    requires t.Branch?
    ensures |Inorder(t)| == |Inorder(t.left)| + 1 + |Inorder(t.right)|
  {
  }

  /** A balanced tree has exponentially many elements in its height. */
  lemma {:induction false} FibonacciBound<N>(t: Tree<N>)
    requires Balanced(t)
    ensures |Inorder(t)| + 1 >= Fib(Height(t) + 2)
  {
    match t
    case Leaf =>
    case Branch(l, _, r) =>
      FibonacciBound(l);
      FibonacciBound(r);
      var h, hl, hr := Height(t), Height(l), Height(r);
      assert h == 1 + Max(hl, hr) && hl <= hr + 1 && hr <= hl + 1;
      assert Fib(h + 2) == Fib(h) + Fib(h + 1);
      InorderLength(t);
      hide *;
      FibMonotone(h, hl + 2);
      FibMonotone(h, hr + 2);
      assert h == 1 + hl || h == 1 + hr;
  }
}
