/** Attaching a new node to an AVL tree and climbing from it. */
module AvlInsert {
  import opened Arithmetic
  import opened Trees
  import opened Orders
  import opened AvlNodes
  import opened AvlBalance
  import opened AvlCursor

  function Key<T>(n: Node<T>): T
    requires n.value.Some?
  {
    n.value.value
  }

  /** The nodes of s have values, strictly increasing. */
  ghost predicate Sorted<T>(o: Order<T>, s: seq<Node<T>>) {
    && HaveValues(s)
    && (forall i, j :: 0 <= i < j < |s| ==> Less(o, Key(s[i]), Key(s[j])))
  }

  ghost predicate HaveValues<T>(s: seq<Node<T>>) {
    forall n <- s :: n.value.Some?
  }

  ghost function Keys<T>(s: seq<Node<T>>): (ks: seq<T>)
    requires HaveValues(s)
    ensures |ks| == |s| && forall i :: 0 <= i < |s| ==> ks[i] == Key(s[i])
  {
    seq(|s|, i requires 0 <= i < |s| => assert s[i] in s; Key(s[i]))
  }

  lemma SortedMiddle<T>(o: Order<T>, a: seq<Node<T>>, b: seq<Node<T>>, c: seq<Node<T>>)
    requires Sorted(o, a + b + c)
    ensures Sorted(o, b)
  {
    var s := a + b + c;
    forall n <- b ensures n.value.Some? { assert n in s; }
    forall i, j | 0 <= i < j < |b| ensures Less(o, Key(b[i]), Key(b[j])) {
      assert b[i] == s[|a| + i] && b[j] == s[|a| + j];
    }
  }

  /** While t is one higher than it was, it is the new node alone or higher on the new node's side. */
  ghost predicate Grown<N>(t: Tree<N>, added: N) {
    || t == Branch(Leaf, added, Leaf)
    || (t.Branch? && added in Nodes(t.left) && Height(t.left) == Height(t.right) + 1)
    || (t.Branch? && added in Nodes(t.right) && Height(t.right) == Height(t.left) + 1)
  }

  lemma SortedAround<T>(o: Order<T>, u: seq<Node<T>>, x: Node<T>, v: seq<Node<T>>)
    requires Sorted(o, u + [x] + v)
    ensures x.value.Some? && HaveValues(u) && HaveValues(v)
    ensures forall n <- u :: Less(o, Key(n), Key(x))
    ensures forall n <- v :: Less(o, Key(x), Key(n))
  {
    var s := u + [x] + v;
    assert s[|u|] == x;
    assert forall i :: 0 <= i < |u| ==> s[i] == u[i];
    assert forall i :: 0 <= i < |v| ==> s[|u| + 1 + i] == v[i];
    assert forall n <- s :: n.value.Some?;
    assert forall n <- u :: n in s;
    assert forall n <- v :: n in s;
  }

  lemma SortedSides<T>(o: Order<T>, a: Tree<Node<T>>, x: Node<T>, b: Tree<Node<T>>, n: Node<T>)
    requires Sorted(o, Inorder(Branch(a, x, b)))
    requires n in Nodes(a) || n in Nodes(b)
    ensures n.value.Some? && x.value.Some?
    ensures n in Nodes(a) ==> Less(o, Key(n), Key(x))
    ensures n in Nodes(b) ==> Less(o, Key(x), Key(n))
  {
    assert Inorder(Branch(a, x, b)) == Inorder(a) + [x] + Inorder(b);
    hide Sorted, Inorder, Nodes;
    SortedAround(o, Inorder(a), x, Inorder(b));
    if n in Nodes(a) {
      InNodes(a, n);
    }
    if n in Nodes(b) {
      InNodes(b, n);
    }
  }

  /** The comparison with the child's value tells which grandchild is the higher one. */
  lemma ComparisonDecides<T(!new)>(o: Order<T>, t: Tree<Node<T>>, added: Node<T>)
    requires StrictWeakOrder(o) && t.Branch? && Sorted(o, Inorder(t)) && Grown(t, added) && Height(t) >= 2
    ensures added.value.Some? && t.node.value.Some?
    ensures Less(o, Key(added), Key(t.node)) <==> Height(t.left) >= Height(t.right)
    ensures Less(o, Key(t.node), Key(added)) <==> Height(t.right) >= Height(t.left)
    ensures Height(t.left) != Height(t.right)
  {
    SortedSides(o, t.left, t.node, t.right, added);
  }

  /** One step of the climb after an insertion: n has subtrees l and r, one of them grown. */
  method FixInsert<T(!new)>(n: Node<T>, added: Node<T>, o: Order<T>, ghost l: Tree<Node<T>>, ghost r: Tree<Node<T>>,
                            ghost p: Path<Node<T>>, ghost end: Node<T>, ghost nodes: set<Node<T>>)
    returns (top: Node<T>, ghost t: Tree<Node<T>>)
    requires Apart(Branch(l, n, r), p)
    requires Linked(Plug(Branch(l, n, r), p), end) && nodes == Nodes(Plug(Branch(l, n, r), p))
    requires Exact(l) && Exact(r) && ExactAside(p)
    requires Balanced(l) && Balanced(r) && Height(l) <= Height(r) + 2 && Height(r) <= Height(l) + 2
    requires StrictWeakOrder(o) && Sorted(o, Inorder(l)) && Sorted(o, Inorder(r))
    requires Height(l) == Height(r) + 2 ==> Grown(l, added)
    requires Height(r) == Height(l) + 2 ==> Grown(r, added)
    requires added.value.Some?
    modifies nodes, end`left, end`right
    ensures Apart(t, p) && Linked(Plug(t, p), end) && nodes == Nodes(Plug(t, p))
    ensures Exact(t) && ExactAside(p) && Balanced(t) && t.Branch? && t.node == top
    ensures top.parent == ParentPtr(ParentOf(p), end)
    ensures Near(Height(l), Height(r)) ==> t == Branch(l, n, r)
    ensures !Near(Height(l), Height(r)) ==>
      Height(t) == Max(Height(l), Height(r)) && Inorder(t) == Inorder(Branch(l, n, r))
  {
    hide Distinct, DistinctPath, Plug, Linked, Exact, ExactAside, PathNodes, LinksIn, Inorder, Sorted, Grown, StrictWeakOrder;
    CursorPointers(l, n, r, p, end);
    AdjustHeight(n, l, r, p, end, nodes);
    CursorHeights(l, n, r, p, end);
    var balance := HeightOf(n.left) - HeightOf(n.right);
    top := n;
    if balance > 1 {
      ComparisonDecides(o, l, added);
      var single := Less(o, Key(added), Key(n.left));
      t := FixLeftHeavy(n, single, l, r, p, end, nodes);
      top := n.parent;
    } else if balance < -1 {
      ComparisonDecides(o, r, added);
      var single := Less(o, Key(n.right), Key(added));
      t := FixRightHeavy(n, single, l, r, p, end, nodes);
      top := n.parent;
    } else {
      t := Branch(l, n, r);
    }
    RootPointers(t, p, end);
  }

  lemma SortedParts<T>(o: Order<T>, l: Tree<Node<T>>, n: Node<T>, r: Tree<Node<T>>, p: Path<Node<T>>)
    requires Sorted(o, Inorder(Plug(Branch(l, n, r), p)))
    ensures Sorted(o, Inorder(l)) && Sorted(o, Inorder(r))
  {
    hide Sorted, Plug;
    var u := Branch(l, n, r);
    PlugInorder(u, p);
    SortedMiddle(o, Before(p), Inorder(u), After(p));
    assert [] + Inorder(l) + ([n] + Inorder(r)) == Inorder(u);
    SortedMiddle(o, [], Inorder(l), [n] + Inorder(r));
    assert Inorder(l) + [n] + Inorder(r) + [] == Inorder(u);
    SortedMiddle(o, Inorder(l) + [n], Inorder(r), []);
  }

  lemma SingleNode<T>(n: Node<T>)
    requires n.height == 1
    ensures var t := Branch(Leaf, n, Leaf);
      Exact(t) && Balanced(t) && Height(t) == 1 && Grown(t, n) && n in Nodes(t) && Inorder(t) == [n]
  {
  }

  /** The climb has reached the subtree t, which was h high before the insertion. */
  ghost predicate Climbing<T>(t: Tree<Node<T>>, p: Path<Node<T>>, h: nat, added: Node<T>, end: Node<T>,
                              all: seq<Node<T>>)
    reads end, Nodes(t), PathNodes(p), Nodes(Plug(t, p))
  {
    && Apart(t, p) && Linked(Plug(t, p), end) && Inorder(Plug(t, p)) == all
    && Exact(t) && ExactAside(p) && Balanced(t) && PathBalanced(p, h)
    && h <= Height(t) <= h + 1 && (Height(t) == h + 1 ==> Grown(t, added)) && added in Nodes(t)
  }

  method ClimbStep<T(!new)>(upping: Node<T>, added: Node<T>, o: Order<T>, ghost t0: Tree<Node<T>>,
                            ghost p: Path<Node<T>>, ghost h: nat, ghost end: Node<T>,
                            ghost nodes: set<Node<T>>, ghost all: seq<Node<T>>)
    returns (top: Node<T>, ghost t: Tree<Node<T>>, ghost h': nat, ghost rotated: bool)
    requires Climbing(t0, p, h, added, end, all) && nodes == Nodes(Plug(t0, p))
    requires !p.Top? && upping == p.node && StrictWeakOrder(o) && Sorted(o, all) && added.value.Some?
    modifies nodes, end`left, end`right
    ensures Climbing(t, p.up, h', added, end, all) && nodes == Nodes(Plug(t, p.up))
    ensures t.Branch? && t.node == top && top.parent == ParentPtr(ParentOf(p.up), end)
    ensures rotated <==> t != Above(t0, p)
    ensures rotated ==> Height(t0) == h + 1 && Height(t) == h'
    ensures Height(t0) == h ==> Height(t) == h'
  {
    hide Distinct, DistinctPath, Apart, Plug, LinksIn, Linked, PathNodes, Sides, ExactAside, NodeLinked,
         StrictWeakOrder, Sorted, Before, After, Inorder, Exact;
    ghost var l, r := if p.InLeft? then t0 else p.left, if p.InLeft? then p.right else t0;
    ghost var u := Branch(l, upping, r);
    Ascend(t0, p);
    AsideDown(l, upping, r, p.up);
    SortedParts(o, l, upping, r, p.up);
    h' := 1 + Max(h, if p.InLeft? then Height(r) else Height(l));
    rotated := !Near(Height(l), Height(r));
    top, t := FixInsert(upping, added, o, l, r, p.up, end, nodes);
    SameInorder(u, t, p.up);
    InNodes(u, added);
    InNodes(t, added);
  }

  /** Where the climb stands: the subtree it has reached and the path above. */
  datatype Cursor<N> = Cursor(tree: Tree<N>, path: Path<N>)

  ghost predicate Ascends<N>(climb: seq<Cursor<N>>) {
    forall i :: 0 <= i < |climb| - 1 ==> !climb[i].path.Top? && climb[i + 1].path == climb[i].path.up
  }

  /** The steps after which the subtree is not the one the step has found. */
  ghost function Rebalancings<N>(climb: seq<Cursor<N>>): nat
    requires Ascends(climb)
  {
    if |climb| < 2 then 0
    else
      var m := |climb| - 1;
      Rebalancings(climb[..m]) + if climb[m].tree == Above(climb[m - 1].tree, climb[m - 1].path) then 0 else 1
  }

  lemma OneStepMore<N>(climb: seq<Cursor<N>>, c: Cursor<N>)
    requires Ascends(climb) && climb != []
    requires var last := climb[|climb| - 1]; !last.path.Top? && c.path == last.path.up
    ensures Ascends(climb + [c])
    ensures var last := climb[|climb| - 1];
      Rebalancings(climb + [c]) == Rebalancings(climb) + if c.tree == Above(last.tree, last.path) then 0 else 1
  {
    assert (climb + [c])[..|climb|] == climb;
  }

  /** The climb after an insertion, with every place it has stood at: it rebalances at most once. */
  method Climb<T(!new)>(added: Node<T>, o: Order<T>, ghost p0: Path<Node<T>>, end: Node<T>,
                        ghost nodes: set<Node<T>>)
    returns (ghost t: Tree<Node<T>>, ghost climb: seq<Cursor<Node<T>>>)
    requires Apart(Branch(Leaf, added, Leaf), p0) && Linked(Plug(Branch(Leaf, added, Leaf), p0), end)
    requires nodes == Nodes(Plug(Branch(Leaf, added, Leaf), p0))
    requires added.height == 1 && added.value.Some? && ExactAside(p0) && PathBalanced(p0, 0)
    requires StrictWeakOrder(o) && Sorted(o, Before(p0) + [added] + After(p0))
    modifies nodes, end`left, end`right
    ensures Distinct(t) && Linked(t, end) && Exact(t) && Balanced(t) && nodes == Nodes(t)
    ensures Inorder(t) == Before(p0) + [added] + After(p0)
    ensures Ascends(climb) && climb != [] && climb[0] == Cursor(Branch(Leaf, added, Leaf), p0)
    ensures climb[|climb| - 1] == Cursor(t, Top) && Rebalancings(climb) <= 1
  {
    hide Distinct, DistinctPath, Apart, Plug, LinksIn, Linked, PathNodes, Sides, ExactAside, NodeLinked,
         StrictWeakOrder, Sorted, Before, After, Inorder, Exact, Grown, PathBalanced;
    t := Branch(Leaf, added, Leaf);
    climb := [Cursor(t, p0)];
    var upping := added;
    ghost var p, all := p0, Before(p0) + [added] + After(p0);
    ghost var h: nat := 0;
    SingleNode(added);
    RootPointers(t, p, end);
    EndOutside(t, p, end);
    PlugInorder(t, p);
    assert Ascends(climb) && Rebalancings(climb) == 0;
    hide Ascends, Rebalancings, Above;
    while upping.parent != end
      invariant t.Branch? && t.node == upping && upping.parent == ParentPtr(ParentOf(p), end)
      invariant Climbing(t, p, h, added, end, all) && nodes == Nodes(Plug(t, p))
      invariant Ascends(climb) && climb != [] && climb[|climb| - 1] == Cursor(t, p)
      invariant climb[0] == Cursor(Branch(Leaf, added, Leaf), p0)
      invariant Rebalancings(climb) <= 1 && (Rebalancings(climb) == 1 ==> Height(t) == h)
      invariant upping.parent == end <==> p.Top?
      decreases p
    {
      upping := upping.parent;
      ghost var rotated;
      upping, t, h, rotated := ClimbStep(upping, added, o, t, p, h, end, nodes, all);
      OneStepMore(climb, Cursor(t, p.up));
      climb := climb + [Cursor(t, p.up)];
      p := p.up;
      EndOutside(t, p, end);
    }
    PlugDistinct(t, p);
    PlugTop(t, p);
  }

  // Hanging a leaf into a hole.

  lemma AttachedLinked<T>(p: Path<Node<T>>, added: Node<T>, end: Node<T>)
    requires Apart(Leaf, p) && added !in Nodes(Plug(Leaf, p)) && added != end && end !in Nodes(Plug(Leaf, p))
    requires forall n <- Nodes(Plug(Leaf, p)) :: NodeLinked(n, var o := LinksIn(Plug(Leaf, p), n, None);
      if Some(n) == ParentOf(p) then SetChild(o, p, Some(added)) else o, end)
    requires NodeLinked(added, Links(None, None, ParentOf(p)), end)
    requires end.left == if p.Top? then added else Ptr(RootOf(Plug(Leaf, p)))
    ensures var u := Branch(Leaf, added, Leaf);
      Apart(u, p) && Linked(Plug(u, p), end) && Nodes(Plug(u, p)) == Nodes(Plug(Leaf, p)) + {added}
  {
    var u := Branch(Leaf, added, Leaf);
    PlugNodes(Leaf, p);
    PlugNodes(u, p);
    PlugRoot(u, p, Leaf);
    CursorLinks(Leaf, added, Leaf, p);
    forall n <- Nodes(Plug(u, p)) ensures NodeLinked(n, LinksIn(Plug(u, p), n, None), end) {
      if n != added { AttachLinks(p, added, n); }
    }
  }

  /** parent is where the hole of p hangs. */
  method Attach<T>(parent: Node<T>, added: Node<T>, onLeft: bool, ghost p: Path<Node<T>>, ghost end: Node<T>,
                   ghost nodes: set<Node<T>>)
    requires Apart(Leaf, p) && Linked(Plug(Leaf, p), end) && nodes == Nodes(Plug(Leaf, p))
    requires parent == ParentPtr(ParentOf(p), end) && (onLeft <==> !p.InRight?)
    requires added !in nodes && added != end && added.left == null && added.right == null
    modifies parent`left, parent`right, added`parent
    ensures var u := Branch(Leaf, added, Leaf);
      Apart(u, p) && Linked(Plug(u, p), end) && Nodes(Plug(u, p)) == nodes + {added}
    ensures if onLeft then parent.left == added else parent.right == added
  {
    hide Distinct, DistinctPath, Apart, Plug, LinksIn;
    PlugRoot(Leaf, p, Leaf);
    PlugNodes(Leaf, p);
    if onLeft {
      parent.left := added;
    } else {
      parent.right := added;
    }
    added.parent := parent;
    forall n <- nodes ensures NodeLinked(n, var o := LinksIn(Plug(Leaf, p), n, None);
      if Some(n) == ParentOf(p) then SetChild(o, p, Some(added)) else o, end)
    {
      assert old(NodeLinked(n, LinksIn(Plug(Leaf, p), n, None), end));
    }
    AttachedLinked(p, added, end);
  }
}
