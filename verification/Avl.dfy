/** The AVL tree container. */
module Avl {
  import opened Sequences
  import opened Trees
  import opened Orders
  import opened AvlNodes
  import opened AvlBalance
  import opened AvlCursor
  import AvlErase
  import opened AvlInsert

  /** s[k] is where key belongs: everything before is less than key, nothing from k on is. */
  ghost predicate IsLowerBound<T>(o: Order<T>, s: seq<Node<T>>, key: T, k: nat)
    requires Sorted(o, s)
  {
    && k <= |s|
    && (forall j :: 0 <= j < k ==> Less(o, Key(s[j]), key))
    && (forall j :: k <= j < |s| ==> !Less(o, Key(s[j]), key))
  }

  lemma SortedKeys<T>(o: Order<T>, s: seq<Node<T>>)
    requires HaveValues(s)
    ensures Sorted(o, s) <==> Increasing(o, Keys(s))
  {
    var ks := Keys(s);
    if Sorted(o, s) {
      assert forall i, j :: 0 <= i < j < |ks| ==> Less(o, ks[i], ks[j]);
    }
    if Increasing(o, ks) {
      forall i, j | 0 <= i < j < |s| ensures Less(o, Key(s[i]), Key(s[j])) { assert Less(o, ks[i], ks[j]); }
    }
  }

  /** A node at the place its key belongs makes one step of the reference insertion. */
  lemma InsertedKeys<T(!new)>(o: Order<T>, s: seq<Node<T>>, n: Node<T>, k: nat)
    requires StrictWeakOrder(o) && Sorted(o, s) && k <= |s| && n.value.Some?
    requires k > 0 ==> Less(o, Key(s[k - 1]), Key(n))
    requires k < |s| ==> Less(o, Key(n), Key(s[k]))
    ensures var u := s[..k] + [n] + s[k..];
      Sorted(o, u) && Keys(u) == InsertKey(o, Keys(s), Key(n)) && !ContainsKey(o, Keys(s), Key(n))
  {
    hide StrictWeakOrder, ContainsKey, InsertKey;
    var ks, u := Keys(s), s[..k] + [n] + s[k..];
    InsertKeyAt(o, ks, Key(n), k);
    InsertedIncreasing(o, ks, Key(n), k);
    assert HaveValues(u);
    assert Keys(u) == ks[..k] + [Key(n)] + ks[k..];
    SortedKeys(o, u);
  }

  lemma RefusedKeys<T(!new)>(o: Order<T>, s: seq<Node<T>>, key: T, k: nat)
    requires StrictWeakOrder(o) && Sorted(o, s) && k < |s| && Equivalent(o, Key(s[k]), key)
    ensures InsertKey(o, Keys(s), key) == Keys(s) && ContainsKey(o, Keys(s), key)
  {
    assert Keys(s)[k] == Key(s[k]);
    InsertKeyPresent(o, Keys(s), key);
  }

  /** The nodes around the hole of p are on their side of key. */
  ghost predicate Divided<T>(o: Order<T>, p: Path<Node<T>>, key: T) {
    && (forall n <- Before(p) :: n.value.Some? && Less(o, Key(n), key))
    && (forall n <- After(p) :: n.value.Some? && !Less(o, Key(n), key))
  }

  lemma DividedAtTop<T>(o: Order<T>, key: T)
    ensures Divided(o, Top, key)
  {
  }

  lemma DivideFurther<T(!new)>(o: Order<T>, sub: Trees.Tree<Node<T>>, p: Path<Node<T>>, key: T)
    requires StrictWeakOrder(o) && sub.Branch? && Divided(o, p, key) && Sorted(o, Inorder(Plug(sub, p)))
    ensures sub.node.value.Some?
    ensures !Less(o, Key(sub.node), key) ==> Divided(o, InLeft(p, sub.node, sub.right), key)
                                             && After(InLeft(p, sub.node, sub.right)) != []
                                             && After(InLeft(p, sub.node, sub.right))[0] == sub.node
    ensures Less(o, Key(sub.node), key) ==> Divided(o, InRight(p, sub.left, sub.node), key)
  {
    hide Plug;
    var l, n, r := sub.left, sub.node, sub.right;
    PlugInorder(sub, p);
    SortedMiddle(o, Before(p), Inorder(sub), After(p));
    assert Inorder(sub) == Inorder(l) + [n] + Inorder(r) && Inorder(sub)[|Inorder(l)|] == n;
    forall m <- Inorder(l) ensures m.value.Some? && Less(o, Key(m), Key(n)) {
      InNodes(l, m);
      SortedSides(o, l, n, r, m);
    }
    forall m <- Inorder(r) ensures m.value.Some? && Less(o, Key(n), Key(m)) {
      InNodes(r, m);
      SortedSides(o, l, n, r, m);
    }
  }

  lemma DividedIsLowerBound<T>(o: Order<T>, p: Path<Node<T>>, key: T)
    requires Divided(o, p, key) && Sorted(o, Inorder(Plug(Leaf, p)))
    ensures var s := Inorder(Plug(Leaf, p));
      IsLowerBound(o, s, key, |Before(p)|) && s[|Before(p)|..] == After(p)
  {
    PlugInorder(Leaf, p);
  }

  lemma HoleState<T>(t: Trees.Tree<Node<T>>, p: Path<Node<T>>)
    requires Apart(Leaf, p) && Plug(Leaf, p) == t && Exact(t) && Balanced(t)
    ensures ExactAside(p) && PathBalanced(p, 0)
  {
    ExactSplit(Leaf, p);
    BalancedPlug(Leaf, p);
  }

  /** Cursors at different positions are different. */
  lemma CursorsDiffer<T>(t: Trees.Tree<Node<T>>, end: Node<T>, i: nat, j: nat)
    requires Distinct(t) && Linked(t, end) && i <= |Inorder(t)| && j <= |Inorder(t)|
    ensures At(Inorder(t), i, end) == At(Inorder(t), j, end) <==> i == j
  {
    InorderNoRepeats(t);
    InNodes(t, end);
    var s := Inorder(t);
    assert i < |s| ==> s[i] in s && s[i] != end;
    assert j < |s| ==> s[j] in s && s[j] != end;
  }

  lemma SortedWithout<T>(o: Order<T>, s: seq<Node<T>>, i: nat)
    requires Sorted(o, s) && i < |s|
    ensures Sorted(o, s[..i] + s[i + 1..])
  {
    var u := s[..i] + s[i + 1..];
    assert forall k :: 0 <= k < |u| ==> u[k] == if k < i then s[k] else s[k + 1];
  }

  /** The nodes around the hole of p are on their side of the upper bound of key. */
  ghost predicate DividedAbove<T>(o: Order<T>, p: Path<Node<T>>, key: T) {
    && (forall n <- Before(p) :: n.value.Some? && !Less(o, key, Key(n)))
    && (forall n <- After(p) :: n.value.Some? && Less(o, key, Key(n)))
  }

  lemma DividedAboveAtTop<T>(o: Order<T>, key: T)
    ensures DividedAbove(o, Top, key)
  {
  }

  lemma DivideAboveFurther<T(!new)>(o: Order<T>, sub: Trees.Tree<Node<T>>, p: Path<Node<T>>, key: T)
    requires StrictWeakOrder(o) && sub.Branch? && DividedAbove(o, p, key) && Sorted(o, Inorder(Plug(sub, p)))
    ensures sub.node.value.Some?
    ensures Less(o, key, Key(sub.node)) ==> DividedAbove(o, InLeft(p, sub.node, sub.right), key)
                                            && After(InLeft(p, sub.node, sub.right)) != []
                                            && After(InLeft(p, sub.node, sub.right))[0] == sub.node
    ensures !Less(o, key, Key(sub.node)) ==> DividedAbove(o, InRight(p, sub.left, sub.node), key)
  {
    hide Plug;
    var l, n, r := sub.left, sub.node, sub.right;
    PlugInorder(sub, p);
    SortedMiddle(o, Before(p), Inorder(sub), After(p));
    assert Inorder(sub) == Inorder(l) + [n] + Inorder(r) && Inorder(sub)[|Inorder(l)|] == n;
    forall m <- Inorder(l) ensures m.value.Some? && Less(o, Key(m), Key(n)) {
      InNodes(l, m);
      SortedSides(o, l, n, r, m);
    }
    forall m <- Inorder(r) ensures m.value.Some? && Less(o, Key(n), Key(m)) {
      InNodes(r, m);
      SortedSides(o, l, n, r, m);
    }
  }

  lemma DividedIsUpperBound<T>(o: Order<T>, p: Path<Node<T>>, key: T)
    requires DividedAbove(o, p, key) && Sorted(o, Inorder(Plug(Leaf, p)))
    ensures var s, k := Inorder(Plug(Leaf, p)), |Before(p)|;
      && k <= |s| && s[k..] == After(p)
      && forall j :: 0 <= j < |s| ==> (Less(o, key, Key(s[j])) <==> k <= j)
  {
    PlugInorder(Leaf, p);
  }

  /** Past the lower bound and before a greater key, there is no equivalent key. */
  lemma NotThere<T(!new)>(o: Order<T>, s: seq<Node<T>>, key: T, k: nat)
    requires StrictWeakOrder(o) && Sorted(o, s) && IsLowerBound(o, s, key, k)
    requires k < |s| ==> Less(o, key, Key(s[k]))
    ensures !ContainsKey(o, Keys(s), key)
  {
    forall i | 0 <= i < |s| ensures !Equivalent(o, Keys(s)[i], key) {
      assert k < i ==> Less(o, Key(s[k]), Key(s[i]));
    }
  }

  lemma BoundIsMultiPlace<T(!new)>(o: Order<T>, s: seq<Node<T>>, key: T, k: nat)
    requires StrictWeakOrder(o) && Sorted(o, s) && IsLowerBound(o, s, key, k)
    ensures k == |s| || !Less(o, Key(s[k]), key)
    ensures k == 0 || !Less(o, key, Key(s[k - 1]))
    ensures k < |s| && !Less(o, key, Key(s[k])) ==> Equivalent(o, Key(s[k]), key)
  {
  }

  /** A place that is right but for uniqueness is next to an equivalent key. */
  lemma RefusedAt<T(!new)>(o: Order<T>, s: seq<Node<T>>, key: T, k: nat)
    requires StrictWeakOrder(o) && Sorted(o, s) && k <= |s|
    requires (k == |s| || !Less(o, Key(s[k]), key)) && (k == 0 || !Less(o, key, Key(s[k - 1])))
    requires !((k == |s| || Less(o, key, Key(s[k]))) && (k == 0 || Less(o, Key(s[k - 1]), key)))
    ensures InsertKey(o, Keys(s), key) == Keys(s) && ContainsKey(o, Keys(s), key)
  {
    if k < |s| && !Less(o, key, Key(s[k])) {
      RefusedKeys(o, s, key, k);
    } else {
      RefusedKeys(o, s, key, k - 1);
    }
  }

  /** Only unlinked nodes have no parent. */
  lemma LinkedParent<T>(t: Trees.Tree<Node<T>>, end: Node<T>, i: nat)
    requires Linked(t, end) && i < |Inorder(t)|
    ensures Inorder(t)[i] in Nodes(t) && Inorder(t)[i].parent != null
  {
    InNodes(t, Inorder(t)[i]);
    assert NodeLinked(Inorder(t)[i], LinksIn(t, Inorder(t)[i], None), end);
  }

  /** Between the bounds of key are the nodes equivalent to it, one at the most. */
  lemma EqualRange<T(!new)>(o: Order<T>, s: seq<Node<T>>, key: T, i: nat, j: nat)
    requires StrictWeakOrder(o) && Sorted(o, s) && IsLowerBound(o, s, key, i) && j <= |s|
    requires forall k :: 0 <= k < |s| ==> (Less(o, key, Key(s[k])) <==> j <= k)
    ensures i <= j && j - i == if ContainsKey(o, Keys(s), key) then 1 else 0
    ensures forall n :: n in s[..i] + s[j..] <==> n in s && !Equivalent(o, Key(n), key)
  {
    assert j < |s| ==> !Less(o, Key(s[j]), key);
    assert i + 1 < |s| ==> Less(o, Key(s[i]), Key(s[i + 1]));
    assert i <= j <= i + 1;
    if i < j { assert Equivalent(o, Keys(s)[i], key); }
    forall k | 0 <= k < |s| ensures Equivalent(o, Key(s[k]), key) <==> i <= k < j {}
    forall n ensures n in s[..i] + s[j..] <==> n in s && !Equivalent(o, Key(n), key) {
      if n in s[..i] + s[j..] {
        var k :| 0 <= k < |s| && s[k] == n && (k < i || j <= k);
      }
      if n in s && !Equivalent(o, Key(n), key) {
        var k :| 0 <= k < |s| && s[k] == n;
        assert k < i ==> n == s[..i][k];
        assert k >= j ==> n == s[j..][k - j];
      }
    }
  }

  lemma NotLessChain<T(!new)>(o: Order<T>, x: T, y: T, z: T)
    requires StrictWeakOrder(o) && !Less(o, x, y) && !Less(o, y, z)
    ensures !Less(o, x, z)
  {
  }

  lemma RootMeansElements<T>(t: Trees.Tree<Node<T>>)
    ensures Ptr(RootOf(t)) == null <==> Inorder(t) == []
  {
  }

  /** The tree t hangs from end once its root does. */
  lemma Rehung<T>(t: Trees.Tree<Node<T>>, before: Node<T>, end: Node<T>)
    requires Distinct(t) && end !in Nodes(t) && end.left == Ptr(RootOf(t))
    requires forall n <- Nodes(t) :: var k := LinksIn(t, n, None);
      && n.left == Ptr(k.left) && n.right == Ptr(k.right)
      && n.parent == if Some(n) == RootOf(t) then end else ParentPtr(k.parent, before)
    ensures Linked(t, end)
  {
    forall n <- Nodes(t) ensures NodeLinked(n, LinksIn(t, n, None), end) {
      LinksMutual(t, n, None);
    }
  }

  /** Exchange what two end nodes hold and give the roots their new parents. */
  method SwapEndNodes<T>(a: Node<T>, b: Node<T>, ghost t: Trees.Tree<Node<T>>, ghost u: Trees.Tree<Node<T>>,
                         ghost nodes: set<Node<T>>, ghost others: set<Node<T>>)
    requires Linked(t, a) && Linked(u, b) && Distinct(t) && Distinct(u) && nodes == Nodes(t) && others == Nodes(u)
    requires if a == b then t == u else nodes !! others && a !in others && b !in nodes
    modifies a`left, b`left, nodes`parent, others`parent
    ensures Linked(u, a) && Linked(t, b)
    ensures a.left == Ptr(RootOf(u)) && b.left == Ptr(RootOf(t))
  {
    hide Distinct, LinksIn;
    a.left, b.left := b.left, a.left;
    if a.left != null {
      a.left.parent := a;
    }
    if b.left != null {
      b.left.parent := b;
    }
    forall n <- nodes ensures var k := LinksIn(t, n, None);
      && n.left == Ptr(k.left) && n.right == Ptr(k.right)
      && n.parent == if Some(n) == RootOf(t) then b else ParentPtr(k.parent, a)
    {
      assert old(NodeLinked(n, LinksIn(t, n, None), a));
    }
    forall n <- others ensures var k := LinksIn(u, n, None);
      && n.left == Ptr(k.left) && n.right == Ptr(k.right)
      && n.parent == if Some(n) == RootOf(u) then a else ParentPtr(k.parent, b)
    {
      assert old(NodeLinked(n, LinksIn(u, n, None), b));
    }
    Rehung(t, a, b);
    Rehung(u, b, a);
  }

  method IsSorted<T>(o: Order<T>, range: seq<T>) returns (sorted: bool)
    ensures sorted <==> forall i :: 0 < i < |range| ==> !Less(o, range[i], range[i - 1])
  {
    var next := 1;
    while next < |range|
      invariant 1 <= next && (next <= |range| || range == [])
      invariant forall i :: 0 < i < next && i < |range| ==> !Less(o, range[i], range[i - 1])
    {
      if Less(o, range[next], range[next - 1]) {
        return false;
      }
      next := next + 1;
    }
    sorted := true;
  }

  class Tree<T(!new)> {
    const end: Node<T>
    var order: Order<T>
    var start: Node<T>
    var size: nat
    ghost var shape: Trees.Tree<Node<T>>
    ghost var nodes: set<Node<T>>

    /** Everything but the element count. */
    ghost predicate Shaped()
      reads this, end, nodes
    {
      && nodes == Nodes(shape) && Distinct(shape) && Linked(shape, end)
      && Exact(shape) && Balanced(shape)
      && StrictWeakOrder(order) && Sorted(order, Inorder(shape))
      && start == At(Inorder(shape), 0, end)
    }

    ghost predicate Valid()
      reads this, end, nodes
    {
      Shaped() && size == |Inorder(shape)|
    }

    constructor (o: Order<T>)
      requires StrictWeakOrder(o)
      ensures Valid() && order == o && Inorder(shape) == [] && fresh(end)
    {
      var e := new Node<T>(None);
      end, start, order, size := e, e, o, 0;
      shape, nodes := Leaf, {};
    }

    method LowerBound(key: T) returns (res: Node<T>, ghost k: nat)
      requires Shaped()
      ensures IsLowerBound(order, Inorder(shape), key, k) && res == At(Inorder(shape), k, end)
    {
      hide Linked, Exact, Balanced, Distinct, Apart, Plug, Inorder, Before, After, Divided, Sorted;
      AtTop(shape, end);
      var root := end.left;
      res := end;
      ghost var sub, p := shape, Top;
      DividedAtTop(order, key);
      while root != null
        invariant Shaped() && Apart(sub, p) && Plug(sub, p) == shape && root == Ptr(RootOf(sub))
        invariant Divided(order, p, key) && res == At(After(p), 0, end)
        decreases sub
      {
        RootPointers(sub, p, end);
        StepDown(sub, p);
        DivideFurther(order, sub, p, key);
        if !Less(order, Key(root), key) {
          res := root;
          root := root.left;
          sub, p := sub.left, InLeft(p, sub.node, sub.right);
        } else {
          root := root.right;
          sub, p := sub.right, InRight(p, sub.left, sub.node);
        }
      }
      k := |Before(p)|;
      DividedIsLowerBound(order, p, key);
    }

    /** Hang added, whose key belongs there, in front of position i, and climb, rebalancing at most once. */
    method InsertNodeAt(pos: Node<T>, added: Node<T>, ghost i: nat)
      returns (res: Node<T>, ghost climb: seq<Cursor<Node<T>>>)
      requires Shaped() && i <= |Inorder(shape)| && pos == At(Inorder(shape), i, end)
      requires added !in nodes && added != end && added.left == null && added.right == null && added.height == 1
      requires added.value.Some?
      requires Sorted(order, Inorder(shape)[..i] + [added] + Inorder(shape)[i..])
      modifies this`start, this`shape, this`nodes, end, nodes, added
      ensures Shaped() && Inorder(shape) == old(Inorder(shape))[..i] + [added] + old(Inorder(shape))[i..]
      ensures nodes == old(nodes) + {added} && res == added
      ensures Ascends(climb) && climb != [] && climb[0].tree == Branch(Leaf, added, Leaf)
      ensures climb[|climb| - 1] == Cursor(shape, Top) && Rebalancings(climb) <= 1
    {
      hide Distinct, DistinctPath, Apart, Plug, LinksIn, Linked, PathNodes, Nodes, Sides, Inorder,
           Before, After, ExactAside, NodeLinked, Balanced, PathBalanced, Sorted, StrictWeakOrder, Ascends, Rebalancings;
      ghost var s := Inorder(shape);
      CursorsDiffer(shape, end, i, 0);
      ghost var t, p := HoleBefore(shape, pos, i, end);
      if pos.left != null {
        var l;
        ghost var ll, q;
        l, ll, q := GotoTreeMax(pos.left, t, p, end);
        RootPointers(Branch(ll, l, Leaf), q, end);
        StepDown(Branch(ll, l, Leaf), q);
        p := InRight(q, ll, l);
        Attach(l, added, false, p, end, nodes);
        res := l.right;
        assert i != 0 by { NonEmptyInorder(t); }
      } else {
        Attach(pos, added, true, p, end, nodes);
        if pos == start {
          start := added;
        }
        res := pos.left;
      }
      EmptyInorder(Trees.Tree<Node<T>>.Leaf);
      assert Before(p) == s[..i] && After(p) == s[i..];
      nodes := nodes + {added};
      HoleState(shape, p);
      shape, climb := Climb(added, order, p, end, nodes);
    }

    /** key may stand in front of position i, keeping the keys increasing. */
    ghost predicate UniquePlace(key: T, i: nat)
      requires Sorted(order, Inorder(shape)) && i <= |Inorder(shape)|
      reads this
    {
      var s := Inorder(shape);
      (i == |s| || Less(order, key, Key(s[i]))) && (i == 0 || Less(order, Key(s[i - 1]), key))
    }

    ghost predicate MultiPlace(key: T, i: nat)
      requires Sorted(order, Inorder(shape)) && i <= |Inorder(shape)|
      reads this
    {
      var s := Inorder(shape);
      (i == |s| || !Less(order, Key(s[i]), key)) && (i == 0 || !Less(order, key, Key(s[i - 1])))
    }

    method IsRightInsertUniquePlace(pos: Node<T>, key: T, ghost i: nat) returns (b: bool)
      requires Shaped() && i <= |Inorder(shape)| && pos == At(Inorder(shape), i, end)
      ensures b == UniquePlace(key, i)
    {
      hide Distinct, Linked, Exact, Balanced, Nodes, Inorder, StrictWeakOrder;
      CursorsDiffer(shape, end, i, |Inorder(shape)|);
      CursorsDiffer(shape, end, i, 0);
      if pos == end || Less(order, key, Key(pos)) {
        if pos == start {
          b := true;
        } else {
          var before := Prev(pos, shape, end, i);
          b := Less(order, Key(before), key);
        }
      } else {
        b := false;
      }
    }

    method IsRightInsertMultiPlace(pos: Node<T>, key: T, ghost i: nat) returns (b: bool)
      requires Shaped() && i <= |Inorder(shape)| && pos == At(Inorder(shape), i, end)
      ensures b == MultiPlace(key, i)
    {
      hide Distinct, Linked, Exact, Balanced, Nodes, Inorder, StrictWeakOrder;
      CursorsDiffer(shape, end, i, |Inorder(shape)|);
      CursorsDiffer(shape, end, i, 0);
      if pos == end || !Less(order, Key(pos), key) {
        if pos == start {
          b := true;
        } else {
          var before := Prev(pos, shape, end, i);
          b := !Less(order, key, Key(before));
        }
      } else {
        b := false;
      }
    }

    method AllocateAndConstructNode(v: T) returns (n: Node<T>)
      requires Shaped()
      modifies this`size
      ensures Shaped() && size == old(size) + 1
      ensures fresh(n) && n.value == Some(v)
      ensures n.left == null && n.right == null && n.parent == null && n.height == 1
    {
      n := new Node<T>(Some(v));
      size := size + 1;
    }

    /** node either was never linked, or is the i-th of the tree. */
    method DestroyAndDeallocateNode(node: Node<T>, ghost i: nat)
      requires Shaped() && size > 0
      requires if node.parent == null then node !in nodes else i < |Inorder(shape)| && Inorder(shape)[i] == node
      modifies this`start, this`size, this`shape, this`nodes, end, nodes
      ensures Shaped() && size == old(size) - 1
      ensures old(node.parent) == null ==> Inorder(shape) == old(Inorder(shape)) && nodes == old(nodes)
      ensures old(node.parent) != null ==>
        && Inorder(shape) == old(Inorder(shape))[..i] + old(Inorder(shape))[i + 1..]
        && nodes == old(nodes) - {node}
    {
      hide Distinct, Linked, Exact, Balanced, Nodes, Inorder, Sorted, StrictWeakOrder;
      if node.parent == null {
        size := size - 1;
        return;
      }
      CursorsDiffer(shape, end, i, 0);
      if node == start {
        start := Next(node, shape, end, i);
      }
      SortedWithout(order, Inorder(shape), i);
      shape := AvlErase.EraseNode(node, shape, i, end, nodes);
      nodes := nodes - {node};
      size := size - 1;
    }

    /** The cached height of the root is at most logarithmic in the size. */
    lemma SizeBound()
      requires Valid()
      ensures size + 1 >= Fib(HeightOf(end.left) + 2)
    {
      RootHeight(shape);
      FibonacciBound(shape);
    }

    // The operations of the container.

    method UpperBound(key: T) returns (res: Node<T>, ghost k: nat)
      requires Shaped()
      ensures k <= |Inorder(shape)| && res == At(Inorder(shape), k, end)
      ensures forall j :: 0 <= j < |Inorder(shape)| ==> (Less(order, key, Key(Inorder(shape)[j])) <==> k <= j)
    {
      hide Linked, Exact, Balanced, Distinct, Apart, Plug, Inorder, Before, After, DividedAbove, Sorted;
      AtTop(shape, end);
      var root := end.left;
      res := end;
      ghost var sub, p := shape, Top;
      DividedAboveAtTop(order, key);
      while root != null
        invariant Shaped() && Apart(sub, p) && Plug(sub, p) == shape && root == Ptr(RootOf(sub))
        invariant DividedAbove(order, p, key) && res == At(After(p), 0, end)
        decreases sub
      {
        RootPointers(sub, p, end);
        StepDown(sub, p);
        DivideAboveFurther(order, sub, p, key);
        if Less(order, key, Key(root)) {
          res := root;
          root := root.left;
          sub, p := sub.left, InLeft(p, sub.node, sub.right);
        } else {
          root := root.right;
          sub, p := sub.right, InRight(p, sub.left, sub.node);
        }
      }
      k := |Before(p)|;
      DividedIsUpperBound(order, p, key);
    }

    method Find(key: T) returns (res: Node<T>)
      requires Shaped()
      ensures if ContainsKey(order, Keys(Inorder(shape)), key)
              then res in Inorder(shape) && res.value.Some? && Equivalent(order, Key(res), key)
              else res == end
    {
      hide Linked, Exact, Balanced, Distinct, Inorder, Nodes;
      ghost var k;
      res, k := LowerBound(key);
      CursorsDiffer(shape, end, k, |Inorder(shape)|);
      if k == |Inorder(shape)| || Less(order, key, Key(res)) {
        NotThere(order, Inorder(shape), key, k);
      } else {
        RefusedKeys(order, Inorder(shape), key, k);
      }
      if res != end && !Less(order, key, Key(res)) {
      } else {
        res := end;
      }
    }

    /** The common end of the emplace functions: n is linked in front of pos if its key may stand
        there, and destroyed if not. */
    method LinkOrDestroy(n: Node<T>, v: T, pos: Node<T>, ghost k: nat) returns (it: Node<T>, inserted: bool)
      requires Shaped() && size == |Inorder(shape)| + 1
      requires k <= |Inorder(shape)| && pos == At(Inorder(shape), k, end) && MultiPlace(v, k)
      requires n !in nodes && n != end && n.value == Some(v)
      requires n.left == null && n.right == null && n.parent == null && n.height == 1
      modifies this`start, this`size, this`shape, this`nodes, end, nodes, n
      ensures Valid()
      ensures Keys(Inorder(shape)) == InsertKey(order, old(Keys(Inorder(shape))), v)
      ensures inserted <==> !ContainsKey(order, old(Keys(Inorder(shape))), v)
      ensures inserted <==> old(UniquePlace(v, k))
      ensures if inserted then it == n && nodes == old(nodes) + {n} && k < |Inorder(shape)| && Inorder(shape)[k] == n
              else Inorder(shape) == old(Inorder(shape)) && nodes == old(nodes) && it == pos
    {
      hide Linked, Exact, Balanced, Distinct, Inorder, Nodes, InsertKey, ContainsKey, StrictWeakOrder;
      var right := IsRightInsertUniquePlace(pos, v, k);
      ghost var s := Inorder(shape);
      if right {
        InsertedKeys(order, s, n, k);
        ghost var climb;
        it, climb := InsertNodeAt(pos, n, k);
        inserted := true;
        assert Inorder(shape)[k] == n;
      } else {
        RefusedAt(order, s, v, k);
        DestroyAndDeallocateNode(n, 0);
        it, inserted := pos, false;
      }
    }

    method EmplaceUnique(v: T) returns (it: Node<T>, inserted: bool)
      requires Valid()
      modifies this`start, this`size, this`shape, this`nodes, end, nodes
      ensures Valid() && fresh(nodes - old(nodes))
      ensures Keys(Inorder(shape)) == InsertKey(order, old(Keys(Inorder(shape))), v)
      ensures inserted <==> !ContainsKey(order, old(Keys(Inorder(shape))), v)
      ensures it in Inorder(shape) && it.value.Some? && Equivalent(order, Key(it), v)
      ensures if inserted then it !in old(nodes) && nodes == old(nodes) + {it}
              else Inorder(shape) == old(Inorder(shape))
    {
      hide Linked, Exact, Balanced, Distinct, Inorder, Nodes, InsertKey, ContainsKey;
      var n := AllocateAndConstructNode(v);
      var hint;
      ghost var k;
      hint, k := LowerBound(v);
      ghost var s := Inorder(shape);
      BoundIsMultiPlace(order, s, v, k);
      if k == |s| || Less(order, v, Key(s[k])) {
        NotThere(order, s, v, k);
      }
      assert Equivalent(order, v, v);
      it, inserted := LinkOrDestroy(n, v, hint, k);
    }

    /** A place among equivalent keys that is no place of its own is next to an equivalent key. */
    lemma PlaceIsNear(key: T, k: nat)
      requires Sorted(order, Inorder(shape)) && k <= |Inorder(shape)| && MultiPlace(key, k)
      ensures UniquePlace(key, k) || IsNear(key, k)
    {
    }

    ghost predicate IsNear(key: T, k: nat)
      requires Sorted(order, Inorder(shape)) && k <= |Inorder(shape)|
      reads this
    {
      var s := Inorder(shape);
      (k < |s| && Equivalent(order, Key(s[k]), key)) || (k > 0 && Equivalent(order, Key(s[k - 1]), key))
    }

    /** A wrong hint costs a search, never a wrong result.  A refused insertion returns a place next to
        an equivalent key. */
    method EmplaceUniqueHint(hint: Node<T>, v: T, ghost i: nat) returns (it: Node<T>, ghost k: nat)
      requires Valid() && i <= |Inorder(shape)| && hint == At(Inorder(shape), i, end)
      modifies this`start, this`size, this`shape, this`nodes, end, nodes
      ensures Valid() && fresh(nodes - old(nodes))
      ensures Keys(Inorder(shape)) == InsertKey(order, old(Keys(Inorder(shape))), v)
      ensures k <= |Inorder(shape)| && it == At(Inorder(shape), k, end)
      ensures !ContainsKey(order, old(Keys(Inorder(shape))), v) ==>
        it in Inorder(shape) && it.value == Some(v) && it !in old(nodes) && nodes == old(nodes) + {it}
      ensures ContainsKey(order, old(Keys(Inorder(shape))), v) ==>
        Inorder(shape) == old(Inorder(shape)) && IsNear(v, k)
    {
      hide Linked, Exact, Balanced, Distinct, Inorder, Nodes, InsertKey, ContainsKey;
      var n := AllocateAndConstructNode(v);
      var pos := hint;
      k := i;
      ghost var s := Inorder(shape);
      var right := IsRightInsertMultiPlace(pos, v, k);
      if !right {
        pos, k := LowerBound(v);
        BoundIsMultiPlace(order, s, v, k);
      }
      PlaceIsNear(v, k);
      var inserted;
      it, inserted := LinkOrDestroy(n, v, pos, k);
    }

    /** Erase the nodes at positions i to j - 1.  Each step takes the successor before it unlinks the
        node, and that cursor stays good. */
    method EraseRange(first: Node<T>, last: Node<T>, ghost i: nat, ghost j: nat)
      requires Valid() && i <= j <= |Inorder(shape)|
      requires first == At(Inorder(shape), i, end) && last == At(Inorder(shape), j, end)
      modifies this`start, this`size, this`shape, this`nodes, end, nodes
      ensures Valid() && nodes <= old(nodes)
      ensures Inorder(shape) == old(Inorder(shape))[..i] + old(Inorder(shape))[j..]
    {
      hide Linked, Exact, Balanced, Distinct, Inorder, Nodes, Sorted, StrictWeakOrder;
      ghost var s := Inorder(shape);
      var it := first;
      ghost var m := i;
      CursorsDiffer(shape, end, i, j);
      assert s[..i] + s[i..] == s;
      while it != last
        invariant Valid() && nodes <= old(nodes) && i <= m <= j
        invariant Inorder(shape) == s[..i] + s[m..]
        invariant it == At(Inorder(shape), i, end) && last == At(Inorder(shape), i + (j - m), end)
        invariant it == last <==> m == j
        decreases j - m
      {
        var cur := it;
        ghost var before := Inorder(shape);
        assert before[i] == s[m] && before[i + 1..] == s[m + 1..];
        LinkedParent(shape, end, i);
        it := Next(it, shape, end, i);
        DestroyAndDeallocateNode(cur, i);
        m := m + 1;
        assert Inorder(shape) == s[..i] + s[m..];
        CursorsDiffer(shape, end, i, i + (j - m));
      }
    }

    method EraseKey(key: T) returns (count: nat)
      requires Valid()
      modifies this`start, this`size, this`shape, this`nodes, end, nodes
      ensures Valid() && nodes <= old(nodes)
      ensures forall n :: n in Inorder(shape) <==> n in old(Inorder(shape)) && !Equivalent(order, Key(n), key)
      ensures count == if ContainsKey(order, old(Keys(Inorder(shape))), key) then 1 else 0
    {
      hide Linked, Exact, Balanced, Distinct, Inorder, Nodes;
      var first, last;
      ghost var i, j;
      ghost var s := Inorder(shape);
      first, i := LowerBound(key);
      last, j := UpperBound(key);
      EqualRange(order, s, key, i, j);
      var before := size;
      EraseRange(first, last, i, j);
      count := before - size;
    }

    lemma OrderHolds(v: T)
      requires Valid()
      ensures !Less(order, v, v) && HaveValues(Inorder(shape))
    {
    }

    /** The body both loops of RangeInsertUnique share: link a new node in front of pos if v may
        stand there, which leaves the cursor pos one position further. */
    method InsertIfUnique(pos: Node<T>, v: T, ghost k: nat) returns (ghost k': nat)
      requires Valid() && k <= |Inorder(shape)| && pos == At(Inorder(shape), k, end) && MultiPlace(v, k)
      modifies this`start, this`size, this`shape, this`nodes, end, nodes
      ensures Valid() && fresh(nodes - old(nodes)) && old(nodes) <= nodes
      ensures Keys(Inorder(shape)) == InsertKey(order, old(Keys(Inorder(shape))), v)
      ensures k <= k' <= k + 1 && k' <= |Inorder(shape)| && pos == At(Inorder(shape), k', end)
      ensures k' == 0 || !Less(order, v, Key(Inorder(shape)[k' - 1]))
    {
      hide Linked, Exact, Balanced, Distinct, Inorder, Nodes, InsertKey, ContainsKey, Sorted, StrictWeakOrder, Keys;
      OrderHolds(v);
      ghost var s := Inorder(shape);
      var right := IsRightInsertUniquePlace(pos, v, k);
      k' := k;
      if right {
        var n := AllocateAndConstructNode(v);
        InsertedKeys(order, s, n, k);
        var res;
        ghost var climb;
        res, climb := InsertNodeAt(pos, n, k);
        k' := k + 1;
        assert Inorder(shape)[k] == n;
      } else {
        RefusedAt(order, s, v, k);
      }
    }

    /** Move pos forward to where key may stand. */
    method AdvanceTo(start: Node<T>, key: T, ghost i: nat) returns (pos: Node<T>, ghost k: nat)
      requires Valid() && i <= |Inorder(shape)| && start == At(Inorder(shape), i, end)
      requires i == 0 || !Less(order, key, Key(Inorder(shape)[i - 1]))
      ensures i <= k <= |Inorder(shape)| && pos == At(Inorder(shape), k, end) && MultiPlace(key, k)
    {
      hide Linked, Exact, Balanced, Distinct, Inorder, Nodes;
      pos, k := start, i;
      var right := IsRightInsertMultiPlace(pos, key, k);
      while !right
        invariant Valid() && i <= k <= |Inorder(shape)| && pos == At(Inorder(shape), k, end)
        invariant right == MultiPlace(key, k)
        invariant k == 0 || !Less(order, key, Key(Inorder(shape)[k - 1]))
        decreases |Inorder(shape)| - k
      {
        pos := Next(pos, shape, end, k);
        k := k + 1;
        right := IsRightInsertMultiPlace(pos, key, k);
      }
    }

    /** One pass over a sorted range with a cursor that only moves forward. */
    method RangeInsertSorted(range: seq<T>) returns (ghost advances: nat)
      requires Valid() && range != []
      requires forall i :: 0 < i < |range| ==> !Less(order, range[i], range[i - 1])
      modifies this`start, this`size, this`shape, this`nodes, end, nodes
      ensures Valid() && fresh(nodes - old(nodes)) && old(nodes) <= nodes
      ensures Keys(Inorder(shape)) == InsertKeys(order, old(Keys(Inorder(shape))), range)
      ensures advances <= |Inorder(shape)|
    {
      hide Linked, Exact, Balanced, Distinct, Inorder, Nodes, InsertKey, StrictWeakOrder;
      ghost var ks := Keys(Inorder(shape));
      var pos;
      ghost var k: nat;
      pos, k := LowerBound(range[0]);
      BoundIsMultiPlace(order, Inorder(shape), range[0], k);
      var f := 0;
      advances := 0;
      while f < |range|
        invariant f <= |range| && Valid() && fresh(nodes - old(nodes)) && old(nodes) <= nodes
        invariant k <= |Inorder(shape)| && pos == At(Inorder(shape), k, end) && advances <= k
        invariant Keys(Inorder(shape)) == InsertKeys(order, ks, range[..f])
        invariant f < |range| ==> k == 0 || !Less(order, range[f], Key(Inorder(shape)[k - 1]))
      {
        ghost var k0 := k;
        pos, k := AdvanceTo(pos, range[f], k);
        advances := advances + (k - k0);
        k := InsertIfUnique(pos, range[f], k);
        f := f + 1;
        assert range[..f][..f - 1] == range[..f - 1];
        if f < |range| && k > 0 {
          NotLessChain(order, range[f], range[f - 1], Key(Inorder(shape)[k - 1]));
        }
      }
      assert range[..f] == range;
    }

    /** A search per key. */
    method RangeInsertUnsorted(range: seq<T>)
      requires Valid()
      modifies this`start, this`size, this`shape, this`nodes, end, nodes
      ensures Valid() && fresh(nodes - old(nodes)) && old(nodes) <= nodes
      ensures Keys(Inorder(shape)) == InsertKeys(order, old(Keys(Inorder(shape))), range)
    {
      hide Linked, Exact, Balanced, Distinct, Inorder, Nodes, InsertKey, StrictWeakOrder;
      ghost var ks := Keys(Inorder(shape));
      var f := 0;
      while f < |range|
        invariant f <= |range| && Valid() && fresh(nodes - old(nodes)) && old(nodes) <= nodes
        invariant Keys(Inorder(shape)) == InsertKeys(order, ks, range[..f])
      {
        var pos;
        ghost var k;
        pos, k := LowerBound(range[f]);
        BoundIsMultiPlace(order, Inorder(shape), range[f], k);
        k := InsertIfUnique(pos, range[f], k);
        f := f + 1;
        assert range[..f][..f - 1] == range[..f - 1];
      }
      assert range[..f] == range;
    }

    /** Insert the keys of a non-empty range: whichever path is taken, the same keys result. */
    method RangeInsertUnique(range: seq<T>)
      requires Valid() && range != []
      modifies this`start, this`size, this`shape, this`nodes, end, nodes
      ensures Valid() && fresh(nodes - old(nodes)) && old(nodes) <= nodes
      ensures Keys(Inorder(shape)) == InsertKeys(order, old(Keys(Inorder(shape))), range)
    {
      hide *;
      var sorted := IsSorted(order, range);
      if sorted {
        ghost var advances := RangeInsertSorted(range);
      } else {
        RangeInsertUnsorted(range);
      }
    }

    /** Exchange the contents of two trees; each keeps its own end node. */
    method Swap(other: Tree<T>)
      requires Valid() && other.Valid()
      requires other != this ==>
        end != other.end && nodes !! other.nodes && end !in other.nodes && other.end !in nodes
      modifies this, other, end`left, other.end`left, nodes`parent, other.nodes`parent
      ensures Valid() && shape == old(other.shape) && order == old(other.order) && nodes == old(other.nodes)
      ensures other.Valid() && other.shape == old(shape) && other.order == old(order) && other.nodes == old(nodes)
    {
      hide Distinct, Balanced, StrictWeakOrder, Sorted, LinksIn, Linked, NodeLinked, Nodes, Inorder, HeightIn;
      RootMeansElements(shape);
      RootMeansElements(other.shape);
      SwapEndNodes(end, other.end, shape, other.shape, nodes, other.nodes);
      SwapFields(other);
    }

    /** All but the end nodes. */
    method SwapFields(other: Tree<T>)
      modifies this, other
      ensures start == (if end.left != null then old(other.start) else end)
      ensures other.start == (if other.end.left != null then old(start) else other.end)
      ensures size == old(other.size) && order == old(other.order)
      ensures shape == old(other.shape) && nodes == old(other.nodes)
      ensures other.size == old(size) && other.order == old(order)
      ensures other.shape == old(shape) && other.nodes == old(nodes)
    {
      var tempStart := start;
      if end.left != null {
        start := other.start;
      } else {
        start := end;
      }
      if other.end.left != null {
        other.start := tempStart;
      } else {
        other.start := other.end;
      }
      size, other.size := other.size, size;
      order, other.order := other.order, order;
      shape, other.shape := other.shape, shape;
      nodes, other.nodes := other.nodes, nodes;
    }
  }
}
