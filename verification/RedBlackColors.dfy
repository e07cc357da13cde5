/** The colour discipline of red-black trees; b is the set of black nodes. */
module RedBlackColors {
  import opened Trees

  ghost function Weight<N>(n: N, b: set<N>): nat {
    if n in b then 1 else 0
  }

  /** Black nodes on the leftmost way down, and on every way down of a red-black tree. */
  ghost function BlackHeight<N>(t: Tree<N>, b: set<N>): nat {
    match t
    case Leaf => 0
    case Branch(l, n, _) => BlackHeight(l, b) + Weight(n, b)
  }

  ghost predicate RootBlack<N>(t: Tree<N>, b: set<N>) {
    t.Leaf? || t.node in b
  }

  /** Equal black counts on all ways down, and no red node with a red child. */
  ghost predicate RedBlack<N>(t: Tree<N>, b: set<N>) {
    match t
    case Leaf => true
    case Branch(l, n, r) =>
      && RedBlack(l, b) && RedBlack(r, b) && BlackHeight(l, b) == BlackHeight(r, b)
      && (n !in b ==> RootBlack(l, b) && RootBlack(r, b))
  }

  /** The context is sound around a subtree of black height h, whatever the colour of its root. */
  ghost predicate PathRedBlack<N>(p: Path<N>, b: set<N>, h: nat) {
    match p
    case Top => true
    case InLeft(up, n, r) =>
      && RedBlack(r, b) && BlackHeight(r, b) == h && PathRedBlack(up, b, h + Weight(n, b))
      && (n !in b ==> RootBlack(r, b) && BlackAbove(up, b))
    case InRight(up, l, n) =>
      && RedBlack(l, b) && BlackHeight(l, b) == h && PathRedBlack(up, b, h + Weight(n, b))
      && (n !in b ==> RootBlack(l, b) && BlackAbove(up, b))
  }

  /** The hole has a parent, and it is black. */
  ghost predicate BlackAbove<N>(p: Path<N>, b: set<N>) {
    !p.Top? && p.node in b
  }

  ghost predicate Fits<N>(t: Tree<N>, p: Path<N>, b: set<N>) {
    RootBlack(t, b) || BlackAbove(p, b)
  }

  /** A whole tree is sound exactly when the parts at a cursor are. */
  lemma {:induction false} RedBlackPlug<N>(t: Tree<N>, p: Path<N>, b: set<N>)
    ensures RedBlack(Plug(t, p), b) && RootBlack(Plug(t, p), b)
       <==> RedBlack(t, b) && PathRedBlack(p, b, BlackHeight(t, b)) && Fits(t, p, b)
    decreases p
  {
    match p
    case Top =>
    case InLeft(up, n, r) => RedBlackPlug(Branch(t, n, r), up, b);
    case InRight(up, l, n) => RedBlackPlug(Branch(l, n, t), up, b);
  }

  /** Only the colours of its own nodes matter to a tree, */
  lemma {:induction false} SameColors<N>(t: Tree<N>, b: set<N>, c: set<N>)
    requires forall n <- Nodes(t) :: n in b <==> n in c
    ensures BlackHeight(t, b) == BlackHeight(t, c) && RootBlack(t, b) == RootBlack(t, c)
    ensures RedBlack(t, b) == RedBlack(t, c)
  {
    match t
    case Leaf =>
    case Branch(l, n, r) => SameColors(l, b, c); SameColors(r, b, c);
  }

  /** ... and to a context. */
  lemma {:induction false} SamePathColors<N>(p: Path<N>, b: set<N>, c: set<N>, h: nat)
    requires forall n <- PathNodes(p) :: n in b <==> n in c
    ensures PathRedBlack(p, b, h) == PathRedBlack(p, c, h) && BlackAbove(p, b) == BlackAbove(p, c)
    decreases p
  {
    match p
    case Top =>
    case InLeft(up, n, r) => SameColors(r, b, c); SamePathColors(up, b, c, h + Weight(n, b));
    case InRight(up, l, n) => SameColors(l, b, c); SamePathColors(up, b, c, h + Weight(n, b));
  }

  /** The colours of a branch come from its node and its subtrees. */
  lemma BranchColors<N>(l: Tree<N>, n: N, r: Tree<N>, b: set<N>)
    ensures var t := Branch(l, n, r);
      && (RedBlack(t, b) <==>
            && RedBlack(l, b) && RedBlack(r, b) && BlackHeight(l, b) == BlackHeight(r, b)
            && (n !in b ==> RootBlack(l, b) && RootBlack(r, b)))
      && BlackHeight(t, b) == BlackHeight(l, b) + Weight(n, b) && (RootBlack(t, b) <==> n in b)
  {
  }

  // Insertion: a red node under a red parent.

  /** The uncle is red as well: parent and uncle turn black and the grandparent red. */
  lemma RecolorUncle<N>(l: Tree<N>, parent: N, r: Tree<N>, g: N, u: Tree<N>, up: Path<N>, b: set<N>, h: nat)
    requires RedBlack(l, b) && RedBlack(r, b) && BlackHeight(l, b) == BlackHeight(r, b) == h
    requires RedBlack(u, b) && BlackHeight(u, b) == h && !RootBlack(u, b)
    requires g in b && PathRedBlack(up, b, h + 1)
    requires var s := Branch(l, parent, r);
      Apart(Branch(s, g, u), up) || Apart(Branch(u, g, s), up)
    ensures var s, c := Branch(l, parent, r), b + {parent, u.node} - {g};
      && RedBlack(Branch(s, g, u), c) && RedBlack(Branch(u, g, s), c)
      && BlackHeight(Branch(s, g, u), c) == BlackHeight(Branch(u, g, s), c) == h + 1
      && PathRedBlack(up, c, h + 1)
  {
    var s, c := Branch(l, parent, r), b + {parent, u.node} - {g};
    assert Distinct(s) && Distinct(u) && Nodes(s) !! Nodes(u) && g !in Nodes(s) && g !in Nodes(u);
    SameColors(l, b, c);
    SameColors(r, b, c);
    SameColors(u.left, b, c);
    SameColors(u.right, b, c);
    SamePathColors(up, b, c, h + 1);
    assert RedBlack(s, c) && BlackHeight(s, c) == h + 1;
    assert RedBlack(u, c) && BlackHeight(u, c) == h + 1;
  }

  /** The uncle is black: after the rotation about g, q is black on top of the red x and g. */
  lemma RotateUncle<N>(x: Tree<N>, q: N, y: Tree<N>, g: N, u: Tree<N>, up: Path<N>, b: set<N>, h: nat)
    requires RedBlack(x, b) && RedBlack(y, b) && RedBlack(u, b)
    requires BlackHeight(x, b) == BlackHeight(y, b) == BlackHeight(u, b) == h
    requires RootBlack(y, b) && RootBlack(u, b) && PathRedBlack(up, b, h + 1)
    requires Apart(Branch(x, q, Branch(y, g, u)), up) || Apart(Branch(Branch(u, g, y), q, x), up)
    ensures var c := b + {q} - {g};
      && RedBlack(x, c) && BlackHeight(x, c) == h && (RootBlack(x, c) <==> RootBlack(x, b))
      && PathRedBlack(InLeft(up, q, Branch(y, g, u)), c, h)
      && PathRedBlack(InRight(up, Branch(u, g, y), q), c, h)
  {
    var c := b + {q} - {g};
    hide Apart, Distinct, DistinctPath, PathNodes, Nodes, RedBlack, BlackHeight;
    UncleApart(x, q, y, g, u, up);
    SameColors(x, b, c);
    SameColors(y, b, c);
    SameColors(u, b, c);
    SamePathColors(up, b, c, h + 1);
    BranchColors(y, g, u, c);
    BranchColors(u, g, y, c);
  }

  lemma UncleApart<N>(x: Tree<N>, q: N, y: Tree<N>, g: N, u: Tree<N>, up: Path<N>)
    requires Apart(Branch(x, q, Branch(y, g, u)), up) || Apart(Branch(Branch(u, g, y), q, x), up)
    ensures q != g && Nodes(x) !! {q, g} && Nodes(y) !! {q, g} && Nodes(u) !! {q, g} && PathNodes(up) !! {q, g}
  {
    hide *;
    if Apart(Branch(x, q, Branch(y, g, u)), up) {
      SplitApart(x, q, Branch(y, g, u), up);
      SplitNodes(y, g, u);
    } else {
      SplitApart(Branch(u, g, y), q, x, up);
      SplitNodes(u, g, y);
    }
  }

  lemma SplitApart<N>(l: Tree<N>, n: N, r: Tree<N>, p: Path<N>)
    requires Apart(Branch(l, n, r), p)
    ensures Distinct(l) && Distinct(r) && n !in Nodes(l) + Nodes(r) + PathNodes(p)
    ensures Nodes(l) !! Nodes(r) && Nodes(l) + Nodes(r) !! PathNodes(p)
  {
  }

  lemma SplitNodes<N>(l: Tree<N>, n: N, r: Tree<N>)
    requires Distinct(Branch(l, n, r))
    ensures Nodes(Branch(l, n, r)) == Nodes(l) + {n} + Nodes(r) && n !in Nodes(l) + Nodes(r)
  {
  }

  // Erasure: a subtree one black node short.

  /** Sound but for a red root that may have red children. */
  ghost predicate Nearly<N>(t: Tree<N>, b: set<N>) {
    t.Branch? ==> RedBlack(t.left, b) && RedBlack(t.right, b) && BlackHeight(t.left, b) == BlackHeight(t.right, b)
  }

  /** The subtree t in the hole of p is one black node lower than the context needs. */
  ghost predicate Short<N>(t: Tree<N>, p: Path<N>, b: set<N>) {
    Nearly(t, b) && PathRedBlack(p, b, BlackHeight(t, b) + 1)
  }

  /** The sibling of a short subtree is not empty. */
  lemma SiblingExists<N>(t: Tree<N>, p: Path<N>, b: set<N>)
    requires Short(t, p, b) && !p.Top?
    ensures (if p.InLeft? then p.right else p.left).Branch?
  {
  }

  /** t is short; its parent and the sibling subtree under s, with inner child x and outer child y,
      are as sound as a red-black tree makes them.  Which side t is on makes no difference. */
  ghost predicate Parts<N>(t: Tree<N>, parent: N, x: Tree<N>, s: N, y: Tree<N>, up: Path<N>, b: set<N>) {
    && Nearly(t, b) && RedBlack(x, b) && RedBlack(y, b)
    && BlackHeight(x, b) == BlackHeight(y, b) && BlackHeight(x, b) + Weight(s, b) == BlackHeight(t, b) + 1
    && (s !in b ==> RootBlack(x, b) && RootBlack(y, b))
    && (parent !in b ==> s in b && BlackAbove(up, b))
    && PathRedBlack(up, b, BlackHeight(t, b) + 1 + Weight(parent, b))
  }

  lemma PartsLeft<N>(t: Tree<N>, parent: N, x: Tree<N>, s: N, y: Tree<N>, up: Path<N>, b: set<N>)
    ensures Parts(t, parent, x, s, y, up, b) <==> Short(t, InLeft(up, parent, Branch(x, s, y)), b)
  {
  }

  lemma PartsRight<N>(t: Tree<N>, parent: N, x: Tree<N>, s: N, y: Tree<N>, up: Path<N>, b: set<N>)
    ensures Parts(t, parent, x, s, y, up, b) <==> Short(t, InRight(up, Branch(y, s, x), parent), b)
  {
  }

  /** The parts share no node. */
  ghost predicate Separate<N>(t: Tree<N>, parent: N, x: Tree<N>, s: N, y: Tree<N>, up: Path<N>) {
    && parent != s && Nodes(x) + Nodes(y) + Nodes(t) + PathNodes(up) !! {parent, s}
    && Nodes(x) !! Nodes(y) && Nodes(x) + Nodes(y) !! Nodes(t) && Nodes(x) + Nodes(y) + Nodes(t) !! PathNodes(up)
    && Distinct(x) && Distinct(y)
  }

  lemma SeparateLeft<N>(t: Tree<N>, parent: N, x: Tree<N>, s: N, y: Tree<N>, up: Path<N>)
    requires Apart(Branch(t, parent, Branch(x, s, y)), up)
    ensures Separate(t, parent, x, s, y, up)
  {
    hide DistinctPath, PathNodes;
    var v := Branch(x, s, y);
    assert Nodes(v) == Nodes(x) + {s} + Nodes(y) && Distinct(v);
  }

  lemma SeparateRight<N>(t: Tree<N>, parent: N, x: Tree<N>, s: N, y: Tree<N>, up: Path<N>)
    requires Apart(Branch(Branch(y, s, x), parent, t), up)
    ensures Separate(t, parent, x, s, y, up)
  {
    hide DistinctPath, PathNodes;
    var v := Branch(y, s, x);
    assert Nodes(v) == Nodes(x) + {s} + Nodes(y) && Distinct(v);
  }

  // All that the colours make of a tree and of a context.

  ghost function Shade<N>(t: Tree<N>, b: set<N>): (nat, bool, bool) {
    (BlackHeight(t, b), RedBlack(t, b), RootBlack(t, b))
  }

  ghost function NearlyShade<N>(t: Tree<N>, b: set<N>): (nat, bool, bool) {
    (BlackHeight(t, b), Nearly(t, b), RootBlack(t, b))
  }

  ghost function PathShade<N>(p: Path<N>, b: set<N>, h: nat): (bool, bool) {
    (PathRedBlack(p, b, h), BlackAbove(p, b))
  }

  lemma SameNearly<N>(t: Tree<N>, b: set<N>, c: set<N>)
    requires forall n <- Nodes(t) :: n in b <==> n in c
    ensures Nearly(t, b) == Nearly(t, c) && BlackHeight(t, b) == BlackHeight(t, c) && RootBlack(t, b) == RootBlack(t, c)
  {
    SameColors(t, b, c);
    if t.Branch? { SameColors(t.left, b, c); SameColors(t.right, b, c); }
  }

  /** A red sibling s: after the rotation about the parent the sibling is the black-rooted inner
      subtree, and the parent is red. */
  lemma RedSibling<N>(t: Tree<N>, parent: N, x: Tree<N>, s: N, y: Tree<N>, up: Path<N>, b: set<N>)
    requires s !in b && Parts(t, parent, x, s, y, up, b) && Separate(t, parent, x, s, y, up)
    ensures var c := b + {s} - {parent};
      && Short(t, InLeft(InLeft(up, s, y), parent, x), c)
      && Short(t, InRight(InRight(up, y, s), x, parent), c)
      && RootBlack(x, c) && (RootBlack(t, c) <==> RootBlack(t, b))
  {
    hide Distinct, PathNodes, Nodes;
    var c := b + {s} - {parent};
    SameColors(x, b, c);
    SameColors(y, b, c);
    SameNearly(t, b, c);
    SamePathColors(up, b, c, BlackHeight(t, b) + 2);
    var h := BlackHeight(t, b) + 1;
    assert PathRedBlack(InLeft(up, s, y), c, h) && PathRedBlack(InRight(up, y, s), c, h);
  }

  /** A black sibling s with black-rooted children turns red: the parent's subtree is short. */
  lemma BlackNephews<N>(t: Tree<N>, parent: N, x: Tree<N>, s: N, y: Tree<N>, up: Path<N>, b: set<N>)
    requires s in b && RootBlack(x, b) && RootBlack(y, b) && RootBlack(t, b)
    requires Parts(t, parent, x, s, y, up, b) && Separate(t, parent, x, s, y, up)
    ensures var c := b - {s};
      && Short(Branch(t, parent, Branch(x, s, y)), up, c) && Short(Branch(Branch(y, s, x), parent, t), up, c)
      && (parent in c <==> parent in b)
  {
    hide Distinct, PathNodes, Nodes;
    var c := b - {s};
    SameColors(x, b, c);
    SameColors(y, b, c);
    SameColors(t, b, c);
    SamePathColors(up, b, c, BlackHeight(t, b) + 1 + Weight(parent, b));
    var v, w := Branch(x, s, y), Branch(y, s, x);
    assert RedBlack(v, c) && RedBlack(w, c) && BlackHeight(v, c) == BlackHeight(w, c) == BlackHeight(t, b);
  }

  lemma RootApart<N>(y: Tree<N>)
    requires y.Branch? && Distinct(y)
    ensures Nodes(y.left) + Nodes(y.right) !! {y.node} && Nodes(y) == Nodes(y.left) + {y.node} + Nodes(y.right)
  {
  }

  /** A black sibling s whose inner child x is red and outer child y is not: after the rotation
      about s the sibling is the inner child, its outer child is red. */
  lemma InnerNephew<N>(t: Tree<N>, parent: N, xi: Tree<N>, x: N, xo: Tree<N>, s: N, y: Tree<N>, up: Path<N>,
                       b: set<N>, inner: Tree<N>)
    requires inner == Branch(xi, x, xo) || inner == Branch(xo, x, xi)
    requires s in b && x !in b && RootBlack(y, b)
    requires Parts(t, parent, inner, s, y, up, b) && Separate(t, parent, inner, s, y, up)
    ensures var c := b + {x} - {s};
      && Parts(t, parent, xi, x, Branch(xo, s, y), up, c) && Parts(t, parent, xi, x, Branch(y, s, xo), up, c)
      && !RootBlack(Branch(xo, s, y), c) && (RootBlack(t, c) <==> RootBlack(t, b)) && x != s
  {
    InnerNephewSide(t, parent, xi, x, xo, s, y, up, b, inner, Branch(xo, s, y));
    InnerNephewSide(t, parent, xi, x, xo, s, y, up, b, inner, Branch(y, s, xo));
    hide *;
  }

  /** Swapping the colours of the sibling and its inner child changes no other colour. */
  lemma InnerSame<N>(t: Tree<N>, parent: N, xi: Tree<N>, x: N, xo: Tree<N>, s: N, y: Tree<N>, up: Path<N>,
                     b: set<N>, inner: Tree<N>, h: nat)
    requires inner == Branch(xi, x, xo) || inner == Branch(xo, x, xi)
    requires Separate(t, parent, inner, s, y, up)
    ensures x != s && x != parent && s != parent
    ensures var c := b + {x} - {s};
      && Shade(xi, b) == Shade(xi, c) && Shade(xo, b) == Shade(xo, c) && Shade(y, b) == Shade(y, c)
      && NearlyShade(t, b) == NearlyShade(t, c) && PathShade(up, b, h) == PathShade(up, c, h)
  {
    var c := b + {x} - {s};
    RootApart(inner);
    hide Distinct, PathNodes, Nodes, RedBlack, BlackHeight, RootBlack, Nearly, PathRedBlack, BlackAbove;
    SameColors(xi, b, c);
    SameColors(xo, b, c);
    SameColors(y, b, c);
    SameNearly(t, b, c);
    SamePathColors(up, b, c, h);
  }

  /** On either side: outer is the outer child that the sibling becomes. */
  lemma InnerNephewSide<N>(t: Tree<N>, parent: N, xi: Tree<N>, x: N, xo: Tree<N>, s: N, y: Tree<N>, up: Path<N>,
                           b: set<N>, inner: Tree<N>, outer: Tree<N>)
    requires inner == Branch(xi, x, xo) || inner == Branch(xo, x, xi)
    requires outer == Branch(xo, s, y) || outer == Branch(y, s, xo)
    requires s in b && x !in b && RootBlack(y, b)
    requires Parts(t, parent, inner, s, y, up, b) && Separate(t, parent, inner, s, y, up)
    ensures var c := b + {x} - {s};
      && Parts(t, parent, xi, x, outer, up, c) && !RootBlack(outer, c) && (RootBlack(t, c) <==> RootBlack(t, b))
      && x != s
  {
    var c := b + {x} - {s};
    hide RedBlack, BlackHeight, RootBlack, Nearly, PathRedBlack, BlackAbove, Separate;
    InnerSame(t, parent, xi, x, xo, s, y, up, b, inner, BlackHeight(t, b) + 1 + Weight(parent, b));
    BranchColors(inner.left, x, inner.right, b);
    BranchColors(outer.left, s, outer.right, c);
  }

  /** A black sibling s whose outer child is red: after the rotation about the parent s has the
      parent's colour, its children are black, and nothing is short any more. */
  lemma OuterNephew<N>(t: Tree<N>, parent: N, x: Tree<N>, s: N, y: Tree<N>, up: Path<N>, b: set<N>)
    requires s in b && !RootBlack(y, b) && RootBlack(t, b)
    requires Parts(t, parent, x, s, y, up, b) && Separate(t, parent, x, s, y, up)
    ensures var c := (if parent in b then b else b - {s}) + {parent, y.node};
      && RedBlack(Plug(Branch(Branch(t, parent, x), s, y), up), c)
      && RootBlack(Plug(Branch(Branch(t, parent, x), s, y), up), c)
      && RedBlack(Plug(Branch(y, s, Branch(x, parent, t)), up), c)
      && RootBlack(Plug(Branch(y, s, Branch(x, parent, t)), up), c)
      && (RootBlack(t, c) <==> RootBlack(t, b))
  {
    var c := (if parent in b then b else b - {s}) + {parent, y.node};
    hide RedBlack, BlackHeight, RootBlack, Nearly, PathRedBlack, BlackAbove, Separate, Plug;
    OuterSame(t, parent, x, s, y, up, b, c, BlackHeight(t, b) + 1 + Weight(parent, b));
    var low, high := Branch(t, parent, x), Branch(x, parent, t);
    NearlyColors(t, b);
    NearlyColors(t, c);
    NearlyColors(y, c);
    BranchColors(y.left, y.node, y.right, b);
    BranchColors(y.left, y.node, y.right, c);
    BranchColors(t, parent, x, c);
    BranchColors(x, parent, t, c);
    BranchColors(low, s, y, c);
    BranchColors(y, s, high, c);
    RedBlackPlug(Branch(low, s, y), up, c);
    RedBlackPlug(Branch(y, s, high), up, c);
  }

  lemma NearlyColors<N>(t: Tree<N>, b: set<N>)
    ensures RootBlack(t, b) ==> (Nearly(t, b) <==> RedBlack(t, b))
  {
  }

  lemma OuterSame<N>(t: Tree<N>, parent: N, x: Tree<N>, s: N, y: Tree<N>, up: Path<N>, b: set<N>, c: set<N>, h: nat)
    requires Separate(t, parent, x, s, y, up) && y.Branch?
    requires forall n :: n !in {parent, s, y.node} ==> (n in b <==> n in c)
    ensures s != parent && s != y.node && y.node != parent
    ensures Shade(x, b) == Shade(x, c) && Shade(y.left, b) == Shade(y.left, c) && Shade(y.right, b) == Shade(y.right, c)
    ensures NearlyShade(t, b) == NearlyShade(t, c) && PathShade(up, b, h) == PathShade(up, c, h)
  {
    RootApart(y);
    hide Distinct, PathNodes, Nodes, RedBlack, BlackHeight, RootBlack, Nearly, PathRedBlack, BlackAbove;
    SameColors(x, b, c);
    SameColors(y.left, b, c);
    SameColors(y.right, b, c);
    SameNearly(t, b, c);
    SamePathColors(up, b, c, h);
  }

  // The node that takes the place of another takes its colour too.

  lemma {:induction false} RenameColors<N>(t: Tree<N>, x: N, y: N, b: set<N>, c: set<N>)
    requires forall n <- Nodes(t) :: n in b <==> Swap(n, x, y) in c
    ensures BlackHeight(Rename(t, x, y), c) == BlackHeight(t, b)
    ensures RootBlack(Rename(t, x, y), c) == RootBlack(t, b) && RedBlack(Rename(t, x, y), c) == RedBlack(t, b)
  {
    match t
    case Leaf =>
    case Branch(l, n, r) => RenameColors(l, x, y, b, c); RenameColors(r, x, y, b, c);
  }

  lemma {:induction false} RenamePathColors<N>(p: Path<N>, x: N, y: N, b: set<N>, c: set<N>, h: nat)
    requires forall n <- PathNodes(p) :: n in b <==> Swap(n, x, y) in c
    ensures PathRedBlack(RenamePath(p, x, y), c, h) == PathRedBlack(p, b, h)
    ensures BlackAbove(RenamePath(p, x, y), c) == BlackAbove(p, b)
    decreases p
  {
    match p
    case Top =>
    case InLeft(up, n, r) => RenameColors(r, x, y, b, c); RenamePathColors(up, x, y, b, c, h + Weight(n, b));
    case InRight(up, l, n) => RenameColors(l, x, y, b, c); RenamePathColors(up, x, y, b, c, h + Weight(n, b));
  }

  /** c in the place of its parent m: short if m was black, and otherwise sound. */
  ghost predicate Vacated<N>(c: Tree<N>, p: Path<N>, black: bool, b: set<N>) {
    if black then Short(c, p, b) else RedBlack(Plug(c, p), b) && RootBlack(Plug(c, p), b)
  }

  lemma VacatedByChild<N>(c: Tree<N>, l: Tree<N>, m: N, r: Tree<N>, p: Path<N>, b: set<N>)
    requires OnlyChild(c, l, r)
    requires RedBlack(Plug(Branch(l, m, r), p), b) && RootBlack(Plug(Branch(l, m, r), p), b)
    ensures RedBlack(c, b) && PathRedBlack(p, b, BlackHeight(c, b) + Weight(m, b))
    ensures m !in b ==> RootBlack(c, b) && BlackAbove(p, b)
    ensures Vacated(c, p, m in b, b)
  {
    hide Plug;
    RedBlackPlug(Branch(l, m, r), p, b);
    RedBlackPlug(c, p, b);
  }

  lemma VacatedBySuccessor<N>(v: Tree<N>, c: Tree<N>, m: N, q: Path<N>, node: N, b: set<N>, d: set<N>)
    requires v == Branch(Leaf, m, c) && Apart(v, q) && node != m && node !in Nodes(c)
    requires RedBlack(Plug(v, q), b) && RootBlack(Plug(v, q), b)
    requires m in d <==> node in b
    requires forall n <- Nodes(Plug(v, q)) - {node, m} :: n in d <==> n in b
    ensures Vacated(c, RenamePath(q, node, m), m in b, d)
  {
    hide Plug, RedBlack, PathRedBlack, BlackHeight, Apart, Nodes, PathNodes, Nearly, RenamePath;
    var w, h := RenamePath(q, node, m), BlackHeight(c, b) + Weight(m, b);
    VacatedNodes(v, c, m, q);
    VacatedByChild(c, Leaf, m, c, q, b);
    SameColors(c, b, d);
    RenamePathColors(q, node, m, b, d, h);
    RedBlackPlug(c, w, d);
    UnfoldRedBlack(c, d);
  }

  lemma VacatedNodes<N>(v: Tree<N>, c: Tree<N>, m: N, q: Path<N>)
    requires v == Branch(Leaf, m, c) && Apart(v, q)
    ensures Nodes(Plug(v, q)) == {m} + Nodes(c) + PathNodes(q) && {m} !! Nodes(c) + PathNodes(q)
  {
    PlugNodes(v, q);
  }

  lemma UnfoldRedBlack<N>(t: Tree<N>, b: set<N>)
    ensures RedBlack(t, b) ==> Nearly(t, b)
  {
  }
}
