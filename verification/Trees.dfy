/** Binary trees over references and their one-hole contexts.

    A linked tree in the heap is described by a value of type Tree whose
    elements are the node references.  A cursor that climbs parent links is
    described by a pair of a subtree and the Path from it to the root, so that a
    loop that moves the cursor changes the pair and never the whole tree. */
module Trees {
  import opened Arithmetic
  import opened Sequences

  datatype Tree<N> = Leaf | Branch(left: Tree<N>, node: N, right: Tree<N>)

  /** InLeft: the hole is the left child of node; InRight: the right child. */
  datatype Path<N> =
    | Top
    | InLeft(up: Path<N>, node: N, right: Tree<N>)
    | InRight(up: Path<N>, left: Tree<N>, node: N)

  ghost function Inorder<N>(t: Tree<N>): seq<N> {
    match t
    case Leaf => []
    case Branch(l, n, r) => Inorder(l) + [n] + Inorder(r)
  }

  ghost function Nodes<N>(t: Tree<N>): set<N> {
    match t
    case Leaf => {}
    case Branch(l, n, r) => Nodes(l) + {n} + Nodes(r)
  }

  ghost predicate Distinct<N>(t: Tree<N>) {
    match t
    case Leaf => true
    case Branch(l, n, r) =>
      && n !in Nodes(l) && n !in Nodes(r) && Nodes(l) !! Nodes(r)
      && Distinct(l) && Distinct(r)
  }

  ghost function Height<N>(t: Tree<N>): nat {
    match t
    case Leaf => 0
    case Branch(l, _, r) => 1 + Max(Height(l), Height(r))
  }

  /** Fill the hole of p with t. */
  ghost function Plug<N>(t: Tree<N>, p: Path<N>): Tree<N>
    decreases p
  {
    match p
    case Top => t
    case InLeft(up, n, r) => Plug(Branch(t, n, r), up)
    case InRight(up, l, n) => Plug(Branch(l, n, t), up)
  }

  ghost function PathNodes<N>(p: Path<N>): set<N> {
    match p
    case Top => {}
    case InLeft(up, n, r) => PathNodes(up) + {n} + Nodes(r)
    case InRight(up, l, n) => PathNodes(up) + {n} + Nodes(l)
  }

  ghost predicate DistinctPath<N>(p: Path<N>) {
    match p
    case Top => true
    case InLeft(up, n, r) =>
      && n !in PathNodes(up) && n !in Nodes(r) && Nodes(r) !! PathNodes(up)
      && Distinct(r) && DistinctPath(up)
    case InRight(up, l, n) =>
      && n !in PathNodes(up) && n !in Nodes(l) && Nodes(l) !! PathNodes(up)
      && Distinct(l) && DistinctPath(up)
  }

  /** A cursor position: the subtree and its context share no node. */
  ghost predicate Apart<N>(t: Tree<N>, p: Path<N>) {
    Distinct(t) && DistinctPath(p) && Nodes(t) !! PathNodes(p)
  }

  /** The nodes in order before the hole, and those after it. */
  ghost function Before<N>(p: Path<N>): seq<N> {
    match p
    case Top => []
    case InLeft(up, _, _) => Before(up)
    case InRight(up, l, n) => Before(up) + Inorder(l) + [n]
  }

  ghost function After<N>(p: Path<N>): seq<N> {
    match p
    case Top => []
    case InLeft(up, n, r) => [n] + Inorder(r) + After(up)
    case InRight(up, _, _) => After(up)
  }

  /** The subtree of the parent of the hole. */
  ghost function Above<N>(t: Tree<N>, p: Path<N>): Tree<N>
    requires !p.Top?
  {
    if p.InLeft? then Branch(t, p.node, p.right) else Branch(p.left, p.node, t)
  }

  // Two re-bracketings of a concatenation of five parts.
  lemma ConcatLeft<N>(a: seq<N>, b: seq<N>, c: seq<N>, d: seq<N>, e: seq<N>)
    ensures a + (b + c + d) + e == a + b + (c + d + e)
  {
  }

  lemma ConcatRight<N>(a: seq<N>, b: seq<N>, c: seq<N>, d: seq<N>, e: seq<N>)
    ensures a + (b + c + d) + e == a + b + c + d + e
  {
  }

  lemma {:induction false} PlugInorder<N>(t: Tree<N>, p: Path<N>)
    ensures Inorder(Plug(t, p)) == Before(p) + Inorder(t) + After(p)
    decreases p
  {
    match p
    case Top =>
    case InLeft(up, n, r) =>
      PlugInorder(Branch(t, n, r), up);
      ConcatLeft(Before(up), Inorder(t), [n], Inorder(r), After(up));
    case InRight(up, l, n) =>
      PlugInorder(Branch(l, n, t), up);
      ConcatRight(Before(up), Inorder(l), [n], Inorder(t), After(up));
  }

  lemma {:induction false} PlugNodes<N>(t: Tree<N>, p: Path<N>)
    ensures Nodes(Plug(t, p)) == Nodes(t) + PathNodes(p)
    decreases p
  {
    match p
    case Top =>
    case InLeft(up, n, r) => PlugNodes(Branch(t, n, r), up);
    case InRight(up, l, n) => PlugNodes(Branch(l, n, t), up);
  }

  lemma {:induction false} PlugDistinct<N>(t: Tree<N>, p: Path<N>)
    ensures Distinct(Plug(t, p)) <==> Apart(t, p)
    decreases p
  {
    match p
    case Top =>
    case InLeft(up, n, r) => PlugDistinct(Branch(t, n, r), up);
    case InRight(up, l, n) => PlugDistinct(Branch(l, n, t), up);
  }

  /** The three facts a loop needs when it closes its cursor. */
  lemma {:induction false} PlugFacts<N>(t: Tree<N>, p: Path<N>)
    ensures Inorder(Plug(t, p)) == Before(p) + Inorder(t) + After(p)
    ensures Nodes(Plug(t, p)) == Nodes(t) + PathNodes(p)
    ensures Distinct(Plug(t, p)) <==> Apart(t, p)
  {
    PlugInorder(t, p);
    PlugNodes(t, p);
    PlugDistinct(t, p);
  }

  lemma {:induction false} InNodes<N>(t: Tree<N>, x: N)
    ensures x in Inorder(t) <==> x in Nodes(t)
  {
    match t
    case Leaf =>
    case Branch(l, n, r) => InNodes(l, x); InNodes(r, x);
  }

  lemma JoinNoRepeats<N>(a: seq<N>, n: N, b: seq<N>)
    requires NoRepeats(a) && NoRepeats(b)
    requires n !in a && n !in b
    requires forall x :: x in a ==> x !in b
    ensures NoRepeats(a + [n] + b)
  {
    var s := a + [n] + b;
    forall i, j | 0 <= i < j < |s| ensures s[i] != s[j] {
      assert s[i] in a || i >= |a|;
      assert j > |a| ==> s[j] == b[j - |a| - 1] && s[j] in b;
      assert i > |a| ==> s[i] == b[i - |a| - 1];
    }
  }

  lemma {:induction false} InorderNoRepeats<N>(t: Tree<N>)
    requires Distinct(t)
    ensures NoRepeats(Inorder(t))
  {
    match t
    case Leaf =>
    case Branch(l, n, r) =>
      InorderNoRepeats(l);
      InorderNoRepeats(r);
      forall x | x in Inorder(l) ensures x !in Inorder(r) {
        InNodes(l, x);
        InNodes(r, x);
      }
      InNodes(l, n);
      InNodes(r, n);
      JoinNoRepeats(Inorder(l), n, Inorder(r));
  }

  /** Every node of a tree has a cursor position. */
  lemma {:induction false} Locate<N>(t: Tree<N>, n: N, p: Path<N>) returns (sub: Tree<N>, q: Path<N>)
    requires n in Nodes(t)
    ensures sub.Branch? && sub.node == n
    ensures Plug(sub, q) == Plug(t, p)
    decreases t
  {
    if t.node == n {
      return t, p;
    } else if n in Nodes(t.left) {
      sub, q := Locate(t.left, n, InLeft(p, t.node, t.right));
    } else {
      sub, q := Locate(t.right, n, InRight(p, t.left, t.node));
    }
  }

  datatype Option<+T> = None | Some(value: T)

  /** The three links a node of a tree must hold; None as a parent stands for the header
      node above the root. */
  datatype Links<+N> = Links(left: Option<N>, right: Option<N>, parent: Option<N>)

  ghost function RootOf<N>(t: Tree<N>): Option<N> {
    if t.Leaf? then None else Some(t.node)
  }

  ghost function ParentOf<N>(p: Path<N>): Option<N> {
    if p.Top? then None else Some(p.node)
  }

  ghost function LinksIn<N>(t: Tree<N>, n: N, parent: Option<N>): Links<N>
    requires n in Nodes(t)
  {
    if n == t.node then Links(RootOf(t.left), RootOf(t.right), parent)
    else if n in Nodes(t.left) then LinksIn(t.left, n, Some(t.node))
    else LinksIn(t.right, n, Some(t.node))
  }

  /** The links of a node of the context, when the hole is filled by a tree with root child. */
  ghost function LinksAround<N>(p: Path<N>, child: Option<N>, n: N): Links<N>
    requires n in PathNodes(p)
  {
    match p
    case InLeft(up, m, r) =>
      if n == m then Links(child, RootOf(r), ParentOf(up))
      else if n in Nodes(r) then LinksIn(r, n, Some(m))
      else LinksAround(up, Some(m), n)
    case InRight(up, l, m) =>
      if n == m then Links(RootOf(l), child, ParentOf(up))
      else if n in Nodes(l) then LinksIn(l, n, Some(m))
      else LinksAround(up, Some(m), n)
  }

  lemma {:induction false} LinksBelow<N>(t: Tree<N>, p: Path<N>, n: N)
    requires Apart(t, p) && n in Nodes(t)
    ensures n in Nodes(Plug(t, p))
    ensures LinksIn(Plug(t, p), n, None) == LinksIn(t, n, ParentOf(p))
    decreases p
  {
    match p
    case Top =>
    case InLeft(up, m, r) => LinksBelow(Branch(t, m, r), up, n);
    case InRight(up, l, m) => LinksBelow(Branch(l, m, t), up, n);
  }

  lemma {:induction false} LinksAbove<N>(t: Tree<N>, p: Path<N>, n: N)
    requires Apart(t, p) && n in PathNodes(p)
    ensures n in Nodes(Plug(t, p))
    ensures LinksIn(Plug(t, p), n, None) == LinksAround(p, RootOf(t), n)
    decreases p
  {
    match p
    case InLeft(up, m, r) =>
      var s := Branch(t, m, r);
      if n in Nodes(s) { LinksBelow(s, up, n); } else { LinksAbove(s, up, n); }
    case InRight(up, l, m) =>
      var s := Branch(l, m, t);
      if n in Nodes(s) { LinksBelow(s, up, n); } else { LinksAbove(s, up, n); }
  }

  lemma RotationInorder<N>(a: Tree<N>, x: N, b: Tree<N>, h: N, c: Tree<N>)
    ensures Inorder(Branch(a, x, Branch(b, h, c))) == Inorder(Branch(Branch(a, x, b), h, c))
  {
    var low, r := Branch(a, x, b), Branch(b, h, c);
    assert Inorder(low) == Inorder(a) + [x] + Inorder(b);
    assert Inorder(r) == Inorder(b) + [h] + Inorder(c);
    ConcatRight([], Inorder(a), [x], Inorder(b), [h] + Inorder(c));
    assert Inorder(Branch(a, x, r)) == Inorder(a) + [x] + (Inorder(b) + [h] + Inorder(c));
    assert Inorder(Branch(low, h, c)) == (Inorder(a) + [x] + Inorder(b)) + [h] + Inorder(c);
  }

  /** The links at cursor (t, p) of the plugged tree. */
  ghost function LinksAt<N>(t: Tree<N>, p: Path<N>, n: N): Links<N>
    requires n in Nodes(t) + PathNodes(p)
  {
    if n in Nodes(t) then LinksIn(t, n, ParentOf(p)) else LinksAround(p, RootOf(t), n)
  }

  lemma PlugLinks<N>(t: Tree<N>, p: Path<N>, n: N)
    requires Apart(t, p) && n in Nodes(t) + PathNodes(p)
    ensures n in Nodes(Plug(t, p))
    ensures LinksIn(Plug(t, p), n, None) == LinksAt(t, p, n)
  {
    if n in Nodes(t) { LinksBelow(t, p, n); } else { LinksAbove(t, p, n); }
  }

  ghost function SetChild<N>(k: Links<N>, p: Path<N>, child: Option<N>): Links<N> {
    match p
    case Top => k
    case InLeft(_, _, _) => k.(left := child)
    case InRight(_, _, _) => k.(right := child)
  }

  lemma {:induction false} PlugRoot<N>(t: Tree<N>, p: Path<N>, u: Tree<N>)
    ensures p.Top? ==> RootOf(Plug(t, p)) == RootOf(t)
    ensures !p.Top? ==> RootOf(Plug(t, p)) == RootOf(Plug(u, p))
    decreases p
  {
    match p
    case Top =>
    case InLeft(up, m, r) => PlugRoot(Branch(t, m, r), up, Branch(u, m, r));
    case InRight(up, l, m) => PlugRoot(Branch(l, m, t), up, Branch(l, m, u));
  }

  /** Moving a cursor down to a child keeps the plugged tree and the separation. */
  lemma Descend<N>(l: Tree<N>, n: N, r: Tree<N>, p: Path<N>)
    ensures Apart(Branch(l, n, r), p) <==> Apart(l, InLeft(p, n, r))
    ensures Apart(Branch(l, n, r), p) <==> Apart(r, InRight(p, l, n))
    ensures Plug(l, InLeft(p, n, r)) == Plug(r, InRight(p, l, n)) == Plug(Branch(l, n, r), p)
  {
  }

  lemma InorderParts<N>(l: Tree<N>, n: N, r: Tree<N>)
    ensures Inorder(Branch(l, n, r)) == Inorder(l) + [n] + Inorder(r)
  {
  }

  lemma PlugTop<N>(t: Tree<N>, p: Path<N>)
    requires p.Top?
    ensures Plug(t, p) == t
  {
  }

  lemma DescendInorder<N>(l: Tree<N>, n: N, r: Tree<N>, p: Path<N>)
    ensures Before(InLeft(p, n, r)) == Before(p)
    ensures Inorder(l) + After(InLeft(p, n, r)) == Inorder(Branch(l, n, r)) + After(p)
    ensures After(InRight(p, l, n)) == After(p)
    ensures Before(InRight(p, l, n)) + Inorder(r) == Before(p) + Inorder(Branch(l, n, r))
  {
    InorderParts(l, n, r);
    assert After(InLeft(p, n, r)) == [n] + Inorder(r) + After(p);
    assert Before(InRight(p, l, n)) == Before(p) + Inorder(l) + [n];
    hide *;
    ConcatLeft([], Inorder(l), [n], Inorder(r), After(p));
    ConcatRight(Before(p), Inorder(l), [n], Inorder(r), []);
    NoEnds(Inorder(l) + [n] + Inorder(r), After(p), Before(p));
  }

  lemma NoEnds<N>(s: seq<N>, a: seq<N>, b: seq<N>)
    ensures [] + s + a == s + a && b + s + [] == b + s
  {
  }

  /** The two ways to move a cursor down. */
  lemma StepDown<N>(t: Tree<N>, p: Path<N>)
    requires t.Branch?
    ensures var q := InLeft(p, t.node, t.right);
      && (Apart(t, p) <==> Apart(t.left, q)) && Plug(t.left, q) == Plug(t, p)
      && Before(q) == Before(p) && Inorder(t.left) + After(q) == Inorder(t) + After(p)
    ensures var q := InRight(p, t.left, t.node);
      && (Apart(t, p) <==> Apart(t.right, q)) && Plug(t.right, q) == Plug(t, p)
      && After(q) == After(p) && Before(q) + Inorder(t.right) == Before(p) + Inorder(t)
  {
    Descend(t.left, t.node, t.right, p);
    DescendInorder(t.left, t.node, t.right, p);
  }

  /** The links of the node under the cursor. */
  lemma CursorLinks<N>(l: Tree<N>, n: N, r: Tree<N>, p: Path<N>)
    requires Apart(Branch(l, n, r), p)
    ensures n in Nodes(Plug(Branch(l, n, r), p))
    ensures LinksIn(Plug(Branch(l, n, r), p), n, None) == Links(RootOf(l), RootOf(r), ParentOf(p))
  {
    PlugLinks(Branch(l, n, r), p, n);
  }

  /** The links of the parent of the hole. */
  lemma ParentLinks<N>(t: Tree<N>, p: Path<N>)
    requires Apart(t, p) && !p.Top?
    ensures p.node in Nodes(Plug(t, p))
    ensures LinksIn(Plug(t, p), p.node, None)
         == if p.InLeft? then Links(RootOf(t), RootOf(p.right), ParentOf(p.up))
            else Links(RootOf(p.left), RootOf(t), ParentOf(p.up))
    ensures t.Branch? && p.InRight? ==> RootOf(p.left) != RootOf(t)
  {
    PlugLinks(t, p, p.node);
  }

  lemma LinksReparent<N>(t: Tree<N>, n: N, before: Option<N>, after: Option<N>)
    requires n in Nodes(t)
    ensures LinksIn(t, n, after)
         == if Some(n) == RootOf(t) then LinksIn(t, n, before).(parent := after) else LinksIn(t, n, before)
  {
  }

  lemma LinksRechild<N>(p: Path<N>, n: N, before: Option<N>, after: Option<N>)
    requires n in PathNodes(p)
    ensures LinksAround(p, after, n)
         == if Some(n) == ParentOf(p) then SetChild(LinksAround(p, before, n), p, after)
            else LinksAround(p, before, n)
  {
  }

  /** The links of n after a right rotation about h, from its links o before. */
  ghost function RotatedRight<N>(x: N, b: Tree<N>, h: N, p: Path<N>, n: N, o: Links<N>): Links<N> {
    if n == h then Links(RootOf(b), o.right, Some(x))
    else if n == x then Links(o.left, Some(h), ParentOf(p))
    else if Some(n) == RootOf(b) then o.(parent := Some(h))
    else if Some(n) == ParentOf(p) then SetChild(o, p, Some(x))
    else o
  }

  lemma RotateRightLinks<N>(a: Tree<N>, x: N, b: Tree<N>, h: N, c: Tree<N>, p: Path<N>, n: N)
    requires Apart(Branch(Branch(a, x, b), h, c), p)
    requires n in Nodes(Branch(Branch(a, x, b), h, c)) + PathNodes(p)
    ensures Apart(Branch(a, x, Branch(b, h, c)), p)
    ensures LinksAt(Branch(a, x, Branch(b, h, c)), p, n)
         == RotatedRight(x, b, h, p, n, LinksAt(Branch(Branch(a, x, b), h, c), p, n))
  {
    var low, r := Branch(a, x, b), Branch(b, h, c);
    var before, after := Branch(low, h, c), Branch(a, x, r);
    assert Distinct(low) && Nodes(low) == Nodes(a) + {x} + Nodes(b);
    assert Distinct(r) && Nodes(r) == Nodes(b) + {h} + Nodes(c);
    assert Nodes(after) == Nodes(before);
    assert LinksIn(low, x, Some(h)) == Links(RootOf(a), RootOf(b), Some(h));
    assert LinksIn(r, h, Some(x)) == Links(RootOf(b), RootOf(c), Some(x));
    assert n in Nodes(a) ==> LinksIn(low, n, Some(h)) == LinksIn(a, n, Some(x));
    assert n in Nodes(c) ==> LinksIn(r, n, Some(x)) == LinksIn(c, n, Some(h));
    assert n in Nodes(b) ==> LinksIn(low, n, Some(h)) == LinksIn(b, n, Some(x));
    assert n in Nodes(b) ==> LinksIn(r, n, Some(x)) == LinksIn(b, n, Some(h));
    if n in Nodes(b) { LinksReparent(b, n, Some(x), Some(h)); }
    if n in PathNodes(p) { LinksRechild(p, n, Some(h), Some(x)); }
  }

  /** The links of n after a left rotation about h, from its links o before. */
  ghost function RotatedLeft<N>(h: N, b: Tree<N>, x: N, p: Path<N>, n: N, o: Links<N>): Links<N> {
    if n == h then Links(o.left, RootOf(b), Some(x))
    else if n == x then Links(Some(h), o.right, ParentOf(p))
    else if Some(n) == RootOf(b) then o.(parent := Some(h))
    else if Some(n) == ParentOf(p) then SetChild(o, p, Some(x))
    else o
  }

  lemma RotateLeftLinks<N>(a: Tree<N>, h: N, b: Tree<N>, x: N, c: Tree<N>, p: Path<N>, n: N)
    requires Apart(Branch(a, h, Branch(b, x, c)), p)
    requires n in Nodes(Branch(a, h, Branch(b, x, c))) + PathNodes(p)
    ensures Apart(Branch(Branch(a, h, b), x, c), p)
    ensures LinksAt(Branch(Branch(a, h, b), x, c), p, n)
         == RotatedLeft(h, b, x, p, n, LinksAt(Branch(a, h, Branch(b, x, c)), p, n))
  {
    var low, r := Branch(b, x, c), Branch(a, h, b);
    var before, after := Branch(a, h, low), Branch(r, x, c);
    assert Distinct(low) && Nodes(low) == Nodes(b) + {x} + Nodes(c);
    assert Distinct(r) && Nodes(r) == Nodes(a) + {h} + Nodes(b);
    assert Nodes(after) == Nodes(before);
    assert LinksIn(low, x, Some(h)) == Links(RootOf(b), RootOf(c), Some(h));
    assert LinksIn(r, h, Some(x)) == Links(RootOf(a), RootOf(b), Some(x));
    assert n in Nodes(a) ==> LinksIn(r, n, Some(x)) == LinksIn(a, n, Some(h));
    assert n in Nodes(c) ==> LinksIn(low, n, Some(h)) == LinksIn(c, n, Some(x));
    assert n in Nodes(b) ==> LinksIn(low, n, Some(h)) == LinksIn(b, n, Some(x));
    assert n in Nodes(b) ==> LinksIn(r, n, Some(x)) == LinksIn(b, n, Some(h));
    if n in Nodes(b) { LinksReparent(b, n, Some(x), Some(h)); }
    if n in PathNodes(p) { LinksRechild(p, n, Some(h), Some(x)); }
  }

  /** The height of the subtree of t rooted at n. */
  ghost function HeightIn<N>(t: Tree<N>, n: N): nat
    requires n in Nodes(t)
  {
    if n == t.node then Height(t)
    else if n in Nodes(t.left) then HeightIn(t.left, n)
    else HeightIn(t.right, n)
  }

  /** The nodes of the trees hanging off the path. */
  ghost function Sides<N>(p: Path<N>): (s: set<N>)
    ensures s <= PathNodes(p)
  {
    match p
    case Top => {}
    case InLeft(up, _, r) => Nodes(r) + Sides(up)
    case InRight(up, l, _) => Nodes(l) + Sides(up)
  }

  ghost function HeightAside<N>(p: Path<N>, n: N): nat
    requires n in Sides(p)
  {
    match p
    case InLeft(up, _, r) => if n in Nodes(r) then HeightIn(r, n) else HeightAside(up, n)
    case InRight(up, l, _) => if n in Nodes(l) then HeightIn(l, n) else HeightAside(up, n)
  }

  lemma {:induction false} PlugHeights<N>(t: Tree<N>, p: Path<N>, n: N)
    requires Apart(t, p) && n in Nodes(t) + Sides(p)
    ensures n in Nodes(Plug(t, p))
    ensures HeightIn(Plug(t, p), n) == if n in Nodes(t) then HeightIn(t, n) else HeightAside(p, n)
    decreases p
  {
    match p
    case Top =>
    case InLeft(up, m, r) => PlugHeights(Branch(t, m, r), up, n);
    case InRight(up, l, m) => PlugHeights(Branch(l, m, t), up, n);
  }

  // What a rotation needs to know about the nodes it touches.

  lemma RightParts<N>(a: Tree<N>, x: N, b: Tree<N>, h: N, c: Tree<N>, p: Path<N>)
    requires Apart(Branch(Branch(a, x, b), h, c), p)
    ensures Nodes(Plug(Branch(Branch(a, x, b), h, c), p))
         == Nodes(a) + {x} + Nodes(b) + {h} + Nodes(c) + PathNodes(p)
    ensures h != x && Nodes(a) + Nodes(b) + Nodes(c) + PathNodes(p) !! {h, x}
    ensures Nodes(b) !! PathNodes(p) && Nodes(b) !! Nodes(c) && Nodes(a) !! Nodes(b)
    ensures Distinct(Branch(b, h, c)) && Distinct(Branch(a, x, Branch(b, h, c)))
  {
    var low, r := Branch(a, x, b), Branch(b, h, c);
    PlugNodes(Branch(low, h, c), p);
    assert Distinct(low) && Nodes(low) == Nodes(a) + {x} + Nodes(b);
    assert Distinct(r) && Nodes(r) == Nodes(b) + {h} + Nodes(c);
  }

  lemma RightLinks<N>(a: Tree<N>, x: N, b: Tree<N>, h: N, c: Tree<N>, p: Path<N>)
    returns (t: Tree<N>)
    requires Apart(Branch(Branch(a, x, b), h, c), p)
    ensures t == Plug(Branch(Branch(a, x, b), h, c), p)
    ensures h in Nodes(t) && LinksIn(t, h, None) == Links(Some(x), RootOf(c), ParentOf(p))
    ensures x in Nodes(t) && LinksIn(t, x, None) == Links(RootOf(a), RootOf(b), Some(h))
    ensures b.Branch? ==> b.node in Nodes(t) && LinksIn(t, b.node, None).parent == Some(x)
    ensures !p.Top? ==> p.node in Nodes(t)
    ensures p.InLeft? ==> LinksIn(t, p.node, None).left == Some(h)
    ensures p.InRight? ==> LinksIn(t, p.node, None).right == Some(h) && LinksIn(t, p.node, None).left != Some(h)
    ensures p.Top? ==> RootOf(t) == Some(h)
  {
    var low, hole := Branch(a, x, b), InLeft(p, h, c);
    t := Plug(Branch(low, h, c), p);
    CursorLinks(low, h, c, p);
    Descend(low, h, c, p);
    CursorLinks(a, x, b, hole);
    Descend(a, x, b, hole);
    if b.Branch? { CursorLinks(b.left, b.node, b.right, InRight(hole, a, x)); }
    if !p.Top? { ParentLinks(Branch(low, h, c), p); }
    PlugRoot(Branch(low, h, c), p, Leaf);
  }

  lemma LeftParts<N>(a: Tree<N>, h: N, b: Tree<N>, x: N, c: Tree<N>, p: Path<N>)
    requires Apart(Branch(a, h, Branch(b, x, c)), p)
    ensures Nodes(Plug(Branch(a, h, Branch(b, x, c)), p))
         == Nodes(a) + {h} + Nodes(b) + {x} + Nodes(c) + PathNodes(p)
    ensures h != x && Nodes(a) + Nodes(b) + Nodes(c) + PathNodes(p) !! {h, x}
    ensures Nodes(b) !! PathNodes(p) && Nodes(b) !! Nodes(c) && Nodes(a) !! Nodes(b)
    ensures Distinct(Branch(a, h, b)) && Distinct(Branch(Branch(a, h, b), x, c))
  {
    var low, r := Branch(b, x, c), Branch(a, h, b);
    PlugNodes(Branch(a, h, low), p);
    assert Distinct(low) && Nodes(low) == Nodes(b) + {x} + Nodes(c);
    assert Distinct(r) && Nodes(r) == Nodes(a) + {h} + Nodes(b);
  }

  lemma LeftLinks<N>(a: Tree<N>, h: N, b: Tree<N>, x: N, c: Tree<N>, p: Path<N>)
    returns (t: Tree<N>)
    requires Apart(Branch(a, h, Branch(b, x, c)), p)
    ensures t == Plug(Branch(a, h, Branch(b, x, c)), p)
    ensures h in Nodes(t) && LinksIn(t, h, None) == Links(RootOf(a), Some(x), ParentOf(p))
    ensures x in Nodes(t) && LinksIn(t, x, None) == Links(RootOf(b), RootOf(c), Some(h))
    ensures b.Branch? ==> b.node in Nodes(t) && LinksIn(t, b.node, None).parent == Some(x)
    ensures !p.Top? ==> p.node in Nodes(t)
    ensures p.InLeft? ==> LinksIn(t, p.node, None).left == Some(h)
    ensures p.InRight? ==> LinksIn(t, p.node, None).right == Some(h) && LinksIn(t, p.node, None).left != Some(h)
    ensures p.Top? ==> RootOf(t) == Some(h)
  {
    var low, hole := Branch(b, x, c), InRight(p, a, h);
    t := Plug(Branch(a, h, low), p);
    CursorLinks(a, h, low, p);
    Descend(a, h, low, p);
    CursorLinks(b, x, c, hole);
    Descend(b, x, c, hole);
    if b.Branch? { CursorLinks(b.left, b.node, b.right, InLeft(hole, x, c)); }
    if !p.Top? { ParentLinks(Branch(a, h, low), p); }
    PlugRoot(Branch(a, h, low), p, Leaf);
  }

  /** The rotation lemmas on the whole tree. */
  lemma PlugRotateRight<N>(a: Tree<N>, x: N, b: Tree<N>, h: N, c: Tree<N>, p: Path<N>)
    requires Apart(Branch(Branch(a, x, b), h, c), p)
    ensures Apart(Branch(a, x, Branch(b, h, c)), p)
    ensures Nodes(Plug(Branch(a, x, Branch(b, h, c)), p)) == Nodes(Plug(Branch(Branch(a, x, b), h, c), p))
    ensures p.Top? ==> RootOf(Plug(Branch(a, x, Branch(b, h, c)), p)) == Some(x)
    ensures !p.Top? ==> RootOf(Plug(Branch(a, x, Branch(b, h, c)), p)) == RootOf(Plug(Branch(Branch(a, x, b), h, c), p))
    ensures forall n <- Nodes(Plug(Branch(Branch(a, x, b), h, c), p)) ::
      LinksIn(Plug(Branch(a, x, Branch(b, h, c)), p), n, None)
      == RotatedRight(x, b, h, p, n, LinksIn(Plug(Branch(Branch(a, x, b), h, c), p), n, None))
  {
    hide Apart, Plug, LinksIn, LinksAt, RotatedRight;
    var before, after := Branch(Branch(a, x, b), h, c), Branch(a, x, Branch(b, h, c));
    RotateRightLinks(a, x, b, h, c, p, x);
    PlugNodes(before, p);
    PlugNodes(after, p);
    PlugRoot(after, p, before);
    forall n <- Nodes(Plug(before, p)) ensures
      LinksIn(Plug(after, p), n, None) == RotatedRight(x, b, h, p, n, LinksIn(Plug(before, p), n, None))
    {
      PlugLinks(before, p, n);
      PlugLinks(after, p, n);
      RotateRightLinks(a, x, b, h, c, p, n);
    }
  }

  lemma PlugRotateLeft<N>(a: Tree<N>, h: N, b: Tree<N>, x: N, c: Tree<N>, p: Path<N>)
    requires Apart(Branch(a, h, Branch(b, x, c)), p)
    ensures Apart(Branch(Branch(a, h, b), x, c), p)
    ensures Nodes(Plug(Branch(Branch(a, h, b), x, c), p)) == Nodes(Plug(Branch(a, h, Branch(b, x, c)), p))
    ensures p.Top? ==> RootOf(Plug(Branch(Branch(a, h, b), x, c), p)) == Some(x)
    ensures !p.Top? ==> RootOf(Plug(Branch(Branch(a, h, b), x, c), p)) == RootOf(Plug(Branch(a, h, Branch(b, x, c)), p))
    ensures forall n <- Nodes(Plug(Branch(a, h, Branch(b, x, c)), p)) ::
      LinksIn(Plug(Branch(Branch(a, h, b), x, c), p), n, None)
      == RotatedLeft(h, b, x, p, n, LinksIn(Plug(Branch(a, h, Branch(b, x, c)), p), n, None))
  {
    hide Apart, Plug, LinksIn, LinksAt, RotatedLeft;
    var before, after := Branch(a, h, Branch(b, x, c)), Branch(Branch(a, h, b), x, c);
    RotateLeftLinks(a, h, b, x, c, p, x);
    PlugNodes(before, p);
    PlugNodes(after, p);
    PlugRoot(after, p, before);
    forall n <- Nodes(Plug(before, p)) ensures
      LinksIn(Plug(after, p), n, None) == RotatedLeft(h, b, x, p, n, LinksIn(Plug(before, p), n, None))
    {
      PlugLinks(before, p, n);
      PlugLinks(after, p, n);
      RotateLeftLinks(a, h, b, x, c, p, n);
    }
  }

  // Removing a node that has at most one child: the child takes its place.

  /** c is the only subtree of a node with subtrees l and r. */
  ghost predicate OnlyChild<N>(c: Tree<N>, l: Tree<N>, r: Tree<N>) {
    (c == l && r.Leaf?) || (c == r && l.Leaf?)
  }

  /** The links of n after c has taken the place of its parent, from its links o before. */
  ghost function Spliced<N>(c: Tree<N>, p: Path<N>, n: N, o: Links<N>): Links<N> {
    if Some(n) == RootOf(c) then o.(parent := ParentOf(p))
    else if Some(n) == ParentOf(p) then SetChild(o, p, RootOf(c))
    else o
  }

  lemma SpliceLinks<N>(c: Tree<N>, l: Tree<N>, m: N, r: Tree<N>, p: Path<N>, n: N)
    requires OnlyChild(c, l, r) && Apart(Branch(l, m, r), p)
    requires n in Nodes(Plug(Branch(l, m, r), p)) && n != m
    ensures Apart(c, p) && n in Nodes(Plug(c, p))
    ensures LinksIn(Plug(c, p), n, None) == Spliced(c, p, n, LinksIn(Plug(Branch(l, m, r), p), n, None))
  {
    PlugNodes(Branch(l, m, r), p);
    assert Nodes(Branch(l, m, r)) == Nodes(c) + {m};
    assert Apart(c, p);
    PlugNodes(c, p);
    PlugLinks(Branch(l, m, r), p, n);
    PlugLinks(c, p, n);
    if n in Nodes(c) {
      LinksReparent(c, n, Some(m), ParentOf(p));
    } else {
      LinksRechild(p, n, Some(m), RootOf(c));
    }
  }

  // Putting a node in the place of another.

  ghost function Swap<N>(x: N, a: N, b: N): N {
    if x == a then b else x
  }

  ghost function SwapOption<N>(x: Option<N>, a: N, b: N): Option<N> {
    if x == Some(a) then Some(b) else x
  }

  ghost function SwapLinks<N>(k: Links<N>, a: N, b: N): Links<N> {
    Links(SwapOption(k.left, a, b), SwapOption(k.right, a, b), SwapOption(k.parent, a, b))
  }

  ghost function Rename<N>(t: Tree<N>, a: N, b: N): Tree<N> {
    match t
    case Leaf => Leaf
    case Branch(l, n, r) => Branch(Rename(l, a, b), Swap(n, a, b), Rename(r, a, b))
  }

  ghost function RenamePath<N>(p: Path<N>, a: N, b: N): Path<N> {
    match p
    case Top => Top
    case InLeft(up, n, r) => InLeft(RenamePath(up, a, b), Swap(n, a, b), Rename(r, a, b))
    case InRight(up, l, n) => InRight(RenamePath(up, a, b), Rename(l, a, b), Swap(n, a, b))
  }

  lemma {:induction false} RenamePlug<N>(t: Tree<N>, p: Path<N>, a: N, b: N)
    ensures Plug(Rename(t, a, b), RenamePath(p, a, b)) == Rename(Plug(t, p), a, b)
    decreases p
  {
    match p
    case Top =>
    case InLeft(up, n, r) => RenamePlug(Branch(t, n, r), up, a, b);
    case InRight(up, l, n) => RenamePlug(Branch(l, n, t), up, a, b);
  }

  lemma {:induction false} RenameAbsent<N>(t: Tree<N>, a: N, b: N)
    requires a !in Nodes(t)
    ensures Rename(t, a, b) == t
  {
    match t
    case Leaf =>
    case Branch(l, n, r) => RenameAbsent(l, a, b); RenameAbsent(r, a, b);
  }

  lemma {:induction false} RenameNodes<N>(t: Tree<N>, a: N, b: N)
    requires b !in Nodes(t) && a in Nodes(t) && Distinct(t)
    ensures Nodes(Rename(t, a, b)) == Nodes(t) - {a} + {b}
    ensures Distinct(Rename(t, a, b))
  {
    match t
    case Branch(l, n, r) =>
      if a in Nodes(l) {
        RenameNodes(l, a, b);
        RenameAbsent(r, a, b);
      } else if a in Nodes(r) {
        RenameNodes(r, a, b);
        RenameAbsent(l, a, b);
      } else {
        RenameAbsent(l, a, b);
        RenameAbsent(r, a, b);
      }
  }

  lemma {:induction false} RenameLinks<N>(t: Tree<N>, a: N, b: N, n: N, parent: Option<N>)
    requires b !in Nodes(t) && n in Nodes(t) && Distinct(t)
    ensures Swap(n, a, b) in Nodes(Rename(t, a, b))
    ensures LinksIn(Rename(t, a, b), Swap(n, a, b), SwapOption(parent, a, b))
         == SwapLinks(LinksIn(t, n, parent), a, b)
  {
    var u := Rename(t, a, b);
    if a in Nodes(t.left) { RenameNodes(t.left, a, b); } else { RenameAbsent(t.left, a, b); }
    if a in Nodes(t.right) { RenameNodes(t.right, a, b); } else { RenameAbsent(t.right, a, b); }
    if n == t.node {
    } else if n in Nodes(t.left) {
      RenameLinks(t.left, a, b, n, Some(t.node));
    } else {
      RenameLinks(t.right, a, b, n, Some(t.node));
    }
  }

  // Cursor positions and the in-order sequence.

  lemma OnlyPlace<N>(s: seq<N>, b: seq<N>, n: N, a: seq<N>, i: nat)
    requires s == b + [n] + a && NoRepeats(s) && i < |s| && s[i] == n
    ensures i == |b| && s[..i] == b && s[i + 1..] == a
  {
    assert s[|b|] == n;
  }

  /** n stands at one place only of the in-order sequence, the one its cursor position gives. */
  lemma Position<N>(l: Tree<N>, n: N, r: Tree<N>, p: Path<N>, s: seq<N>, i: nat)
    requires Apart(Branch(l, n, r), p)
    requires s == Inorder(Plug(Branch(l, n, r), p)) && i < |s| && s[i] == n
    ensures i == |Before(p) + Inorder(l)|
    ensures s[..i] == Before(p) + Inorder(l) && s[i + 1..] == Inorder(r) + After(p)
  {
    var t := Branch(l, n, r);
    PlugFacts(t, p);
    InorderNoRepeats(Plug(t, p));
    InorderParts(l, n, r);
    hide *;
    Regrouped(Before(p), Inorder(l), n, Inorder(r), After(p));
    OnlyPlace(s, Before(p) + Inorder(l), n, Inorder(r) + After(p), i);
  }

  lemma Regrouped<N>(a: seq<N>, b: seq<N>, n: N, c: seq<N>, d: seq<N>)
    ensures a + (b + [n] + c) + d == (a + b) + [n] + (c + d)
  {
  }

  lemma CursorAt<N>(t: Tree<N>, n: N, i: nat) returns (sub: Tree<N>, p: Path<N>)
    requires Distinct(t) && i < |Inorder(t)| && Inorder(t)[i] == n
    ensures sub.Branch? && sub.node == n && Apart(sub, p) && Plug(sub, p) == t
    ensures i == |Before(p) + Inorder(sub.left)|
    ensures Inorder(t)[..i] == Before(p) + Inorder(sub.left)
    ensures Inorder(t)[i + 1..] == Inorder(sub.right) + After(p)
  {
    InNodes(t, n);
    sub, p := Locate(t, n, Top);
    PlugDistinct(sub, p);
    Position(sub.left, n, sub.right, p, Inorder(t), i);
  }

  lemma EndNodes<N>(l: Tree<N>, n: N, r: Tree<N>)
    ensures var s := Inorder(Branch(l, n, r));
      s != [] && (l.Leaf? ==> s[0] == n) && (r.Leaf? ==> s[|s| - 1] == n)
  {
  }

  lemma NonEmptyInorder<N>(t: Tree<N>)
    requires t.Branch?
    ensures |Inorder(t)| > 0
  {
  }

  lemma EmptyInorder<N>(t: Tree<N>)
    requires t.Leaf?
    ensures Inorder(t) == []
  {
  }

  /** Moving a cursor up to the parent of the hole keeps the plugged tree. */
  lemma Ascend<N>(t: Tree<N>, p: Path<N>)
    requires Apart(t, p) && !p.Top?
    ensures var u := if p.InLeft? then Branch(t, p.node, p.right) else Branch(p.left, p.node, t);
      Apart(u, p.up) && Plug(u, p.up) == Plug(t, p)
  {
  }

  /** The holes next to the node under the cursor. */
  lemma HoleFacts<N>(sub: Tree<N>, p: Path<N>)
    requires sub.Branch? && Apart(sub, p)
    ensures sub == Branch(sub.left, sub.node, sub.right)
    ensures After(InLeft(p, sub.node, sub.right)) == [sub.node] + Inorder(sub.right) + After(p)
    ensures Before(InRight(p, sub.left, sub.node)) == Before(p) + Inorder(sub.left) + [sub.node]
    ensures sub.node !in Sides(InLeft(p, sub.node, sub.right)) + Nodes(sub.left)
  {
  }

  /** What the sequences around the hole say about the step up from it. */
  lemma AscendAfter<N>(p: Path<N>)
    ensures p.Top? ==> Before(p) == [] && After(p) == []
    ensures p.InLeft? ==> Before(p) == Before(p.up) && After(p) != [] && After(p)[0] == p.node
    ensures p.InRight? ==> After(p) == After(p.up) && Before(p) != [] && Before(p)[|Before(p)| - 1] == p.node
  {
  }

  /** Child and parent links are mutual. */
  lemma {:induction false} LinksMutual<N>(t: Tree<N>, n: N, parent: Option<N>)
    requires Distinct(t) && n in Nodes(t)
    ensures var k := LinksIn(t, n, parent);
      && (k.left.Some? ==> k.left.value in Nodes(t) && LinksIn(t, k.left.value, parent).parent == Some(n))
      && (k.right.Some? ==> k.right.value in Nodes(t) && LinksIn(t, k.right.value, parent).parent == Some(n))
      && (n == t.node ==> k.parent == parent)
      && (n != t.node ==> k.parent.Some? && k.parent.value in Nodes(t)
                          && var up := LinksIn(t, k.parent.value, parent); up.left == Some(n) || up.right == Some(n))
  {
    if n in Nodes(t.left) {
      LinksMutual(t.left, n, Some(t.node));
    } else if n in Nodes(t.right) {
      LinksMutual(t.right, n, Some(t.node));
    }
  }

  ghost function SwapAll<N>(s: seq<N>, a: N, b: N): seq<N> {
    if s == [] then [] else [Swap(s[0], a, b)] + SwapAll(s[1..], a, b)
  }

  lemma {:induction false} SwapAllConcat<N>(s: seq<N>, u: seq<N>, a: N, b: N)
    ensures SwapAll(s + u, a, b) == SwapAll(s, a, b) + SwapAll(u, a, b)
  {
    if s == [] {
      assert s + u == u;
    } else {
      assert (s + u)[1..] == s[1..] + u;
      SwapAllConcat(s[1..], u, a, b);
    }
  }

  lemma {:induction false} SwapAllAbsent<N>(s: seq<N>, a: N, b: N)
    requires a !in s
    ensures SwapAll(s, a, b) == s
  {
    if s != [] { SwapAllAbsent(s[1..], a, b); }
  }

  lemma {:induction false} RenameInorder<N>(t: Tree<N>, a: N, b: N)
    ensures Inorder(Rename(t, a, b)) == SwapAll(Inorder(t), a, b)
  {
    match t
    case Leaf =>
    case Branch(l, n, r) =>
      RenameInorder(l, a, b);
      RenameInorder(r, a, b);
      SwapAllConcat(Inorder(l) + [n], Inorder(r), a, b);
      SwapAllConcat(Inorder(l), [n], a, b);
  }

  /** Only the trees off the path keep their heights; a node on the path itself may be renamed. */
  lemma {:induction false} RenameSides<N>(p: Path<N>, a: N, b: N)
    requires a !in Sides(p)
    ensures Sides(RenamePath(p, a, b)) == Sides(p)
    ensures forall n <- Sides(p) :: HeightAside(RenamePath(p, a, b), n) == HeightAside(p, n)
  {
    match p
    case Top =>
    case InLeft(up, _, r) => RenameSides(up, a, b); RenameAbsent(r, a, b);
    case InRight(up, l, _) => RenameSides(up, a, b); RenameAbsent(l, a, b);
  }

  lemma {:induction false} RenameHeight<N>(t: Tree<N>, a: N, b: N)
    ensures Height(Rename(t, a, b)) == Height(t)
  {
    match t
    case Leaf =>
    case Branch(l, _, r) => RenameHeight(l, a, b); RenameHeight(r, a, b);
  }

  /** Moving up replaces a subtree by another with the same in-order sequence. */
  lemma SameInorder<N>(t: Tree<N>, u: Tree<N>, p: Path<N>)
    requires Inorder(t) == Inorder(u)
    ensures Inorder(Plug(t, p)) == Inorder(Plug(u, p))
  {
    hide Inorder, Plug;
    PlugInorder(t, p);
    PlugInorder(u, p);
  }

  /** Hanging a leaf into a hole. */
  lemma AttachLinks<N>(p: Path<N>, added: N, n: N)
    requires DistinctPath(p) && added !in PathNodes(p) && n in PathNodes(p)
    ensures n in Nodes(Plug(Leaf, p)) && n in Nodes(Plug(Branch(Leaf, added, Leaf), p))
    ensures LinksIn(Plug(Branch(Leaf, added, Leaf), p), n, None)
         == var o := LinksIn(Plug(Leaf, p), n, None);
            if Some(n) == ParentOf(p) then SetChild(o, p, Some(added)) else o
  {
    assert Apart(Leaf, p) && Apart(Branch(Leaf, added, Leaf), p);
    PlugLinks(Leaf, p, n);
    PlugLinks(Branch(Leaf, added, Leaf), p, n);
    LinksRechild(p, n, None, Some(added));
  }
}
