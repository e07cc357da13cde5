/** Inserting a node into a red-black tree. */
module RedBlackInsert {
  import opened Trees
  import opened RedBlackNodes
  import opened RedBlackColors
  import opened RedBlackState

  /** The climb stands at the red node, the root of the subtree t: all is sound but that its parent
      may be red too. */
  ghost predicate Climbing(node: Node, t: Tree<Node>, p: Path<Node>, b: set<Node>, anchor: Node, nodes: set<Node>,
                           all: seq<Node>)
    reads anchor, nodes, Nodes(Plug(t, p))
  {
    && t.Branch? && t.node == node && node !in b
    && Apart(t, p) && Linked(Plug(t, p), anchor) && nodes == Nodes(Plug(t, p)) && Inorder(Plug(t, p)) == all
    && Colored(nodes, b) && RedBlack(t, b) && PathRedBlack(p, b, BlackHeight(t, b))
  }

  ghost function Length<N>(p: Path<N>): nat {
    if p.Top? then 0 else 1 + Length(p.up)
  }

  /** Parent, grandparent and uncle, as the climb reads them. */
  lemma Family(t: Tree<Node>, p: Path<Node>, b: set<Node>, anchor: Node)
    requires t.Branch? && Apart(t, p) && Linked(Plug(t, p), anchor)
    requires PathRedBlack(p, b, BlackHeight(t, b)) && !p.Top? && p.node !in b
    ensures !p.up.Top? && p.up.node in b
    ensures var s := Above(t, p); var w := Above(s, p.up);
      && Apart(s, p.up) && Plug(s, p.up) == Plug(t, p)
      && Apart(w, p.up.up) && Plug(w, p.up.up) == Plug(t, p)
    ensures {p.node, p.up.node} <= Nodes(Plug(t, p))
    ensures t.node.parent == p.node && p.node.parent == p.up.node
    ensures p.node.left == Ptr(RootOf(Above(t, p).left)) && p.node.right == Ptr(RootOf(Above(t, p).right))
    ensures p.up.node.left == Ptr(RootOf(Above(Above(t, p), p.up).left))
    ensures p.up.node.right == Ptr(RootOf(Above(Above(t, p), p.up).right))
  {
    hide Apart, Linked, Plug;
    var s := Above(t, p);
    Ascend(t, p);
    Ascend(s, p.up);
    CursorPointers(t, p, anchor);
    CursorPointers(s, p.up, anchor);
    CursorPointers(Above(s, p.up), p.up.up, anchor);
  }

  method PaintFamily(parent: Node, uncle: Node, grandparent: Node, ghost whole: Tree<Node>, ghost b: set<Node>,
                     ghost anchor: Node, ghost nodes: set<Node>)
    requires Linked(whole, anchor) && nodes == Nodes(whole) && Colored(nodes, b)
    requires parent != grandparent && uncle != grandparent
    modifies parent`color, uncle`color, grandparent`color
    ensures Linked(whole, anchor) && Colored(nodes, b + {parent, uncle} - {grandparent})
  {
    parent.color := Black;
    uncle.color := Black;
    grandparent.color := Red;
  }

  /** Parent and uncle are red. */
  method Recolor(parent: Node, uncle: Node, grandparent: Node, ghost t: Tree<Node>, ghost p: Path<Node>,
                 ghost b: set<Node>, ghost anchor: Node, ghost nodes: set<Node>, ghost all: seq<Node>)
    returns (ghost t': Tree<Node>, ghost b': set<Node>)
    requires t.Branch? && Climbing(t.node, t, p, b, anchor, nodes, all) && !p.Top? && p.node == parent && parent !in b
    requires !p.up.Top? && p.up.node == grandparent && grandparent in b
    requires var u := if p.up.InLeft? then p.up.right else p.up.left;
             u.Branch? && u.node == uncle && uncle !in b
    modifies parent`color, uncle`color, grandparent`color
    ensures Climbing(grandparent, t', p.up.up, b', anchor, nodes, all)
  {
    hide Distinct, DistinctPath, Apart, Plug, Inorder, RedBlack, PathRedBlack, BlackHeight, LinksIn, Linked, Colored;
    ghost var s := Above(t, p);
    t' := Above(s, p.up);
    assert s == Branch(s.left, parent, s.right);
    ghost var u := if p.up.InLeft? then p.up.right else p.up.left;
    UncleFacts(t, p, b);
    Family(t, p, b, anchor);
    PlugNodes(t', p.up.up);
    PaintFamily(parent, uncle, grandparent, Plug(t, p), b, anchor, nodes);
    b' := b + {parent, uncle} - {grandparent};
    RecolorUncle(s.left, parent, s.right, grandparent, u, p.up.up, b, BlackHeight(t, b));
  }

  lemma UncleFacts<N>(t: Tree<N>, p: Path<N>, b: set<N>)
    requires RedBlack(t, b) && PathRedBlack(p, b, BlackHeight(t, b))
    requires !p.Top? && p.node !in b && !p.up.Top? && p.up.node in b
    ensures var s, h := Above(t, p), BlackHeight(t, b);
      var u := if p.up.InLeft? then p.up.right else p.up.left;
      && RedBlack(s.left, b) && RedBlack(s.right, b) && BlackHeight(s.left, b) == BlackHeight(s.right, b) == h
      && RedBlack(u, b) && BlackHeight(u, b) == h && PathRedBlack(p.up.up, b, h + 1)
      && (if p.InLeft? then RootBlack(p.right, b) else RootBlack(p.left, b))
  {
  }

  /** The parent q of the red x hangs left of g; x, y and the uncle u are sound and of one black height. */
  ghost predicate StraightLeft(x: Tree<Node>, q: Node, y: Tree<Node>, g: Node, u: Tree<Node>, up: Path<Node>,
                               b: set<Node>, anchor: Node, nodes: set<Node>, all: seq<Node>)
    reads anchor, nodes, Nodes(Plug(Branch(Branch(x, q, y), g, u), up))
  {
    var w := Branch(Branch(x, q, y), g, u);
    && Apart(w, up) && Linked(Plug(w, up), anchor) && nodes == Nodes(Plug(w, up)) && Inorder(Plug(w, up)) == all
    && Colored(nodes, b) && Sound(x, y, u, up, b)
  }

  ghost predicate Sound<N>(x: Tree<N>, y: Tree<N>, u: Tree<N>, up: Path<N>, b: set<N>) {
    && RedBlack(x, b) && RedBlack(y, b) && RedBlack(u, b)
    && BlackHeight(x, b) == BlackHeight(y, b) == BlackHeight(u, b)
    && !RootBlack(x, b) && RootBlack(y, b) && RootBlack(u, b)
    && PathRedBlack(up, b, BlackHeight(x, b) + 1)
  }

  /** The shapes before and after the inner rotation. */
  lemma SoundSingle<N>(t: Tree<N>, p: Path<N>, b: set<N>)
    requires t.Branch? && t.node !in b && RedBlack(t, b) && PathRedBlack(p, b, BlackHeight(t, b))
    requires !p.Top? && p.node !in b && !p.up.Top? && p.up.node in b
    requires RootBlack(if p.up.InLeft? then p.up.right else p.up.left, b)
    ensures var u, c := if p.up.InLeft? then p.up.right else p.up.left, if p.InLeft? then p.right else p.left;
      && Sound(t, c, u, p.up.up, b)
      && Sound(Branch(c, p.node, t.left), t.right, u, p.up.up, b)
      && Sound(Branch(t.right, p.node, c), t.left, u, p.up.up, b)
  {
    UncleFacts(t, p, b);
  }

  method StraightenLeft(pNode: Node, anchor: Node, ghost t: Tree<Node>, ghost p: Path<Node>, ghost b: set<Node>,
                        ghost nodes: set<Node>, ghost all: seq<Node>)
    returns (next: Node, ghost x: Tree<Node>, ghost q: Node, ghost y: Tree<Node>)
    requires Climbing(pNode, t, p, b, anchor, nodes, all) && !p.Top? && p.node !in b
    requires p.up.InLeft? && p.up.node in b && RootBlack(p.up.right, b)
    modifies nodes`left, nodes`right, nodes`parent, anchor`parent
    ensures StraightLeft(x, q, y, p.up.node, p.up.right, p.up.up, b, anchor, nodes, all)
    ensures x.Branch? && x.node == next && next in nodes && next.parent == q && q in nodes
  {
    hide Distinct, DistinctPath, Apart, Plug, Inorder, RedBlack, PathRedBlack, BlackHeight, LinksIn, Linked;
    ghost var par, g, u, up := p.node, p.up.node, p.up.right, p.up.up;
    Family(t, p, b, anchor);
    SoundSingle(t, p, b);
    ChildSide(t, p);
    CursorPointers(t, p, anchor);
    next := pNode;
    if pNode == pNode.parent.right {
      next := pNode.parent;
      x, q, y := Branch(p.left, par, t.left), t.node, t.right;
      RotateLeftAt(next, anchor, p.left, t.left, t.node, t.right, p.up, nodes);
      Ascend(Branch(x, q, y), p.up);
    } else {
      x, q, y := t, par, p.right;
    }
    ghost var s := Branch(x, q, y);
    Descend(s, g, u, up);
    Descend(x, q, y, InLeft(up, g, u));
    CursorPointers(s, p.up, anchor);
    CursorPointers(x, InLeft(p.up, q, y), anchor);
  }

  lemma LiftApart<N>(x: Tree<N>, q: N, y: Tree<N>, g: N, u: Tree<N>, up: Path<N>)
    requires Apart(Branch(Branch(x, q, y), g, u), up) || Apart(Branch(u, g, Branch(y, q, x)), up)
    ensures q != g
    ensures Apart(Branch(Branch(x, q, y), g, u), up) ==> Apart(Branch(x, q, Branch(y, g, u)), up)
    ensures Apart(Branch(u, g, Branch(y, q, x)), up) ==> Apart(Branch(Branch(u, g, y), q, x), up)
  {
    if Apart(Branch(Branch(x, q, y), g, u), up) { RightParts(x, q, y, g, u, up); PlugRotateRight(x, q, y, g, u, up); }
    if Apart(Branch(u, g, Branch(y, q, x)), up) { LeftParts(u, g, y, q, x, up); PlugRotateLeft(u, g, y, q, x, up); }
  }

  /** The end of the climb: q turns black, g red, and g is rotated down. */
  method LiftLeft(next: Node, g: Node, anchor: Node, ghost x: Tree<Node>, ghost q: Node, ghost y: Tree<Node>,
                  ghost u: Tree<Node>, ghost up: Path<Node>, ghost b: set<Node>, ghost nodes: set<Node>,
                  ghost all: seq<Node>)
    returns (ghost p': Path<Node>, ghost b': set<Node>)
    requires StraightLeft(x, q, y, g, u, up, b, anchor, nodes, all)
    requires x.Branch? && x.node == next && next.parent == q && q in nodes && g in nodes
    modifies nodes, anchor`parent
    ensures Climbing(next, x, p', b', anchor, nodes, all) && BlackAbove(p', b')
  {
    hide Distinct, DistinctPath, Apart, Plug, Inorder, RedBlack, PathRedBlack, BlackHeight, LinksIn, Linked;
    ghost var s := Branch(x, q, y);
    Descend(s, g, u, up);
    LiftApart(x, q, y, g, u, up);
    Paint(next.parent, g, Plug(Branch(s, g, u), up), b, anchor, nodes);
    RotateRightAt(g, anchor, x, q, y, u, up, nodes);
    p', b' := InLeft(up, q, Branch(y, g, u)), b + {q} - {g};
    RotateUncle(x, q, y, g, u, up, b, BlackHeight(x, b));
    Descend(x, q, Branch(y, g, u), up);
  }

  // The mirror image: the parent is the right child.

  ghost predicate StraightRight(x: Tree<Node>, q: Node, y: Tree<Node>, g: Node, u: Tree<Node>, up: Path<Node>,
                                b: set<Node>, anchor: Node, nodes: set<Node>, all: seq<Node>)
    reads anchor, nodes, Nodes(Plug(Branch(u, g, Branch(y, q, x)), up))
  {
    var w := Branch(u, g, Branch(y, q, x));
    && Apart(w, up) && Linked(Plug(w, up), anchor) && nodes == Nodes(Plug(w, up)) && Inorder(Plug(w, up)) == all
    && Colored(nodes, b) && Sound(x, y, u, up, b)
  }

  method StraightenRight(pNode: Node, anchor: Node, ghost t: Tree<Node>, ghost p: Path<Node>, ghost b: set<Node>,
                         ghost nodes: set<Node>, ghost all: seq<Node>)
    returns (next: Node, ghost x: Tree<Node>, ghost q: Node, ghost y: Tree<Node>)
    requires Climbing(pNode, t, p, b, anchor, nodes, all) && !p.Top? && p.node !in b
    requires p.up.InRight? && p.up.node in b && RootBlack(p.up.left, b)
    modifies nodes`left, nodes`right, nodes`parent, anchor`parent
    ensures StraightRight(x, q, y, p.up.node, p.up.left, p.up.up, b, anchor, nodes, all)
    ensures x.Branch? && x.node == next && next in nodes && next.parent == q && q in nodes
  {
    hide Distinct, DistinctPath, Apart, Plug, Inorder, RedBlack, PathRedBlack, BlackHeight, LinksIn, Linked;
    ghost var par, g, u, up := p.node, p.up.node, p.up.left, p.up.up;
    Family(t, p, b, anchor);
    SoundSingle(t, p, b);
    ChildSide(t, p);
    CursorPointers(t, p, anchor);
    next := pNode;
    if pNode == pNode.parent.left {
      next := pNode.parent;
      x, q, y := Branch(t.right, par, p.right), t.node, t.left;
      RotateRightAt(next, anchor, t.left, t.node, t.right, p.right, p.up, nodes);
      Ascend(Branch(y, q, x), p.up);
    } else {
      x, q, y := t, par, p.left;
    }
    ghost var s := Branch(y, q, x);
    Descend(u, g, s, up);
    Descend(y, q, x, InRight(up, u, g));
    CursorPointers(s, p.up, anchor);
    CursorPointers(x, InRight(p.up, y, q), anchor);
  }

  method LiftRight(next: Node, g: Node, anchor: Node, ghost x: Tree<Node>, ghost q: Node, ghost y: Tree<Node>,
                   ghost u: Tree<Node>, ghost up: Path<Node>, ghost b: set<Node>, ghost nodes: set<Node>,
                   ghost all: seq<Node>)
    returns (ghost p': Path<Node>, ghost b': set<Node>)
    requires StraightRight(x, q, y, g, u, up, b, anchor, nodes, all)
    requires x.Branch? && x.node == next && next.parent == q && q in nodes && g in nodes
    modifies nodes, anchor`parent
    ensures Climbing(next, x, p', b', anchor, nodes, all) && BlackAbove(p', b')
  {
    hide Distinct, DistinctPath, Apart, Plug, Inorder, RedBlack, PathRedBlack, BlackHeight, LinksIn, Linked;
    ghost var s := Branch(y, q, x);
    Descend(u, g, s, up);
    LiftApart(x, q, y, g, u, up);
    Paint(next.parent, g, Plug(Branch(u, g, s), up), b, anchor, nodes);
    RotateLeftAt(g, anchor, u, y, q, x, up, nodes);
    p', b' := InRight(up, Branch(u, g, y), q), b + {q} - {g};
    RotateUncle(x, q, y, g, u, up, b, BlackHeight(x, b));
    Descend(Branch(u, g, y), q, x, up);
  }

  /** One step of the climb from a red node whose parent is red too. */
  method FixStep(pNode: Node, anchor: Node, ghost t: Tree<Node>, ghost p: Path<Node>, ghost b: set<Node>,
                 ghost nodes: set<Node>, ghost all: seq<Node>)
    returns (next: Node, ghost t': Tree<Node>, ghost p': Path<Node>, ghost b': set<Node>)
    requires Climbing(pNode, t, p, b, anchor, nodes, all) && !p.Top? && p.node !in b
    modifies nodes, anchor`parent
    ensures Climbing(next, t', p', b', anchor, nodes, all)
    ensures BlackAbove(p', b') || p' == p.up.up
  {
    hide Distinct, DistinctPath, Apart, Plug, Inorder, RedBlack, PathRedBlack, BlackHeight, LinksIn, Linked;
    Family(t, p, b, anchor);
    GrandparentSide(t, p, anchor);
    var parentParent := pNode.parent.parent;
    if pNode.parent == parentParent.left {
      var uncle := parentParent.right;
      if uncle != null && uncle.color == Red {
        t', b' := Recolor(pNode.parent, uncle, parentParent, t, p, b, anchor, nodes, all);
        next, p' := parentParent, p.up.up;
      } else {
        ghost var x, q, y;
        next, x, q, y := StraightenLeft(pNode, anchor, t, p, b, nodes, all);
        p', b' := LiftLeft(next, parentParent, anchor, x, q, y, p.up.right, p.up.up, b, nodes, all);
        t' := x;
      }
    } else {
      var uncle := parentParent.left;
      if uncle != null && uncle.color == Red {
        t', b' := Recolor(pNode.parent, uncle, parentParent, t, p, b, anchor, nodes, all);
        next, p' := parentParent, p.up.up;
      } else {
        ghost var x, q, y;
        next, x, q, y := StraightenRight(pNode, anchor, t, p, b, nodes, all);
        p', b' := LiftRight(next, parentParent, anchor, x, q, y, p.up.left, p.up.up, b, nodes, all);
        t' := x;
      }
    }
  }

  /** Which child of the grandparent the parent is, and who the uncle is. */
  lemma GrandparentSide(t: Tree<Node>, p: Path<Node>, anchor: Node)
    requires t.Branch? && Apart(t, p) && Linked(Plug(t, p), anchor) && !p.Top? && !p.up.Top?
    requires p.node.parent == p.up.node && p.up.node.left == Ptr(RootOf(Above(Above(t, p), p.up).left))
    ensures p.node.parent.left == p.node <==> p.up.InLeft?
    ensures var u := if p.up.InLeft? then p.up.right else p.up.left;
      u.Branch? ==> u.node in Nodes(Plug(t, p))
  {
    hide Linked, LinksIn;
    var s := Above(t, p);
    Ascend(t, p);
    ChildSide(s, p.up);
    PlugNodes(s, p.up);
  }

  // The whole insertion.

  datatype Side = Left | Right

  /** A new node may hang on that side of parent. */
  ghost predicate FreeSide(parent: Node, side: Side, t: Tree<Node>, i: nat, anchor: Node)
    reads parent
  {
    if parent == anchor then t.Leaf? && side == Left && i == 0
    else i < |Inorder(t)| && Inorder(t)[i] == parent && (if side == Left then parent.left else parent.right) == null
  }

  /** The place in the in-order sequence a node hung there gets. */
  ghost function PlaceOf(parent: Node, side: Side, i: nat, anchor: Node): nat {
    if parent == anchor || side == Left then i else i + 1
  }

  lemma CutAt<X>(s: seq<X>, i: nat)
    requires i < |s|
    ensures s[i..] == [s[i]] + s[i + 1..] && s[..i + 1] == s[..i] + [s[i]]
  {
  }

  lemma HoleAt(parent: Node, side: Side, t: Tree<Node>, i: nat, anchor: Node) returns (p: Path<Node>)
    requires Distinct(t) && Linked(t, anchor) && FreeSide(parent, side, t, i, anchor)
    ensures Apart(Leaf, p) && Plug(Leaf, p) == t && parent == ParentPtr(ParentOf(p), anchor)
    ensures if parent == anchor then p.Top? else if side == Left then p.InLeft? else p.InRight?
    ensures anchor !in Nodes(t)
    ensures var k, s := PlaceOf(parent, side, i, anchor), Inorder(t);
      k <= |s| && Before(p) == s[..k] && After(p) == s[k..]
  {
    hide Distinct, DistinctPath, Plug, Inorder, Before, After, LinksIn;
    var s := Inorder(t);
    if parent == anchor {
      p := Top;
      AtTop(t);
    } else {
      var sub, q := CursorAt(t, parent, i);
      CursorPointers(sub, q, anchor);
      StepDown(sub, q);
      p := if side == Left then InLeft(q, parent, sub.right) else InRight(q, sub.left, parent);
      EmptyInorder(if side == Left then sub.left else sub.right);
      HoleFacts(sub, q);
      CutAt(s, i);
    }
  }

  lemma AtTop(t: Tree<Node>)
    requires t.Leaf?
    ensures Apart(t, Top) && Plug(t, Top) == t && Inorder(t) == []
    ensures Before<Node>(Top) == [] && After<Node>(Top) == []
  {
  }

  lemma AttachedLinked(p: Path<Node>, node: Node, anchor: Node)
    requires Apart(Leaf, p) && node !in Nodes(Plug(Leaf, p)) && node != anchor && anchor !in Nodes(Plug(Leaf, p))
    requires forall n <- Nodes(Plug(Leaf, p)) :: NodeLinked(n, var o := LinksIn(Plug(Leaf, p), n, None);
      if Some(n) == ParentOf(p) then SetChild(o, p, Some(node)) else o, anchor)
    requires NodeLinked(node, Links(None, None, ParentOf(p)), anchor)
    requires anchor.parent == if p.Top? then node else Ptr(RootOf(Plug(Leaf, p)))
    ensures var u := Branch(Leaf, node, Leaf);
      Apart(u, p) && Linked(Plug(u, p), anchor) && Nodes(Plug(u, p)) == Nodes(Plug(Leaf, p)) + {node}
  {
    var u := Branch(Leaf, node, Leaf);
    PlugNodes(Leaf, p);
    PlugNodes(u, p);
    PlugRoot(u, p, Leaf);
    CursorLinks(Leaf, node, Leaf, p);
    forall n <- Nodes(Plug(u, p)) ensures NodeLinked(n, LinksIn(Plug(u, p), n, None), anchor) {
      if n != node { AttachLinks(p, node, n); }
    }
  }

  /** Initialise the new red node, hang it on its side of parent and keep the anchor up to date. */
  method Link(node: Node, parent: Node, anchor: Node, side: Side, ghost t: Tree<Node>, ghost p: Path<Node>,
              ghost nodes: set<Node>)
    requires Distinct(t) && Linked(t, anchor) && nodes == Nodes(t) && Apart(Leaf, p) && Plug(Leaf, p) == t
    requires parent == ParentPtr(ParentOf(p), anchor)
    requires if parent == anchor then p.Top? && side == Left else if side == Left then p.InLeft? else p.InRight?
    requires node !in nodes && node != anchor
    modifies node, parent`left, parent`right, anchor`left, anchor`right, anchor`parent
    ensures var u := Branch(Leaf, node, Leaf);
      Apart(u, p) && Linked(Plug(u, p), anchor) && Nodes(Plug(u, p)) == nodes + {node}
    ensures node.color == Red
    ensures anchor.left == if p.Top? || (side == Left && parent == old(anchor.left)) then node else old(anchor.left)
    ensures anchor.right == if p.Top? || (side == Right && parent == old(anchor.right)) then node else old(anchor.right)
  {
    hide Distinct, DistinctPath, Apart, Plug, LinksIn;
    PlugRoot(Leaf, p, Leaf);
    PlugNodes(Leaf, p);
    node.parent := parent;
    node.right := null;
    node.left := null;
    node.color := Red;
    if side == Left {
      parent.left := node;
      if parent == anchor {
        anchor.parent := node;
        anchor.right := node;
      } else if parent == anchor.left {
        anchor.left := node;
      }
    } else {
      parent.right := node;
      if parent == anchor.right {
        anchor.right := node;
      }
    }
    forall n <- nodes ensures NodeLinked(n, var o := LinksIn(t, n, None);
      if Some(n) == ParentOf(p) then SetChild(o, p, Some(node)) else o, anchor)
    {
      assert old(NodeLinked(n, LinksIn(t, n, None), anchor));
    }
    AttachedLinked(p, node, anchor);
  }

  ghost function Steps(p: Path<Node>, b: set<Node>): nat {
    if BlackAbove(p, b) then 0 else 1 + Length(p)
  }

  /** The climb, until the red node is the root or has a black parent. */
  method Climb(start: Node, anchor: Node, ghost t0: Tree<Node>, ghost p0: Path<Node>, ghost b0: set<Node>,
               ghost nodes: set<Node>, ghost all: seq<Node>)
    returns (ghost t: Tree<Node>, ghost p: Path<Node>, ghost b: set<Node>)
    requires Climbing(start, t0, p0, b0, anchor, nodes, all)
    modifies nodes, anchor`parent
    ensures t.Branch? && Climbing(t.node, t, p, b, anchor, nodes, all) && (p.Top? || BlackAbove(p, b))
  {
    hide Climbing, PathRedBlack, BlackHeight;
    var pNode := start;
    t, p, b := t0, p0, b0;
    Guard(pNode, t, p, b, anchor, nodes, all);
    while pNode != anchor.parent && pNode.parent.color == Red
      invariant t.Branch? && t.node == pNode && Climbing(pNode, t, p, b, anchor, nodes, all)
      invariant pNode.parent != null && (pNode == anchor.parent <==> p.Top?)
      invariant !p.Top? ==> (pNode.parent.color == Red <==> p.node !in b)
      invariant !p.Top? && p.node !in b ==> !p.up.Top?
      decreases Steps(p, b)
    {
      ghost var q, c := p, b;
      pNode, t, p, b := FixStep(pNode, anchor, t, p, b, nodes, all);
      StepsDecrease(q, c, p, b);
      Guard(pNode, t, p, b, anchor, nodes, all);
    }
  }

  lemma StepsDecrease(p: Path<Node>, b: set<Node>, p': Path<Node>, b': set<Node>)
    requires !p.Top? && p.node !in b && !p.up.Top?
    requires BlackAbove(p', b') || p' == p.up.up
    ensures Steps(p', b') < Steps(p, b)
  {
    assert Length(p.up) == 1 + Length(p.up.up);
  }

  /** What the loop condition reads. */
  lemma Guard(pNode: Node, t: Tree<Node>, p: Path<Node>, b: set<Node>, anchor: Node, nodes: set<Node>, all: seq<Node>)
    requires Climbing(pNode, t, p, b, anchor, nodes, all)
    ensures t.Branch? && t.node == pNode && pNode.parent != null && (pNode == anchor.parent <==> p.Top?)
    ensures !p.Top? ==> (pNode.parent.color == Red <==> p.node !in b)
    ensures !p.Top? && p.node !in b ==> !p.up.Top?
  {
    hide Distinct, DistinctPath, Apart, Plug, Inorder, RedBlack, BlackHeight, LinksIn;
    CursorPointers(t, p, anchor);
    RootIsTop(t, p);
    ParentIn(t, p);
  }

  /** Painting the root black ends the insertion. */
  lemma RootPainted(t: Tree<Node>, p: Path<Node>, b: set<Node>)
    requires t.Branch? && Apart(t, p) && RedBlack(t, b) && PathRedBlack(p, b, BlackHeight(t, b))
    requires p.Top? || BlackAbove(p, b)
    ensures var w := Plug(t, p);
      w.Branch? && RedBlack(w, b + {w.node}) && RootBlack(w, b + {w.node})
  {
    var w := Plug(t, p);
    if p.Top? {
      assert w == t;
      SameColors(t.left, b, b + {t.node});
      SameColors(t.right, b, b + {t.node});
    } else {
      RedBlackPlug(t, p, b);
      PlugNodes(t, p);
      assert w.Branch?;
      assert b + {w.node} == b;
    }
  }

  method PaintRoot(anchor: Node, ghost t: Tree<Node>, ghost p: Path<Node>, ghost b: set<Node>,
                   ghost nodes: set<Node>, ghost all: seq<Node>)
    requires t.Branch? && Climbing(t.node, t, p, b, anchor, nodes, all) && (p.Top? || BlackAbove(p, b))
    modifies nodes`color
    ensures var w := Plug(t, p);
      && Distinct(w) && Linked(w, anchor) && nodes == Nodes(w) && Inorder(w) == all
      && RedBlack(w, Blacks(nodes)) && RootBlack(w, Blacks(nodes))
  {
    hide Distinct, DistinctPath, Plug, Inorder, RedBlack, PathRedBlack, BlackHeight, LinksIn;
    ghost var w := Plug(t, p);
    RootPainted(t, p, b);
    PlugDistinct(t, p);
    anchor.parent.color := Black;
    SameColors(w, b + {w.node}, Blacks(nodes));
  }

  /** Insert node on that side of parent, the i-th node, or of the anchor of an empty tree. */
  method RBTreeInsert(node: Node, parent: Node, anchor: Node, side: Side,
                      ghost t0: Tree<Node>, ghost i: nat, ghost oldNodes: set<Node>)
    returns (ghost t: Tree<Node>)
    requires RbTree(t0, anchor, oldNodes) && FreeSide(parent, side, t0, i, anchor)
    requires node !in oldNodes && node != anchor
    modifies oldNodes, node, anchor`left, anchor`right, anchor`parent
    ensures RbTree(t, anchor, oldNodes + {node})
    ensures var k, s := PlaceOf(parent, side, i, anchor), Inorder(t0);
      k <= |s| && Inorder(t) == s[..k] + [node] + s[k..]
  {
    hide Distinct, DistinctPath, Apart, Plug, Inorder, RedBlack, PathRedBlack, BlackHeight, LinksIn, Linked, Before, After;
    ghost var p := HoleAt(parent, side, t0, i, anchor);
    ghost var b, u := Blacks(oldNodes), Branch(Leaf, node, Leaf);
    ghost var nodes, all := oldNodes + {node}, Before(p) + [node] + After(p);
    InNodes(t0, parent);
    EndsAfter(node, parent, side, t0, i, anchor);
    StartColors(t0, p, b);
    Link(node, parent, anchor, side, t0, p, oldNodes);
    StartClimb(node, p, b, anchor, nodes);
    ghost var q;
    t, q, b := Climb(node, anchor, u, p, b, nodes, all);
    PaintRoot(anchor, t, q, b, nodes, all);
    t := Plug(t, q);
  }

  lemma StartColors(t: Tree<Node>, p: Path<Node>, b: set<Node>)
    requires Plug(Leaf, p) == t && RedBlack(t, b) && RootBlack(t, b)
    ensures PathRedBlack(p, b, 0)
  {
    RedBlackPlug(Leaf, p, b);
  }

  lemma StartClimb(node: Node, p: Path<Node>, b: set<Node>, anchor: Node, nodes: set<Node>)
    requires var u := Branch(Leaf, node, Leaf);
      Apart(u, p) && Linked(Plug(u, p), anchor) && nodes == Nodes(Plug(u, p))
    requires Colored(nodes, b) && node.color == Red && node !in b && PathRedBlack(p, b, 0)
    ensures Climbing(node, Branch(Leaf, node, Leaf), p, b, anchor, nodes, Before(p) + [node] + After(p))
  {
    PlugInorder(Branch(Leaf, node, Leaf), p);
  }

  /** The ends of the in-order sequence after an insertion. */
  lemma EndsAfter(node: Node, parent: Node, side: Side, t: Tree<Node>, i: nat, anchor: Node)
    requires Distinct(t) && anchor !in Nodes(t) && FreeSide(parent, side, t, i, anchor)
    ensures var k, s := PlaceOf(parent, side, i, anchor), Inorder(t);
      k <= |s| && var u := s[..k] + [node] + s[k..];
      && First(u, anchor) == (if parent == anchor || (side == Left && parent == First(s, anchor)) then node
                              else First(s, anchor))
      && Last(u, anchor) == (if parent == anchor || (side == Right && parent == Last(s, anchor)) then node
                             else Last(s, anchor))
  {
    InorderNoRepeats(t);
    if t.Leaf? { assert Inorder(t) == []; }
  }
}
