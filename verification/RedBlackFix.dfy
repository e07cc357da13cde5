/** The fix-up after a black node has left a red-black tree. */
module RedBlackFix {
  import opened Trees
  import opened RedBlackNodes
  import opened RedBlackColors
  import opened RedBlackState

  /** The fix-up stands at the hole of p, whose subtree t is one black node short. */
  ghost predicate Fixing(t: Tree<Node>, p: Path<Node>, b: set<Node>, anchor: Node, nodes: set<Node>, all: seq<Node>)
    reads anchor, nodes, Nodes(Plug(t, p))
  {
    Standing(t, p, b, anchor, nodes, all) && Short(t, p, b)
  }

  ghost predicate Standing(t: Tree<Node>, p: Path<Node>, b: set<Node>, anchor: Node, nodes: set<Node>, all: seq<Node>)
    reads anchor, nodes, Nodes(Plug(t, p))
  {
    && Apart(t, p) && Linked(Plug(t, p), anchor) && nodes == Nodes(Plug(t, p)) && Inorder(Plug(t, p)) == all
    && Colored(nodes, b)
  }

  /** The fix-up is over: every node has its final colour. */
  ghost predicate Fixed(w: Tree<Node>, b: set<Node>, anchor: Node, nodes: set<Node>, all: seq<Node>)
    reads anchor, nodes, Nodes(w)
  {
    && Distinct(w) && Linked(w, anchor) && nodes == Nodes(w) && Inorder(w) == all
    && Colored(nodes, b) && RedBlack(w, b) && RootBlack(w, b)
  }

  // The short subtree is the left child.

  /** A red sibling becomes the grandparent. */
  method RaiseRight(parent: Node, temp: Node, anchor: Node, ghost t: Tree<Node>, ghost x: Tree<Node>,
                    ghost y: Tree<Node>, ghost up: Path<Node>, ghost b: set<Node>,
                    ghost nodes: set<Node>, ghost all: seq<Node>)
    returns (ghost b': set<Node>)
    requires Fixing(t, InLeft(up, parent, Branch(x, temp, y)), b, anchor, nodes, all) && temp !in b
    modifies nodes, anchor`parent
    ensures Fixing(t, InLeft(InLeft(up, temp, y), parent, x), b', anchor, nodes, all)
    ensures RootBlack(x, b') && (RootBlack(t, b') <==> RootBlack(t, b)) && parent !in b'
  {
    hide Distinct, DistinctPath, Apart, Plug, Inorder, RedBlack, PathRedBlack, BlackHeight, LinksIn, Linked, Short,
         Parts, Separate, Nearly;
    ghost var sib := Branch(x, temp, y);
    Descend(t, parent, sib, up);
    SeparateLeft(t, parent, x, temp, y, up);
    PartsLeft(t, parent, x, temp, y, up, b);
    RedSibling(t, parent, x, temp, y, up, b);
    SeparateNodes(t, parent, x, temp, y, up);
    PlugNodes(Branch(t, parent, sib), up);
    Paint(temp, parent, Plug(Branch(t, parent, sib), up), b, anchor, nodes);
    RotateLeftAt(parent, anchor, t, x, temp, y, up, nodes);
    b' := b + {temp} - {parent};
    Descend(Branch(t, parent, x), temp, y, up);
    Descend(t, parent, x, InLeft(up, temp, y));
  }

  lemma SeparateNodes<N>(t: Tree<N>, parent: N, x: Tree<N>, s: N, y: Tree<N>, up: Path<N>)
    requires Separate(t, parent, x, s, y, up)
    ensures parent != s
    ensures {parent, s} <= Nodes(Branch(t, parent, Branch(x, s, y)))
    ensures {parent, s} <= Nodes(Branch(Branch(y, s, x), parent, t))
  {
    assert s in Nodes(Branch(x, s, y)) && s in Nodes(Branch(y, s, x));
  }

  /** A black sibling with black children turns red, and the fix-up moves up. */
  method ReddenRight(parent: Node, temp: Node, ghost t: Tree<Node>, ghost x: Tree<Node>, ghost y: Tree<Node>,
                     ghost up: Path<Node>, ghost b: set<Node>, ghost anchor: Node,
                     ghost nodes: set<Node>, ghost all: seq<Node>)
    returns (ghost b': set<Node>)
    requires Fixing(t, InLeft(up, parent, Branch(x, temp, y)), b, anchor, nodes, all)
    requires temp in b && RootBlack(x, b) && RootBlack(y, b) && RootBlack(t, b)
    modifies temp`color
    ensures Fixing(Branch(t, parent, Branch(x, temp, y)), up, b', anchor, nodes, all)
    ensures parent in b' <==> parent in b
  {
    hide Distinct, DistinctPath, Apart, Plug, Inorder, RedBlack, PathRedBlack, BlackHeight, LinksIn, Linked, Short,
         Parts, Separate, Nearly, RootBlack;
    ghost var w := Branch(t, parent, Branch(x, temp, y));
    Descend(t, parent, Branch(x, temp, y), up);
    SeparateLeft(t, parent, x, temp, y, up);
    PartsLeft(t, parent, x, temp, y, up, b);
    BlackNephews(t, parent, x, temp, y, up, b);
    PaintRed(temp, Plug(w, up), b, anchor, nodes);
    b' := b - {temp};
  }

  method PaintRed(red: Node, ghost whole: Tree<Node>, ghost b: set<Node>, ghost anchor: Node, ghost nodes: set<Node>)
    requires Linked(whole, anchor) && nodes == Nodes(whole) && Colored(nodes, b)
    modifies red`color
    ensures Linked(whole, anchor) && Colored(nodes, b - {red})
  {
    red.color := Red;
  }

  /** The inner nephew is red and the outer one is not: it becomes the sibling. */
  method TurnRight(parent: Node, temp: Node, anchor: Node, ghost t: Tree<Node>, ghost x: Tree<Node>,
                   ghost y: Tree<Node>, ghost up: Path<Node>, ghost b: set<Node>,
                   ghost nodes: set<Node>, ghost all: seq<Node>)
    returns (ghost b': set<Node>)
    requires Fixing(t, InLeft(up, parent, Branch(x, temp, y)), b, anchor, nodes, all)
    requires temp in b && !RootBlack(x, b) && RootBlack(y, b) && temp.left == x.node
    modifies nodes, anchor`parent
    ensures Fixing(t, InLeft(up, parent, Branch(x.left, x.node, Branch(x.right, temp, y))), b', anchor, nodes, all)
    ensures x.node in b' && !RootBlack(Branch(x.right, temp, y), b') && (RootBlack(t, b') <==> RootBlack(t, b))
  {
    hide Distinct, DistinctPath, Apart, Plug, Inorder, RedBlack, PathRedBlack, BlackHeight, LinksIn, Linked, Short,
         Parts, Separate, Nearly;
    ghost var xi, xn, xo := x.left, x.node, x.right;
    ghost var sib, turned, hole := Branch(x, temp, y), Branch(xi, xn, Branch(xo, temp, y)), InRight(up, t, parent);
    assert x == Branch(xi, xn, xo);
    Descend(t, parent, sib, up);
    SeparateLeft(t, parent, x, temp, y, up);
    PartsLeft(t, parent, x, temp, y, up, b);
    InnerNephew(t, parent, xi, xn, xo, temp, y, up, b, x);
    PartsLeft(t, parent, xi, xn, Branch(xo, temp, y), up, b + {xn} - {temp});
    Descend(x, temp, y, hole);
    CursorIn(x, InLeft(hole, temp, y), sib, hole);
    Paint(temp.left, temp, Plug(sib, hole), b, anchor, nodes);
    RotateRightAt(temp, anchor, xi, xn, xo, y, hole, nodes);
    b' := b + {xn} - {temp};
    Descend(t, parent, turned, up);
  }

  /** Both nodes of a cursor and of its parent belong to the plugged tree. */
  lemma CursorIn<N>(t: Tree<N>, p: Path<N>, u: Tree<N>, q: Path<N>)
    requires t.Branch? && u.Branch? && Plug(t, p) == Plug(u, q)
    ensures {t.node, u.node} <= Nodes(Plug(u, q))
  {
    PlugNodes(t, p);
    PlugNodes(u, q);
  }

  /** The outer nephew is red: one rotation about the parent ends the fix-up. */
  method SettleRight(parent: Node, temp: Node, anchor: Node, ghost t: Tree<Node>, ghost x: Tree<Node>,
                     ghost y: Tree<Node>, ghost up: Path<Node>, ghost b: set<Node>,
                     ghost nodes: set<Node>, ghost all: seq<Node>)
    returns (ghost w: Tree<Node>, ghost b': set<Node>)
    requires Fixing(t, InLeft(up, parent, Branch(x, temp, y)), b, anchor, nodes, all)
    requires temp in b && !RootBlack(y, b) && RootBlack(t, b) && temp.right == y.node
    modifies nodes, anchor`parent
    ensures Fixed(w, b', anchor, nodes, all) && (t.Branch? ==> t.node in b')
  {
    hide Distinct, DistinctPath, Apart, Plug, Inorder, RedBlack, PathRedBlack, BlackHeight, LinksIn, Linked, Short,
         Parts, Separate, Nearly;
    ghost var sib, low := Branch(x, temp, y), Branch(t, parent, x);
    Descend(t, parent, sib, up);
    SeparateLeft(t, parent, x, temp, y, up);
    PartsLeft(t, parent, x, temp, y, up, b);
    OuterNephew(t, parent, x, temp, y, up, b);
    SeparateNodes(t, parent, x, temp, y, up);
    CursorIn(y, InRight(InRight(up, t, parent), x, temp), Branch(t, parent, sib), up) by {
      Descend(x, temp, y, InRight(up, t, parent));
    }
    PlugNodes(Branch(t, parent, sib), up);
    PaintSettled(parent, temp, temp.right, Plug(Branch(t, parent, sib), up), b, anchor, nodes);
    b' := (if parent in b then b else b - {temp}) + {parent, y.node};
    RotateLeftAt(parent, anchor, t, x, temp, y, up, nodes);
    w := Plug(Branch(low, temp, y), up);
    PlugDistinct(Branch(low, temp, y), up);
  }

  method PaintSettled(parent: Node, temp: Node, nephew: Node?, ghost whole: Tree<Node>, ghost b: set<Node>,
                      ghost anchor: Node, ghost nodes: set<Node>)
    requires Linked(whole, anchor) && nodes == Nodes(whole) && Colored(nodes, b)
    requires parent in nodes && temp in nodes && parent != temp && temp in b && nephew != null && nephew !in b
    modifies parent`color, temp`color, nephew`color
    ensures Linked(whole, anchor)
    ensures Colored(nodes, (if parent in b then b else b - {temp}) + {parent, nephew})
  {
    temp.color := parent.color;
    parent.color := Black;
    if nephew != null {
      nephew.color := Black;
    }
  }

  // The mirror image: the short subtree is the right child.

  method RaiseLeft(parent: Node, temp: Node, anchor: Node, ghost t: Tree<Node>, ghost x: Tree<Node>,
                   ghost y: Tree<Node>, ghost up: Path<Node>, ghost b: set<Node>,
                   ghost nodes: set<Node>, ghost all: seq<Node>)
    returns (ghost b': set<Node>)
    requires Fixing(t, InRight(up, Branch(y, temp, x), parent), b, anchor, nodes, all) && temp !in b
    modifies nodes, anchor`parent
    ensures Fixing(t, InRight(InRight(up, y, temp), x, parent), b', anchor, nodes, all)
    ensures RootBlack(x, b') && (RootBlack(t, b') <==> RootBlack(t, b)) && parent !in b'
  {
    hide Distinct, DistinctPath, Apart, Plug, Inorder, RedBlack, PathRedBlack, BlackHeight, LinksIn, Linked, Short,
         Parts, Separate, Nearly;
    ghost var sib := Branch(y, temp, x);
    Descend(sib, parent, t, up);
    SeparateRight(t, parent, x, temp, y, up);
    PartsRight(t, parent, x, temp, y, up, b);
    RedSibling(t, parent, x, temp, y, up, b);
    SeparateNodes(t, parent, x, temp, y, up);
    PlugNodes(Branch(sib, parent, t), up);
    Paint(temp, parent, Plug(Branch(sib, parent, t), up), b, anchor, nodes);
    RotateRightAt(parent, anchor, y, temp, x, t, up, nodes);
    b' := b + {temp} - {parent};
    Descend(y, temp, Branch(x, parent, t), up);
    Descend(x, parent, t, InRight(up, y, temp));
  }

  method ReddenLeft(parent: Node, temp: Node, ghost t: Tree<Node>, ghost x: Tree<Node>, ghost y: Tree<Node>,
                    ghost up: Path<Node>, ghost b: set<Node>, ghost anchor: Node,
                    ghost nodes: set<Node>, ghost all: seq<Node>)
    returns (ghost b': set<Node>)
    requires Fixing(t, InRight(up, Branch(y, temp, x), parent), b, anchor, nodes, all)
    requires temp in b && RootBlack(x, b) && RootBlack(y, b) && RootBlack(t, b)
    modifies temp`color
    ensures Fixing(Branch(Branch(y, temp, x), parent, t), up, b', anchor, nodes, all)
    ensures parent in b' <==> parent in b
  {
    hide Distinct, DistinctPath, Apart, Plug, Inorder, RedBlack, PathRedBlack, BlackHeight, LinksIn, Linked, Short,
         Parts, Separate, Nearly, RootBlack;
    ghost var w := Branch(Branch(y, temp, x), parent, t);
    Descend(Branch(y, temp, x), parent, t, up);
    SeparateRight(t, parent, x, temp, y, up);
    PartsRight(t, parent, x, temp, y, up, b);
    BlackNephews(t, parent, x, temp, y, up, b);
    PaintRed(temp, Plug(w, up), b, anchor, nodes);
    b' := b - {temp};
  }

  method TurnLeft(parent: Node, temp: Node, anchor: Node, ghost t: Tree<Node>, ghost x: Tree<Node>,
                  ghost y: Tree<Node>, ghost up: Path<Node>, ghost b: set<Node>,
                  ghost nodes: set<Node>, ghost all: seq<Node>)
    returns (ghost b': set<Node>)
    requires Fixing(t, InRight(up, Branch(y, temp, x), parent), b, anchor, nodes, all)
    requires temp in b && !RootBlack(x, b) && RootBlack(y, b) && temp.right == x.node
    modifies nodes, anchor`parent
    ensures Fixing(t, InRight(up, Branch(Branch(y, temp, x.left), x.node, x.right), parent), b', anchor, nodes, all)
    ensures x.node in b' && !RootBlack(Branch(y, temp, x.left), b') && (RootBlack(t, b') <==> RootBlack(t, b))
  {
    hide Distinct, DistinctPath, Apart, Plug, Inorder, RedBlack, PathRedBlack, BlackHeight, LinksIn, Linked, Short,
         Parts, Separate, Nearly;
    ghost var xi, xn, xo := x.right, x.node, x.left;
    ghost var sib, turned, hole := Branch(y, temp, x), Branch(Branch(y, temp, xo), xn, xi), InLeft(up, parent, t);
    assert x == Branch(xo, xn, xi);
    Descend(sib, parent, t, up);
    SeparateRight(t, parent, x, temp, y, up);
    PartsRight(t, parent, x, temp, y, up, b);
    InnerNephew(t, parent, xi, xn, xo, temp, y, up, b, x);
    PartsRight(t, parent, xi, xn, Branch(y, temp, xo), up, b + {xn} - {temp});
    Descend(y, temp, x, hole);
    CursorIn(x, InRight(hole, y, temp), sib, hole);
    Paint(temp.right, temp, Plug(sib, hole), b, anchor, nodes);
    RotateLeftAt(temp, anchor, y, xo, xn, xi, hole, nodes);
    b' := b + {xn} - {temp};
    Descend(turned, parent, t, up);
  }

  method SettleLeft(parent: Node, temp: Node, anchor: Node, ghost t: Tree<Node>, ghost x: Tree<Node>,
                    ghost y: Tree<Node>, ghost up: Path<Node>, ghost b: set<Node>,
                    ghost nodes: set<Node>, ghost all: seq<Node>)
    returns (ghost w: Tree<Node>, ghost b': set<Node>)
    requires Fixing(t, InRight(up, Branch(y, temp, x), parent), b, anchor, nodes, all)
    requires temp in b && !RootBlack(y, b) && RootBlack(t, b) && temp.left == y.node
    modifies nodes, anchor`parent
    ensures Fixed(w, b', anchor, nodes, all) && (t.Branch? ==> t.node in b')
  {
    hide Distinct, DistinctPath, Apart, Plug, Inorder, RedBlack, PathRedBlack, BlackHeight, LinksIn, Linked, Short,
         Parts, Separate, Nearly;
    ghost var sib, low := Branch(y, temp, x), Branch(x, parent, t);
    Descend(sib, parent, t, up);
    SeparateRight(t, parent, x, temp, y, up);
    PartsRight(t, parent, x, temp, y, up, b);
    OuterNephew(t, parent, x, temp, y, up, b);
    SeparateNodes(t, parent, x, temp, y, up);
    CursorIn(y, InLeft(InLeft(up, parent, t), temp, x), Branch(sib, parent, t), up) by {
      Descend(y, temp, x, InLeft(up, parent, t));
    }
    PlugNodes(Branch(sib, parent, t), up);
    PaintSettled(parent, temp, temp.left, Plug(Branch(sib, parent, t), up), b, anchor, nodes);
    b' := (if parent in b then b else b - {temp}) + {parent, y.node};
    RotateRightAt(parent, anchor, y, temp, x, t, up, nodes);
    w := Plug(Branch(y, temp, low), up);
    PlugDistinct(Branch(y, temp, low), up);
  }

  predicate BlackOrNull(n: Node?)
    reads n
  {
    n == null || n.color == Black
  }

  /** The sibling and its children, as the fix-up reads them. */
  lemma SiblingFacts(t: Tree<Node>, p: Path<Node>, b: set<Node>, anchor: Node, nodes: set<Node>, all: seq<Node>)
    requires Fixing(t, p, b, anchor, nodes, all) && !p.Top?
    ensures var sib := if p.InLeft? then p.right else p.left;
      && sib.Branch? && sib == Branch(sib.left, sib.node, sib.right) && p.node in nodes && sib.node in nodes
      && (if p.InLeft? then p.node.right else p.node.left) == sib.node
      && sib.node.left == Ptr(RootOf(sib.left)) && sib.node.right == Ptr(RootOf(sib.right))
      && (BlackOrNull(sib.node.left) <==> RootBlack(sib.left, b))
      && (BlackOrNull(sib.node.right) <==> RootBlack(sib.right, b))
    ensures p.node.left == Ptr(RootOf(t)) <==> p.InLeft?
    ensures p.node.parent == ParentPtr(ParentOf(p.up), anchor)
  {
    hide Distinct, DistinctPath, Plug, Inorder, RedBlack, PathRedBlack, BlackHeight, LinksIn, Linked, Short;
    SiblingExists(t, p, b);
    var sib := if p.InLeft? then p.right else p.left;
    var u := Above(t, p);
    Ascend(t, p);
    CursorPointers(u, p.up, anchor);
    StepDown(u, p.up);
    CursorPointers(sib, if p.InLeft? then InRight(p.up, t, p.node) else InLeft(p.up, p.node, t), anchor);
    PlugNodes(u, p.up);
    SiblingNodes(t, p, sib);
  }

  lemma SiblingNodes<N>(t: Tree<N>, p: Path<N>, sib: Tree<N>)
    requires Apart(t, p) && !p.Top? && sib == (if p.InLeft? then p.right else p.left) && sib.Branch?
    ensures RootOf(sib) != RootOf(t)
    ensures RootOf(sib.left).Some? ==> sib.left.node in Nodes(Above(t, p))
    ensures RootOf(sib.right).Some? ==> sib.right.node in Nodes(Above(t, p))
    ensures Nodes(sib) <= Nodes(Above(t, p))
  {
  }

  /** One round of the fix-up, the short subtree being the left child of parent.  Either all is
      settled, or the parent's subtree t' is the short one. */
  method StepRight(parent: Node, anchor: Node, ghost t: Tree<Node>, ghost p0: Path<Node>, ghost b0: set<Node>,
                   ghost nodes: set<Node>, ghost all: seq<Node>)
    returns (done: bool, up: Node, ghost t': Tree<Node>, ghost p: Path<Node>, ghost b: set<Node>)
    requires Fixing(t, p0, b0, anchor, nodes, all) && p0.InLeft? && p0.node == parent && RootBlack(t, b0)
    modifies nodes, anchor`parent
    ensures done ==> Fixed(t', b, anchor, nodes, all) && (t.Branch? ==> t.node in b)
    ensures !done ==> Fixing(t', p, b, anchor, nodes, all) && t'.Branch? && t'.node == parent
                      && up == ParentPtr(ParentOf(p), anchor) && (parent !in b || p == p0.up)
  {
    hide Distinct, DistinctPath, Apart, Plug, Inorder, RedBlack, PathRedBlack, BlackHeight, LinksIn, Linked, Short, Fixed;
    p, b, t', up := p0, b0, t, anchor;
    SiblingFacts(t, p, b, anchor, nodes, all);
    var temp := parent.right;
    if temp.color == Red {
      b := RaiseRight(parent, temp, anchor, t, p.right.left, p.right.right, p.up, b, nodes, all);
      p := InLeft(InLeft(p.up, temp, p.right.right), parent, p.right.left);
      SiblingFacts(t, p, b, anchor, nodes, all);
      temp := parent.right;
    }
    if BlackOrNull(temp.left) && BlackOrNull(temp.right) {
      b := ReddenRight(parent, temp, t, p.right.left, p.right.right, p.up, b, anchor, nodes, all);
      up := parent.parent;
      t', p := Branch(t, parent, p.right), p.up;
      done := false;
    } else {
      if BlackOrNull(temp.right) {
        ghost var x, y := p.right.left, p.right.right;
        b := TurnRight(parent, temp, anchor, t, x, y, p.up, b, nodes, all);
        p := InLeft(p.up, parent, Branch(x.left, x.node, Branch(x.right, temp, y)));
        SiblingFacts(t, p, b, anchor, nodes, all);
        temp := parent.right;
      }
      t', b := SettleRight(parent, temp, anchor, t, p.right.left, p.right.right, p.up, b, nodes, all);
      done := true;
    }
  }

  method StepLeft(parent: Node, anchor: Node, ghost t: Tree<Node>, ghost p0: Path<Node>, ghost b0: set<Node>,
                  ghost nodes: set<Node>, ghost all: seq<Node>)
    returns (done: bool, up: Node, ghost t': Tree<Node>, ghost p: Path<Node>, ghost b: set<Node>)
    requires Fixing(t, p0, b0, anchor, nodes, all) && p0.InRight? && p0.node == parent && RootBlack(t, b0)
    modifies nodes, anchor`parent
    ensures done ==> Fixed(t', b, anchor, nodes, all) && (t.Branch? ==> t.node in b)
    ensures !done ==> Fixing(t', p, b, anchor, nodes, all) && t'.Branch? && t'.node == parent
                      && up == ParentPtr(ParentOf(p), anchor) && (parent !in b || p == p0.up)
  {
    hide Distinct, DistinctPath, Apart, Plug, Inorder, RedBlack, PathRedBlack, BlackHeight, LinksIn, Linked, Short, Fixed;
    p, b, t', up := p0, b0, t, anchor;
    SiblingFacts(t, p, b, anchor, nodes, all);
    var temp := parent.left;
    if temp.color == Red {
      b := RaiseLeft(parent, temp, anchor, t, p.left.right, p.left.left, p.up, b, nodes, all);
      p := InRight(InRight(p.up, p.left.left, temp), p.left.right, parent);
      SiblingFacts(t, p, b, anchor, nodes, all);
      temp := parent.left;
    }
    if BlackOrNull(temp.right) && BlackOrNull(temp.left) {
      b := ReddenLeft(parent, temp, t, p.left.right, p.left.left, p.up, b, anchor, nodes, all);
      up := parent.parent;
      t', p := Branch(p.left, parent, t), p.up;
      done := false;
    } else {
      if BlackOrNull(temp.left) {
        ghost var x, y := p.left.right, p.left.left;
        b := TurnLeft(parent, temp, anchor, t, x, y, p.up, b, nodes, all);
        p := InRight(p.up, Branch(Branch(y, temp, x.left), x.node, x.right), parent);
        SiblingFacts(t, p, b, anchor, nodes, all);
        temp := parent.left;
      }
      t', b := SettleLeft(parent, temp, anchor, t, p.left.right, p.left.left, p.up, b, nodes, all);
      done := true;
    }
  }
}
