/** The state of a red-black tree: links, colours and anchor. */
module RedBlackState {
  import opened Trees
  import opened RedBlackNodes
  import opened RedBlackColors

  ghost predicate Colored(nodes: set<Node>, b: set<Node>)
    reads nodes
  {
    forall n <- nodes :: n.color == Black <==> n in b
  }

  lemma ChildSide<N>(t: Tree<N>, p: Path<N>)
    requires Apart(t, p) && t.Branch? && !p.Top?
    ensures RootOf(Above(t, p).right) == Some(t.node) <==> p.InRight?
    ensures RootOf(Above(t, p).left) == Some(t.node) <==> p.InLeft?
    ensures t == Branch(t.left, t.node, t.right)
  {
  }

  method Paint(black: Node, red: Node, ghost whole: Tree<Node>, ghost b: set<Node>, ghost anchor: Node,
               ghost nodes: set<Node>)
    requires Linked(whole, anchor) && nodes == Nodes(whole) && Colored(nodes, b) && black != red
    modifies black`color, red`color
    ensures Linked(whole, anchor) && Colored(nodes, b + {black} - {red})
  {
    black.color := Black;
    red.color := Red;
  }

  ghost function Blacks(nodes: set<Node>): set<Node>
    reads nodes
  {
    set n <- nodes | n.color == Black
  }

  ghost function First(s: seq<Node>, anchor: Node): Node {
    if s == [] then anchor else s[0]
  }

  ghost function Last(s: seq<Node>, anchor: Node): Node {
    if s == [] then anchor else s[|s| - 1]
  }

  /** A red-black tree: the links form the shape t, the colours are sound, the root is black, and
      the anchor knows the root and both ends. */
  ghost predicate RbTree(t: Tree<Node>, anchor: Node, nodes: set<Node>)
    reads anchor, nodes, Nodes(t)
  {
    && nodes == Nodes(t) && Distinct(t) && Linked(t, anchor)
    && RedBlack(t, Blacks(nodes)) && RootBlack(t, Blacks(nodes))
    && anchor.left == First(Inorder(t), anchor) && anchor.right == Last(Inorder(t), anchor)
  }

  lemma ParentIn<N>(t: Tree<N>, p: Path<N>)
    ensures !p.Top? ==> p.node in Nodes(Plug(t, p))
  {
    PlugNodes(t, p);
  }
}
