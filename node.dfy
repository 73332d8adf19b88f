/** The search-tree node of the shortest-path search (strategies/Node.java):
    immutable, linked to its parent, the root carrying no direction. */
module Nodes {
  import opened Wrappers
  import opened Directions
  import opened Boards

  datatype Node = Root(square: Square) | Child(direction: Direction, square: Square, parent: Node)

  /** The number of ancestors of a node. */
  function Depth(n: Node): nat {
    match n
    case Root(_) => 0
    case Child(_, _, p) => Depth(p) + 1
  }

  /** `getPath`: the root's path is empty, a child's path is its parent's
      path followed by its own direction; one direction per ancestor. */
  function GetPath(n: Node): (path: seq<Direction>)
    ensures |path| == Depth(n)
  {
    match n
    case Root(_) => []
    case Child(d, _, p) => GetPath(p) + [d]
  }

  /** The square of the root the node hangs from. */
  function Origin(n: Node): Square {
    match n
    case Root(s) => s
    case Child(_, _, p) => Origin(p)
  }

  /** The squares of the strict ancestors of a node. */
  function Ancestors(n: Node): set<Square> {
    match n
    case Root(_) => {}
    case Child(_, _, p) => Ancestors(p) + {p.square}
  }

  /** The squares on the chain from the root to the node, the node included. */
  function ChainSquares(n: Node): set<Square> {
    Ancestors(n) + {n.square}
  }

  /** No square occurs twice on the chain from the root to the node. */
  predicate Simple(n: Node) {
    match n
    case Root(_) => true
    case Child(_, s, p) => Simple(p) && s !in ChainSquares(p)
  }

  /** Each child was made by stepping from its parent's square in its own
      direction onto a square the traveller may enter, starting from `from`. */
  predicate Linked<U>(g: Grid<U>, traveller: Option<U>, from: Square, n: Node) {
    match n
    case Root(s) => s == from
    case Child(d, s, p) => Linked(g, traveller, from, p) && s == Step(g, p.square, d) && Enterable(g, traveller, s)
  }

  /** A simple chain visits one square per node: its depth is one less
      than the number of squares on it. */
  lemma {:induction false} SimpleChainSize(n: Node)
    requires Simple(n)
    ensures |ChainSquares(n)| == Depth(n) + 1
  {
    match n
    case Root(_) =>
    case Child(_, s, p) =>
      SimpleChainSize(p);
      assert ChainSquares(n) == ChainSquares(p) + {s};
  }

  /** The path of a node, replayed from the root square, leads to the
      node's square along squares the traveller may enter. */
  lemma {:induction false} LinkedPath<U>(g: Grid<U>, traveller: Option<U>, from: Square, n: Node)
    requires Linked(g, traveller, from, n)
    ensures FollowPath(g, from, GetPath(n)) == n.square
    ensures PathEnterable(g, traveller, from, GetPath(n))
  {
    match n
    case Root(_) =>
    case Child(d, s, p) =>
      LinkedPath(g, traveller, from, p);
      ExtendPath(g, traveller, from, GetPath(p), d);
  }

  /** The only node of depth 0 linked to `from` is the root on `from`. */
  lemma LinkedDepthZero<U>(g: Grid<U>, traveller: Option<U>, from: Square, n: Node)
    requires Linked(g, traveller, from, n) && Depth(n) == 0
    ensures n == Root(from)
  {
  }

  /** A linked chain starting on the board stays on the board. */
  lemma {:induction false} LinkedOnBoard<U>(g: Grid<U>, traveller: Option<U>, from: Square, n: Node)
    requires Valid(g) && OnBoard(g, from) && Linked(g, traveller, from, n)
    ensures forall s :: s in ChainSquares(n) ==> OnBoard(g, s)
  {
    match n
    case Root(_) =>
    case Child(_, s, p) =>
      LinkedOnBoard(g, traveller, from, p);
  }
}
