/** Breadth-first navigation over the board (strategies/Navigation.java):
    `shortestPath` with its helper `addNewTargets`, `getNextDirection`,
    `findNearest`, `findUnit` and `findUnitInBoard`. */
module Navigation {
  import opened Wrappers
  import opened Directions
  import opened Boards
  import opened Nodes
  import opened Lists

  // ---------------------------------------------------------------------
  // shortestPath: the search as a specification function
  // ---------------------------------------------------------------------

  /** The nodes `addNewTargets` appends for the directions `ds` (taken in
      order): a child on each neighbour square that is not visited and that
      the traveller may enter. */
  function NewTargets<U>(g: Grid<U>, traveller: Option<U>, visited: set<Square>, node: Node, ds: seq<Direction>): seq<Node>
    decreases |ds|
  {
    if ds == [] then []
    else
      var d := ds[|ds| - 1];
      var target := Step(g, node.square, d);
      NewTargets(g, traveller, visited, node, ds[..|ds| - 1]) +
      (if target !in visited && Enterable(g, traveller, target) then [Child(d, target, node)] else [])
  }

  lemma {:induction false} NewTargetsSpec<U>(g: Grid<U>, traveller: Option<U>, visited: set<Square>, node: Node, ds: seq<Direction>)
    ensures |NewTargets(g, traveller, visited, node, ds)| <= |ds|
    ensures forall n :: n in NewTargets(g, traveller, visited, node, ds) ==>
      n.Child? && n.parent == node && n.direction in ds && n.square == Step(g, node.square, n.direction) &&
      n.square !in visited && Enterable(g, traveller, n.square)
    ensures forall d :: d in ds && Step(g, node.square, d) !in visited && Enterable(g, traveller, Step(g, node.square, d)) ==>
      Child(d, Step(g, node.square, d), node) in NewTargets(g, traveller, visited, node, ds)
    decreases |ds|
  {
    if ds != [] {
      var init := ds[..|ds| - 1];
      NewTargetsSpec(g, traveller, visited, node, init);
      forall d | d in ds ensures d in init || d == ds[|ds| - 1] {
        var i :| 0 <= i < |ds| && ds[i] == d;
        if i < |ds| - 1 { assert init[i] == d; }
      }
    }
  }

  function Pow5(k: nat): (p: nat)
    ensures p >= 1
  {
    if k == 0 then 1 else 5 * Pow5(k - 1)
  }

  /** The termination measure of the search: a queued node of depth k weighs
      5^(bound - k); dequeuing it adds at most four nodes one level deeper. */
  function Weight(bound: nat, targets: seq<Node>): nat
    decreases |targets|
  {
    if targets == [] then 0
    else
      (if Depth(targets[0]) <= bound then Pow5(bound - Depth(targets[0])) else 0) + Weight(bound, targets[1..])
  }

  lemma {:induction false} WeightAppend(bound: nat, a: seq<Node>, b: seq<Node>)
    ensures Weight(bound, a + b) == Weight(bound, a) + Weight(bound, b)
    decreases |a|
  {
    if a == [] {
      assert a + b == b;
    } else {
      assert (a + b)[0] == a[0];
      assert (a + b)[1..] == a[1..] + b;
      WeightAppend(bound, a[1..], b);
    }
  }

  /** Nodes all of one depth k < bound weigh at most their number times 5^(bound - k). */
  lemma {:induction false} WeightLevel(bound: nat, targets: seq<Node>, k: nat)
    requires k <= bound
    requires forall i :: 0 <= i < |targets| ==> Depth(targets[i]) == k
    ensures Weight(bound, targets) == |targets| * Pow5(bound - k)
    decreases |targets|
  {
    if targets != [] {
      WeightLevel(bound, targets[1..], k);
    }
  }

  /** What keeps the search finite, although it never removes duplicates from
      its queue: the chain of every queued node is simple, its ancestors are
      already visited, and all its squares are on the board. */
  ghost predicate Bounded<U>(g: Grid<U>, targets: seq<Node>, visited: set<Square>) {
    forall i :: 0 <= i < |targets| ==>
      Simple(targets[i]) && Ancestors(targets[i]) <= visited && ChainSquares(targets[i]) <= AllSquares(g)
  }

  /** A queued node is shallower than the number of board squares. */
  lemma BoundedDepth<U>(g: Grid<U>, targets: seq<Node>, visited: set<Square>, i: nat)
    requires Bounded(g, targets, visited) && i < |targets|
    ensures Depth(targets[i]) < |AllSquares(g)|
  {
    SimpleChainSize(targets[i]);
    assert |ChainSquares(targets[i])| <= |AllSquares(g)| by {
      SubsetSize(ChainSquares(targets[i]), AllSquares(g));
    }
  }

  lemma SubsetSize<T>(a: set<T>, b: set<T>)
    requires a <= b
    ensures |a| <= |b|
  {
    assert b == a + (b - a);
  }

  /** The children of a dequeued node have simple chains, visited
      ancestors, board squares, and sit one level deeper. */
  lemma ChildrenBounded<U>(g: Grid<U>, traveller: Option<U>, visited: set<Square>, node: Node)
    requires Valid(g) && Simple(node) && Ancestors(node) <= visited && ChainSquares(node) <= AllSquares(g)
    ensures var visited' := visited + {node.square};
            var children := NewTargets(g, traveller, visited', node, Values());
            |children| <= 4 &&
            forall i :: 0 <= i < |children| ==>
              Simple(children[i]) && Ancestors(children[i]) <= visited' &&
              ChainSquares(children[i]) <= AllSquares(g) && Depth(children[i]) == Depth(node) + 1
  {
    var visited' := visited + {node.square};
    var children := NewTargets(g, traveller, visited', node, Values());
    NewTargetsSpec(g, traveller, visited', node, Values());
    assert node.square in ChainSquares(node);
    forall i | 0 <= i < |children|
      ensures Simple(children[i]) && Ancestors(children[i]) <= visited'
      ensures ChainSquares(children[i]) <= AllSquares(g) && Depth(children[i]) == Depth(node) + 1
    {
      assert children[i] in children;
    }
  }

  /** One step of the search keeps it bounded. */
  lemma SearchStepBounded<U>(g: Grid<U>, traveller: Option<U>, targets: seq<Node>, visited: set<Square>)
    requires Valid(g) && Bounded(g, targets, visited) && targets != []
    ensures var node := targets[0];
            var visited' := visited + {node.square};
            Bounded(g, targets[1..] + NewTargets(g, traveller, visited', node, Values()), visited')
  {
    var node := targets[0];
    var visited' := visited + {node.square};
    var children := NewTargets(g, traveller, visited', node, Values());
    var targets' := targets[1..] + children;
    ChildrenBounded(g, traveller, visited, node);
    forall i | 0 <= i < |targets'|
      ensures Simple(targets'[i]) && Ancestors(targets'[i]) <= visited' && ChainSquares(targets'[i]) <= AllSquares(g)
    {
      if i < |targets| - 1 {
        assert targets'[i] == targets[i + 1];
      } else {
        assert targets'[i] == children[i - (|targets| - 1)];
      }
    }
  }

  lemma FewerThanFive(c: nat, x: nat)
    requires c <= 4
    ensures c * x <= 4 * x < 5 * x || x == 0
  {
  }

  /** Replacing a node of depth k by at most four nodes of depth k + 1
      lowers the weight. */
  lemma WeightDrop(bound: nat, rest: seq<Node>, children: seq<Node>, k: nat)
    requires k < bound && |children| <= 4
    requires forall i :: 0 <= i < |children| ==> Depth(children[i]) == k + 1
    ensures Weight(bound, rest + children) < Pow5(bound - k) + Weight(bound, rest)
  {
    WeightAppend(bound, rest, children);
    WeightLevel(bound, children, k + 1);
    var x := Pow5(bound - (k + 1));
    assert Pow5(bound - k) == 5 * x;
    FewerThanFive(|children|, x);
  }

  /** One step of the search makes its weight smaller. */
  lemma SearchStepWeight<U>(g: Grid<U>, traveller: Option<U>, targets: seq<Node>, visited: set<Square>)
    requires Valid(g) && Bounded(g, targets, visited) && targets != []
    ensures var node := targets[0];
            var visited' := visited + {node.square};
            Weight(|AllSquares(g)|, targets[1..] + NewTargets(g, traveller, visited', node, Values())) <
            Weight(|AllSquares(g)|, targets)
  {
    var bound := |AllSquares(g)|;
    var node := targets[0];
    ChildrenBounded(g, traveller, visited, node);
    BoundedDepth(g, targets, visited, 0);
    assert Weight(bound, targets) == Pow5(bound - Depth(node)) + Weight(bound, targets[1..]);
    WeightDrop(bound, targets[1..], NewTargets(g, traveller, visited + {node.square}, node, Values()), Depth(node));
  }

  /** The loop of `shortestPath` from a queue and a visited set: take the
      first node; if it stands on `to`, answer its path; otherwise mark its
      square visited and queue its new targets. No answer when the queue
      runs out. */
  function Search<U>(g: Grid<U>, traveller: Option<U>, to: Square, targets: seq<Node>, visited: set<Square>): Option<seq<Direction>>
    requires Valid(g) && Bounded(g, targets, visited)
    decreases Weight(|AllSquares(g)|, targets)
  {
    if targets == [] then None
    else
      var node := targets[0];
      if node.square == to then Some(GetPath(node))
      else
        var visited' := visited + {node.square};
        SearchStepBounded(g, traveller, targets, visited);
        SearchStepWeight(g, traveller, targets, visited);
        Search(g, traveller, to, targets[1..] + NewTargets(g, traveller, visited', node, Values()), visited')
  }

  /** `shortestPath(from, to, traveller)`: the empty path when `from == to`,
      otherwise the search from a queue holding only the root on `from`. */
  function BfsPath<U>(g: Grid<U>, from: Square, to: Square, traveller: Option<U>): Option<seq<Direction>>
    requires Valid(g) && OnBoard(g, from)
  {
    if from == to then Some([])
    else
      assert Bounded(g, [Root(from)], {}) by {
        assert ChainSquares(Root(from)) == {from};
      }
      Search(g, traveller, to, [Root(from)], {})
  }

  // ---------------------------------------------------------------------
  // What the search finds: a path to `to`, a shortest one, or none at all
  // ---------------------------------------------------------------------

  /** The squares the traveller can reach from `from` in at most j steps. */
  ghost function Within<U>(g: Grid<U>, traveller: Option<U>, from: Square, j: nat): set<Square> {
    if j == 0 then {from}
    else
      var nearer := Within(g, traveller, from, j - 1);
      nearer + Successors(g, traveller, nearer)
  }

  /** The neighbours of the squares of `s` that the traveller may enter. */
  ghost function Successors<U>(g: Grid<U>, traveller: Option<U>, s: set<Square>): set<Square> {
    set v, d | v in s && d in Values() && Enterable(g, traveller, Step(g, v, d)) :: Step(g, v, d)
  }

  lemma SuccessorIn<U>(g: Grid<U>, traveller: Option<U>, s: set<Square>, v: Square, d: Direction)
    requires v in s && Enterable(g, traveller, Step(g, v, d))
    ensures Step(g, v, d) in Successors(g, traveller, s)
  {
    ValuesComplete(d);
  }

  /** A successor is the neighbour of a square of the set that the
      traveller may enter. */
  lemma SuccessorFrom<U>(g: Grid<U>, traveller: Option<U>, s: set<Square>, t: Square) returns (v: Square, d: Direction)
    requires t in Successors(g, traveller, s)
    ensures v in s && Enterable(g, traveller, Step(g, v, d)) && Step(g, v, d) == t
  {
    v, d :| v in s && d in Values() && Enterable(g, traveller, Step(g, v, d)) && Step(g, v, d) == t;
  }

  /** A path of length j ends within j steps. */
  lemma {:induction false} PathWithin<U>(g: Grid<U>, traveller: Option<U>, from: Square, path: seq<Direction>)
    requires PathEnterable(g, traveller, from, path)
    ensures FollowPath(g, from, path) in Within(g, traveller, from, |path|)
    decreases |path|
  {
    if path != [] {
      var init := path[..|path| - 1];
      PathWithin(g, traveller, from, init);
      SuccessorIn(g, traveller, Within(g, traveller, from, |init|), FollowPath(g, from, init), path[|path| - 1]);
    }
  }

  lemma {:induction false} WithinGrows<U>(g: Grid<U>, traveller: Option<U>, from: Square, i: nat, j: nat)
    requires i <= j
    ensures Within(g, traveller, from, i) <= Within(g, traveller, from, j)
    decreases j - i
  {
    if i < j {
      WithinGrows(g, traveller, from, i + 1, j);
    }
  }

  /** Some queued node stands on `w`. */
  ghost predicate Queued(targets: seq<Node>, w: Square) {
    exists i :: 0 <= i < |targets| && targets[i].square == w
  }

  /** Some queued node of depth at most k stands on `w`. */
  ghost predicate QueuedBy(targets: seq<Node>, w: Square, k: nat) {
    exists i :: 0 <= i < |targets| && targets[i].square == w && Depth(targets[i]) <= k
  }

  /** The queue is sorted by depth and spans at most two consecutive depths. */
  ghost predicate Layered(targets: seq<Node>) {
    (forall i, j :: 0 <= i <= j < |targets| ==> Depth(targets[i]) <= Depth(targets[j])) &&
    (forall i :: 0 <= i < |targets| ==> Depth(targets[i]) <= Depth(targets[0]) + 1)
  }

  /** Every neighbour of a visited square that the traveller may enter is
      visited or queued. */
  ghost predicate Closed<U>(g: Grid<U>, traveller: Option<U>, targets: seq<Node>, visited: set<Square>) {
    forall v, d :: v in visited && Enterable(g, traveller, Step(g, v, d)) && Step(g, v, d) !in visited ==>
      Queued(targets, Step(g, v, d))
  }

  /** With the queue front at depth k: every square within k - 1 steps is
      visited, and each of their enterable neighbours is visited or queued at
      depth at most k. */
  ghost predicate Frontier<U>(g: Grid<U>, traveller: Option<U>, from: Square, targets: seq<Node>, visited: set<Square>) {
    targets != [] && Depth(targets[0]) > 0 ==>
      var k := Depth(targets[0]);
      Within(g, traveller, from, k - 1) <= visited &&
      forall v, d ::
        (v in Within(g, traveller, from, k - 1) && Enterable(g, traveller, Step(g, v, d)) &&
         Step(g, v, d) !in visited) ==> QueuedBy(targets, Step(g, v, d), k)
  }

  /** The invariant of the breadth-first search from `from` to `to`. */
  ghost predicate SearchInv<U>(g: Grid<U>, traveller: Option<U>, from: Square, to: Square,
                               targets: seq<Node>, visited: set<Square>) {
    (forall i :: 0 <= i < |targets| ==> Linked(g, traveller, from, targets[i])) &&
    Layered(targets) &&
    to !in visited &&
    Closed(g, traveller, targets, visited) &&
    (from in visited || Queued(targets, from)) &&
    Frontier(g, traveller, from, targets, visited)
  }

  lemma SearchInvInit<U>(g: Grid<U>, traveller: Option<U>, from: Square, to: Square)
    requires from != to
    ensures SearchInv(g, traveller, from, to, [Root(from)], {})
  {
    assert [Root(from)][0].square == from;
  }

  /** One node of the queue after a step: a kept node is linked and lies
      between depths k and k + 1; a new child is linked at depth k + 1. */
  lemma SearchStepAt<U>(g: Grid<U>, traveller: Option<U>, from: Square, targets: seq<Node>,
                        visited: set<Square>, i: nat)
    requires (forall j :: 0 <= j < |targets| ==> Linked(g, traveller, from, targets[j])) && Layered(targets)
    requires targets != []
    requires i < |targets[1..] + NewTargets(g, traveller, visited + {targets[0].square}, targets[0], Values())|
    ensures var targets' := targets[1..] + NewTargets(g, traveller, visited + {targets[0].square}, targets[0], Values());
            var k := Depth(targets[0]);
            Linked(g, traveller, from, targets'[i]) && k <= Depth(targets'[i]) <= k + 1 &&
            (i >= |targets| - 1 ==> Depth(targets'[i]) == k + 1) &&
            (i < |targets| - 1 ==> targets'[i] == targets[i + 1])
  {
    var node := targets[0];
    var children := NewTargets(g, traveller, visited + {node.square}, node, Values());
    var targets' := targets[1..] + children;
    if i < |targets| - 1 {
      assert targets'[i] == targets[i + 1];
    } else {
      NewTargetsSpec(g, traveller, visited + {node.square}, node, Values());
      assert targets'[i] == children[i - (|targets| - 1)];
      assert targets'[i] in children;
    }
  }

  /** The layers and the linking survive one step of the search. */
  lemma SearchStepShape<U>(g: Grid<U>, traveller: Option<U>, from: Square, to: Square,
                           targets: seq<Node>, visited: set<Square>)
    requires (forall i :: 0 <= i < |targets| ==> Linked(g, traveller, from, targets[i])) && Layered(targets)
    requires to !in visited && targets != [] && targets[0].square != to
    ensures var node := targets[0];
            var visited' := visited + {node.square};
            var targets' := targets[1..] + NewTargets(g, traveller, visited', node, Values());
            (forall i :: 0 <= i < |targets'| ==> Linked(g, traveller, from, targets'[i])) &&
            Layered(targets') && to !in visited'
  {
    var node := targets[0];
    var targets' := targets[1..] + NewTargets(g, traveller, visited + {node.square}, node, Values());
    var k := Depth(node);
    forall i | 0 <= i < |targets'|
      ensures Linked(g, traveller, from, targets'[i]) && k <= Depth(targets'[i]) <= k + 1
      ensures i >= |targets| - 1 ==> Depth(targets'[i]) == k + 1
      ensures i < |targets| - 1 ==> targets'[i] == targets[i + 1]
    {
      SearchStepAt(g, traveller, from, targets, visited, i);
    }
    forall i, j | 0 <= i <= j < |targets'| ensures Depth(targets'[i]) <= Depth(targets'[j]) {
      if j < |targets| - 1 {
        assert Depth(targets[i + 1]) <= Depth(targets[j + 1]);
      }
    }
  }

  /** Closure and the start square survive one step of the search. */
  lemma SearchStepClosed<U>(g: Grid<U>, traveller: Option<U>, from: Square, to: Square,
                            targets: seq<Node>, visited: set<Square>)
    requires SearchInv(g, traveller, from, to, targets, visited)
    requires targets != [] && targets[0].square != to
    ensures var node := targets[0];
            var visited' := visited + {node.square};
            var targets' := targets[1..] + NewTargets(g, traveller, visited', node, Values());
            Closed(g, traveller, targets', visited') &&
            (from in visited' || Queued(targets', from))
  {
    var node := targets[0];
    var visited' := visited + {node.square};
    var targets' := targets[1..] + NewTargets(g, traveller, visited', node, Values());
    SearchStepCloses(g, traveller, targets, visited);
    if from !in visited {
      var i :| 0 <= i < |targets| && targets[i].square == from;
      if i > 0 {
        assert targets'[i - 1] == targets[i];
      }
    }
  }

  /** Closure survives one step of the search: the neighbours of the
      front square are queued behind the rest. */
  lemma SearchStepCloses<U>(g: Grid<U>, traveller: Option<U>, targets: seq<Node>, visited: set<Square>)
    requires Closed(g, traveller, targets, visited) && targets != []
    ensures var node := targets[0];
            var visited' := visited + {node.square};
            Closed(g, traveller, targets[1..] + NewTargets(g, traveller, visited', node, Values()), visited')
  {
    var node := targets[0];
    var visited' := visited + {node.square};
    var children := NewTargets(g, traveller, visited', node, Values());
    var targets' := targets[1..] + children;
    NewTargetsSpec(g, traveller, visited', node, Values());
    forall v, d | v in visited' && Enterable(g, traveller, Step(g, v, d)) && Step(g, v, d) !in visited'
      ensures Queued(targets', Step(g, v, d))
    {
      var w := Step(g, v, d);
      if v == node.square {
        ValuesComplete(d);
        var c := Child(d, w, node);
        assert c in children;
        var j :| 0 <= j < |children| && children[j] == c;
        assert targets'[|targets| - 1 + j] == c;
      } else {
        var i :| 0 <= i < |targets| && targets[i].square == w;
        assert targets'[i - 1] == targets[i];
      }
    }
  }

  /** When the front depth stays k, the frontier survives one step. */
  lemma SearchStepFrontierSame<U>(g: Grid<U>, traveller: Option<U>, from: Square,
                                  targets: seq<Node>, visited: set<Square>, targets': seq<Node>)
    requires Frontier(g, traveller, from, targets, visited)
    requires targets != [] && Depth(targets[0]) > 0
    requires |targets'| >= |targets| - 1 && forall i :: 1 <= i < |targets| ==> targets'[i - 1] == targets[i]
    requires targets' != [] && Depth(targets'[0]) == Depth(targets[0])
    ensures Frontier(g, traveller, from, targets', visited + {targets[0].square})
  {
    var k := Depth(targets[0]);
    var visited' := visited + {targets[0].square};
    forall v, d | v in Within(g, traveller, from, k - 1) && Enterable(g, traveller, Step(g, v, d)) &&
                  Step(g, v, d) !in visited'
      ensures QueuedBy(targets', Step(g, v, d), k)
    {
      var w := Step(g, v, d);
      var i :| 0 <= i < |targets| && targets[i].square == w && Depth(targets[i]) <= k;
      assert i != 0;
      assert targets'[i - 1] == targets[i];
    }
  }

  /** A square queued at depth at most k, in a queue whose every node after
      the first has depth k + 1, is the square of the first node. */
  lemma QueuedByFront(targets: seq<Node>, w: Square, k: nat)
    requires QueuedBy(targets, w, k) && targets != [] && Depth(targets[0]) == k
    requires forall i :: 1 <= i < |targets| ==> Depth(targets[i]) == k + 1
    ensures targets[0].square == w
  {
    var i :| 0 <= i < |targets| && targets[i].square == w && Depth(targets[i]) <= k;
    assert i == 0;
  }

  /** When the front moves from depth k to k + 1, everything within k steps
      has been visited. */
  lemma SearchStepLayerVisited<U>(g: Grid<U>, traveller: Option<U>, from: Square,
                                  targets: seq<Node>, visited: set<Square>)
    requires Frontier(g, traveller, from, targets, visited)
    requires targets != [] && Linked(g, traveller, from, targets[0])
    requires forall i :: 1 <= i < |targets| ==> Depth(targets[i]) == Depth(targets[0]) + 1
    ensures Within(g, traveller, from, Depth(targets[0])) <= visited + {targets[0].square}
  {
    var node := targets[0];
    var k := Depth(node);
    var visited' := visited + {node.square};
    if k == 0 {
      LinkedDepthZero(g, traveller, from, node);
    } else {
      var nearer := Within(g, traveller, from, k - 1);
      forall w | w in Within(g, traveller, from, k) ensures w in visited' {
        if w !in nearer {
          var v, d := SuccessorFrom(g, traveller, nearer, w);
          if w !in visited {
            QueuedByFront(targets, w, k);
          }
        }
      }
    }
  }

  /** A child queued by the step stands on its square, one level below its parent. */
  lemma ChildQueued<U>(g: Grid<U>, traveller: Option<U>, visited': set<Square>, targets: seq<Node>,
                       targets': seq<Node>, d: Direction)
    requires targets != []
    requires targets' == targets[1..] + NewTargets(g, traveller, visited', targets[0], Values())
    requires Step(g, targets[0].square, d) !in visited' && Enterable(g, traveller, Step(g, targets[0].square, d))
    ensures QueuedBy(targets', Step(g, targets[0].square, d), Depth(targets[0]) + 1)
  {
    var node := targets[0];
    var w := Step(g, node.square, d);
    var children := NewTargets(g, traveller, visited', node, Values());
    NewTargetsSpec(g, traveller, visited', node, Values());
    ValuesComplete(d);
    var c := Child(d, w, node);
    assert c in children;
    var j :| 0 <= j < |children| && children[j] == c;
    assert targets'[|targets| - 1 + j] == c;
  }

  /** A square queued behind the first node stays queued after the step,
      at the depth of the old node. */
  lemma StillQueued(targets: seq<Node>, targets': seq<Node>, w: Square, k: nat)
    requires Queued(targets, w) && targets != [] && targets[0].square != w
    requires forall i :: 1 <= i < |targets| ==> Depth(targets[i]) <= k
    requires |targets'| >= |targets| - 1 && forall i :: 1 <= i < |targets| ==> targets'[i - 1] == targets[i]
    ensures QueuedBy(targets', w, k)
  {
    var i :| 0 <= i < |targets| && targets[i].square == w;
    assert targets'[i - 1] == targets[i];
  }

  /** When the front moves from depth k to k + 1, the enterable neighbours of
      the squares within k steps are visited or queued at depth k + 1. */
  lemma SearchStepFrontierNext<U>(g: Grid<U>, traveller: Option<U>, from: Square,
                                  targets: seq<Node>, visited: set<Square>, targets': seq<Node>)
    requires Closed(g, traveller, targets, visited)
    requires targets != []
    requires Within(g, traveller, from, Depth(targets[0])) <= visited + {targets[0].square}
    requires forall i :: 1 <= i < |targets| ==> Depth(targets[i]) == Depth(targets[0]) + 1
    requires targets' == targets[1..] + NewTargets(g, traveller, visited + {targets[0].square}, targets[0], Values())
    ensures forall v, d ::
              (v in Within(g, traveller, from, Depth(targets[0])) && Enterable(g, traveller, Step(g, v, d)) &&
               Step(g, v, d) !in visited + {targets[0].square}) ==>
              QueuedBy(targets', Step(g, v, d), Depth(targets[0]) + 1)
  {
    var node := targets[0];
    var s := node.square;
    var k := Depth(node);
    var visited' := visited + {s};
    var layer := Within(g, traveller, from, k);
    assert |targets'| >= |targets| - 1 && forall i :: 1 <= i < |targets| ==> targets'[i - 1] == targets[i];
    forall v, d | v in layer && Enterable(g, traveller, Step(g, v, d)) && Step(g, v, d) !in visited'
      ensures QueuedBy(targets', Step(g, v, d), k + 1)
    {
      if v == s {
        ChildQueued(g, traveller, visited', targets, targets', d);
      } else {
        StillQueued(targets, targets', Step(g, v, d), k + 1);
      }
    }
  }

  /** After one step the new front is at the old front's depth or one
      deeper; in the second case every node left behind the old front was
      already one deeper. */
  lemma StepFrontDepth(targets: seq<Node>, children: seq<Node>, targets': seq<Node>)
    requires targets != [] && Layered(targets)
    requires forall c :: c in children ==> Depth(c) == Depth(targets[0]) + 1
    requires targets' == targets[1..] + children && targets' != []
    ensures Depth(targets'[0]) == Depth(targets[0]) || Depth(targets'[0]) == Depth(targets[0]) + 1
    ensures Depth(targets'[0]) != Depth(targets[0]) ==>
      forall i :: 1 <= i < |targets| ==> Depth(targets[i]) == Depth(targets[0]) + 1
  {
    if |targets| > 1 {
      assert targets'[0] == targets[1];
    } else {
      assert targets'[0] in children;
    }
  }

  /** The frontier survives one step of the search. */
  lemma SearchStepFrontier<U>(g: Grid<U>, traveller: Option<U>, from: Square,
                              targets: seq<Node>, visited: set<Square>, targets': seq<Node>)
    requires Frontier(g, traveller, from, targets, visited) && Closed(g, traveller, targets, visited)
    requires targets != [] && Layered(targets) && Linked(g, traveller, from, targets[0])
    requires targets' == targets[1..] + NewTargets(g, traveller, visited + {targets[0].square}, targets[0], Values())
    ensures Frontier(g, traveller, from, targets', visited + {targets[0].square})
  {
    var node := targets[0];
    var visited' := visited + {node.square};
    var children := NewTargets(g, traveller, visited', node, Values());
    NewTargetsSpec(g, traveller, visited', node, Values());
    var k := Depth(node);
    assert |targets'| >= |targets| - 1 && forall i :: 1 <= i < |targets| ==> targets'[i - 1] == targets[i];
    if targets' != [] && Depth(targets'[0]) > 0 {
      StepFrontDepth(targets, children, targets');
      if Depth(targets'[0]) == k {
        SearchStepFrontierSame(g, traveller, from, targets, visited, targets');
      } else {
        SearchStepLayerVisited(g, traveller, from, targets, visited);
        SearchStepFrontierNext(g, traveller, from, targets, visited, targets');
        assert Depth(targets'[0]) - 1 == k;
      }
    }
  }

  /** When the queue is empty, every square the traveller can reach is visited. */
  lemma {:induction false} ClosedReach<U>(g: Grid<U>, traveller: Option<U>, from: Square,
                                          visited: set<Square>, path: seq<Direction>)
    requires Closed(g, traveller, [], visited) && from in visited
    requires PathEnterable(g, traveller, from, path)
    ensures FollowPath(g, from, path) in visited
    decreases |path|
  {
    if path != [] {
      var init := path[..|path| - 1];
      ClosedReach(g, traveller, from, visited, init);
      var v := FollowPath(g, from, init);
      var d := path[|path| - 1];
      assert !Queued([], Step(g, v, d));
    }
  }

  /** The search answers a path from `from` to `to` that the traveller may
      take and that no such path is shorter than; it answers nothing only
      when `to` cannot be reached at all. */
  lemma {:induction false} SearchCorrect<U>(g: Grid<U>, traveller: Option<U>, from: Square, to: Square,
                                            targets: seq<Node>, visited: set<Square>)
    requires Valid(g) && Bounded(g, targets, visited)
    requires SearchInv(g, traveller, from, to, targets, visited)
    ensures Search(g, traveller, to, targets, visited).Some? ==>
      var p := Search(g, traveller, to, targets, visited).value;
      FollowPath(g, from, p) == to && PathEnterable(g, traveller, from, p) &&
      forall q :: PathEnterable(g, traveller, from, q) && FollowPath(g, from, q) == to ==> |p| <= |q|
    ensures Search(g, traveller, to, targets, visited).None? ==> !Reachable(g, traveller, from, to)
    decreases Weight(|AllSquares(g)|, targets)
  {
    if targets == [] {
      if Reachable(g, traveller, from, to) {
        var q :| PathEnterable(g, traveller, from, q) && FollowPath(g, from, q) == to;
        ClosedReach(g, traveller, from, visited, q);
      }
    } else {
      var node := targets[0];
      if node.square == to {
        LinkedPath(g, traveller, from, node);
        forall q | PathEnterable(g, traveller, from, q) && FollowPath(g, from, q) == to
          ensures |GetPath(node)| <= |q|
        {
          if |q| < Depth(node) {
            PathWithin(g, traveller, from, q);
            WithinGrows(g, traveller, from, |q|, Depth(node) - 1);
          }
        }
      } else {
        var visited' := visited + {node.square};
        var targets' := targets[1..] + NewTargets(g, traveller, visited', node, Values());
        SearchStepBounded(g, traveller, targets, visited);
        SearchStepWeight(g, traveller, targets, visited);
        SearchStepShape(g, traveller, from, to, targets, visited);
        SearchStepClosed(g, traveller, from, to, targets, visited);
        SearchStepFrontier(g, traveller, from, targets, visited, targets');
        SearchCorrect(g, traveller, from, to, targets', visited');
      }
    }
  }

  /** `shortestPath` answers a path exactly when `to` can be reached; the
      path, replayed from `from`, ends on `to` and enters only squares the
      traveller may enter (any square when there is no traveller). */
  lemma BfsPathSound<U>(g: Grid<U>, from: Square, to: Square, traveller: Option<U>)
    requires Valid(g) && OnBoard(g, from)
    ensures BfsPath(g, from, to, traveller).Some? <==> Reachable(g, traveller, from, to)
    ensures BfsPath(g, from, to, traveller).Some? ==>
      FollowPath(g, from, BfsPath(g, from, to, traveller).value) == to &&
      PathEnterable(g, traveller, from, BfsPath(g, from, to, traveller).value)
  {
    if from == to {
      assert FollowPath(g, from, []) == to && PathEnterable(g, traveller, from, []);
    } else {
      assert ChainSquares(Root(from)) == {from};
      SearchInvInit(g, traveller, from, to);
      SearchCorrect(g, traveller, from, to, [Root(from)], {});
    }
  }

  /** The answer of `shortestPath` is a shortest path: no path the traveller
      may take from `from` to `to` has fewer steps. */
  lemma BfsPathMinimal<U>(g: Grid<U>, from: Square, to: Square, traveller: Option<U>, q: seq<Direction>)
    requires Valid(g) && OnBoard(g, from)
    requires PathEnterable(g, traveller, from, q) && FollowPath(g, from, q) == to
    ensures BfsPath(g, from, to, traveller).Some?
    ensures |BfsPath(g, from, to, traveller).value| <= |q|
  {
    BfsPathSound(g, from, to, traveller);
    if from != to {
      assert ChainSquares(Root(from)) == {from};
      SearchInvInit(g, traveller, from, to);
      SearchCorrect(g, traveller, from, to, [Root(from)], {});
    }
  }

  // ---------------------------------------------------------------------
  // shortestPath and addNewTargets as the source runs them
  // ---------------------------------------------------------------------

  /** `addNewTargets`: appends to the queue, in `Direction.values()` order,
      a child of `node` for every neighbour that is not visited and that the
      traveller may enter. */
  method AddNewTargets<U>(g: Grid<U>, traveller: Option<U>, targets: seq<Node>, visited: set<Square>, node: Node)
    returns (result: seq<Node>)
    ensures result == targets + NewTargets(g, traveller, visited, node, Values())
  {
    result := targets;
    var directions := Values();
    for i := 0 to |directions|
      invariant result == targets + NewTargets(g, traveller, visited, node, directions[..i])
    {
      var direction := directions[i];
      var target := Step(g, node.square, direction);
      assert directions[..i + 1][..i] == directions[..i];
      if target !in visited && Enterable(g, traveller, target) {
        result := result + [Child(direction, target, node)];
      }
    }
    assert directions[..|directions|] == directions;
  }

  /** `shortestPath`: a FIFO breadth-first search that marks a square visited
      only when it is dequeued and never removes duplicates from its queue. */
  method ShortestPath<U>(g: Grid<U>, from: Square, to: Square, traveller: Option<U>)
    returns (path: Option<seq<Direction>>)
    requires Valid(g) && OnBoard(g, from)
    ensures path == BfsPath(g, from, to, traveller)
  {
    if from == to {
      return Some([]);
    }
    var targets := [Root(from)];
    var visited: set<Square> := {};
    assert ChainSquares(Root(from)) == {from};
    while targets != []
      invariant Bounded(g, targets, visited)
      invariant Search(g, traveller, to, targets, visited) == BfsPath(g, from, to, traveller)
      decreases Weight(|AllSquares(g)|, targets)
    {
      SearchStepBounded(g, traveller, targets, visited);
      SearchStepWeight(g, traveller, targets, visited);
      var node := targets[0];
      targets := targets[1..];
      var square := node.square;
      if square == to {
        return Some(GetPath(node));
      }
      visited := visited + {square};
      targets := AddNewTargets(g, traveller, targets, visited, node);
    }
    return None;
  }

  // ---------------------------------------------------------------------
  // getNextDirection
  // ---------------------------------------------------------------------

  /** `getNextDirection`: the first step of the shortest path, none when
      there is no path or the path is empty. */
  function NextDirection<U>(g: Grid<U>, from: Square, to: Square, traveller: Option<U>): Option<Direction>
    requires Valid(g) && OnBoard(g, from)
  {
    match BfsPath(g, from, to, traveller)
    case Some(path) => if path != [] then Some(path[0]) else None
    case None => None
  }

  /** There is no next direction exactly when the traveller stands on its
      destination or cannot reach it; otherwise the answer is the first
      step of a shortest path the traveller may take. */
  lemma NextDirectionSpec<U>(g: Grid<U>, from: Square, to: Square, traveller: Option<U>)
    requires Valid(g) && OnBoard(g, from)
    ensures NextDirection(g, from, to, traveller).None? <==> from == to || !Reachable(g, traveller, from, to)
    ensures NextDirection(g, from, to, traveller).Some? ==>
      exists p :: p != [] && p[0] == NextDirection(g, from, to, traveller).value &&
        PathEnterable(g, traveller, from, p) && FollowPath(g, from, p) == to &&
        forall q :: PathEnterable(g, traveller, from, q) && FollowPath(g, from, q) == to ==> |p| <= |q|
  {
    BfsPathSound(g, from, to, traveller);
    var r := BfsPath(g, from, to, traveller);
    if r.Some? {
      var p := r.value;
      if p == [] {
        assert from == to;
      } else {
        forall q | PathEnterable(g, traveller, from, q) && FollowPath(g, from, q) == to ensures |p| <= |q| {
          BfsPathMinimal(g, from, to, traveller, q);
        }
      }
    }
  }

  // ---------------------------------------------------------------------
  // findUnit and findUnitInBoard
  // ---------------------------------------------------------------------

  /** The first occupant, in occupant order, for which `isType` holds. */
  function FirstOfType<U>(isType: U -> bool, occupants: seq<U>): (r: Option<U>)
    ensures r.None? <==> forall i :: 0 <= i < |occupants| ==> !isType(occupants[i])
    ensures r.Some? ==> exists i :: 0 <= i < |occupants| && occupants[i] == r.value && isType(r.value) &&
                                    forall j :: 0 <= j < i ==> !isType(occupants[j])
  {
    if occupants == [] then None
    else if isType(occupants[0]) then
      assert occupants[0] == occupants[0];
      Some(occupants[0])
    else
      var r := FirstOfType(isType, occupants[1..]);
      assert r.Some? ==> exists i :: 0 <= i < |occupants[1..]| && occupants[1..][i] == r.value && isType(r.value) &&
                                     forall j :: 0 <= j < i ==> !isType(occupants[1..][j]);
      assert forall i :: 1 <= i < |occupants| ==> occupants[i] == occupants[1..][i - 1];
      r
  }

  /** `findUnit`: scans the occupants of a square in order and answers the
      first one of the type. */
  method FindUnit<U>(isType: U -> bool, occupants: seq<U>) returns (r: Option<U>)
    ensures r == FirstOfType(isType, occupants)
  {
    for i := 0 to |occupants|
      invariant FirstOfType(isType, occupants) == FirstOfType(isType, occupants[i..])
    {
      assert occupants[i..][1..] == occupants[i + 1..];
      if isType(occupants[i]) {
        return Some(occupants[i]);
      }
    }
    return None;
  }

  /** The first unit of the type on square `s`. */
  function UnitOn<U>(occupancy: map<Square, seq<U>>, isType: U -> bool, s: Square): Option<U> {
    FirstOfType(isType, Occupants(occupancy, s))
  }

  /** Square (x', y') comes before square (x, y) when the rows are scanned
      top to bottom and each row left to right. */
  predicate RowMajorBefore(a: Square, b: Square) {
    a.y < b.y || (a.y == b.y && a.x < b.x)
  }

  /** `findUnitInBoard`: scans the rows (y) in the outer loop and the
      columns (x) in the inner one and answers the first unit of the type
      it meets. There is none exactly when no board square holds one; the
      answer is the first unit of the type on its square and no square
      scanned before it holds one. */
  method FindUnitInBoard<U>(g: Grid<U>, occupancy: map<Square, seq<U>>, isType: U -> bool) returns (r: Option<U>)
    ensures r.None? <==> forall s :: OnBoard(g, s) ==> UnitOn(occupancy, isType, s).None?
    ensures r.Some? ==> exists s :: OnBoard(g, s) && UnitOn(occupancy, isType, s) == r &&
                          forall t :: OnBoard(g, t) && RowMajorBefore(t, s) ==> UnitOn(occupancy, isType, t).None?
  {
    for y := 0 to g.height
      invariant forall t :: OnBoard(g, t) && t.y < y ==> UnitOn(occupancy, isType, t).None?
    {
      for x := 0 to g.width
        invariant forall t :: OnBoard(g, t) && (t.y < y || (t.y == y && t.x < x)) ==> UnitOn(occupancy, isType, t).None?
      {
        var found := FindUnit(isType, Occupants(occupancy, Square(x, y)));
        if found.Some? {
          assert OnBoard(g, Square(x, y));
          return found;
        }
      }
    }
    return None;
  }

  // ---------------------------------------------------------------------
  // findNearest
  // ---------------------------------------------------------------------

  /** Every square within j steps is the end of a path of at most j steps
      the traveller may take. */
  lemma {:induction false} WithinPath<U>(g: Grid<U>, traveller: Option<U>, from: Square, j: nat, t: Square)
    returns (p: seq<Direction>)
    requires t in Within(g, traveller, from, j)
    ensures |p| <= j && PathEnterable(g, traveller, from, p) && FollowPath(g, from, p) == t
  {
    if j == 0 {
      p := [];
    } else if t in Within(g, traveller, from, j - 1) {
      p := WithinPath(g, traveller, from, j - 1, t);
    } else {
      var v, d := SuccessorFrom(g, traveller, Within(g, traveller, from, j - 1), t);
      var q := WithinPath(g, traveller, from, j - 1, v);
      ExtendPath(g, traveller, from, q, d);
      p := q + [d];
    }
  }

  /** Without a traveller every path may be taken. */
  lemma {:induction false} AnyPathEnterable<U>(g: Grid<U>, from: Square, p: seq<Direction>)
    ensures PathEnterable(g, None, from, p)
    decreases |p|
  {
    if p != [] {
      AnyPathEnterable(g, from, p[..|p| - 1]);
    }
  }

  /** The work list of `findNearest` after queueing, for the directions of
      `ds` in order, each neighbour of `square` that is neither visited nor
      already queued. */
  function Enqueue<U>(g: Grid<U>, visited: set<Square>, toDo: seq<Square>, square: Square, ds: seq<Direction>): seq<Square>
    decreases |ds|
  {
    if ds == [] then toDo
    else
      var queued := Enqueue(g, visited, toDo, square, ds[..|ds| - 1]);
      var target := Step(g, square, ds[|ds| - 1]);
      if target !in visited && target !in queued then queued + [target] else queued
  }

  /** Queueing keeps the old work list as a prefix, adds only unvisited
      neighbours, leaves no neighbour out and never queues a square twice. */
  lemma {:induction false} EnqueueSpec<U>(g: Grid<U>, visited: set<Square>, toDo: seq<Square>, square: Square, ds: seq<Direction>)
    ensures |Enqueue(g, visited, toDo, square, ds)| >= |toDo|
    ensures Enqueue(g, visited, toDo, square, ds)[..|toDo|] == toDo
    ensures forall t :: t in Enqueue(g, visited, toDo, square, ds) ==>
      t in toDo || (t !in visited && exists d :: d in ds && t == Step(g, square, d))
    ensures forall d :: d in ds ==> Step(g, square, d) in visited || Step(g, square, d) in Enqueue(g, visited, toDo, square, ds)
    ensures Distinct(toDo) && (forall t :: t in toDo ==> t !in visited) ==>
      Distinct(Enqueue(g, visited, toDo, square, ds)) && forall t :: t in Enqueue(g, visited, toDo, square, ds) ==> t !in visited
    decreases |ds|
  {
    if ds != [] {
      var init := ds[..|ds| - 1];
      var queued := Enqueue(g, visited, toDo, square, init);
      EnqueueSpec(g, visited, toDo, square, init);
      var target := Step(g, square, ds[|ds| - 1]);
      forall d | d in ds ensures d in init || d == ds[|ds| - 1] {
        var i :| 0 <= i < |ds| && ds[i] == d;
        if i < |ds| - 1 { assert init[i] == d; }
      }
      if target !in visited && target !in queued {
        assert (queued + [target])[..|toDo|] == queued[..|toDo|];
      }
    }
  }

  /** The labels of the work list: each queued square's distance from the start. */
  function Label(dist: map<Square, nat>, t: Square): nat {
    if t in dist then dist[t] else 0
  }

  /** The work list is sorted by label and spans at most two consecutive labels. */
  ghost predicate LabelLayered(toDo: seq<Square>, dist: map<Square, nat>) {
    (forall i, j :: 0 <= i <= j < |toDo| ==> Label(dist, toDo[i]) <= Label(dist, toDo[j])) &&
    (forall i :: 0 <= i < |toDo| ==> Label(dist, toDo[i]) <= Label(dist, toDo[0]) + 1)
  }

  /** Every neighbour of a visited square is visited or queued. */
  ghost predicate NearestClosed<U>(g: Grid<U>, toDo: seq<Square>, visited: set<Square>) {
    forall v, d :: v in visited && Step(g, v, d) !in visited ==> Step(g, v, d) in toDo
  }

  /** With the front labelled k: everything within k - 1 steps is visited
      and its neighbours are visited or queued with a label of at most k. */
  ghost predicate NearestFrontier<U>(g: Grid<U>, start: Square, toDo: seq<Square>, dist: map<Square, nat>, visited: set<Square>) {
    toDo != [] && Label(dist, toDo[0]) > 0 ==>
      var k := Label(dist, toDo[0]);
      Within(g, None, start, k - 1) <= visited &&
      forall v, d :: (v in Within(g, None, start, k - 1) && Step(g, v, d) !in visited) ==>
        Step(g, v, d) in toDo && Label(dist, Step(g, v, d)) <= k
  }

  /** The work list holds distinct, unvisited board squares. */
  ghost predicate NearestFresh<U>(g: Grid<U>, toDo: seq<Square>, visited: set<Square>) {
    Distinct(toDo) && forall t :: t in toDo ==> t !in visited && OnBoard(g, t)
  }

  /** Each queued square is reachable within its label. */
  ghost predicate NearestLabelled<U>(g: Grid<U>, start: Square, toDo: seq<Square>, dist: map<Square, nat>) {
    forall t :: t in toDo ==> t in Within(g, None, start, Label(dist, t))
  }

  /** The invariant of the `findNearest` loop. */
  ghost predicate NearestInv<U>(g: Grid<U>, occupancy: map<Square, seq<U>>, isType: U -> bool, start: Square,
                                toDo: seq<Square>, dist: map<Square, nat>, visited: set<Square>) {
    NearestFresh(g, toDo, visited) &&
    NearestLabelled(g, start, toDo, dist) &&
    visited <= AllSquares(g) &&
    LabelLayered(toDo, dist) &&
    NearestClosed(g, toDo, visited) &&
    (start in visited || start in toDo) &&
    NearestFrontier(g, start, toDo, dist, visited) &&
    (forall v :: v in visited ==> UnitOn(occupancy, isType, v).None?)
  }

  /** The labels after a step: the squares kept from the old work list keep
      theirs, the squares just queued get `next`. */
  ghost function NextLabels(dist: map<Square, nat>, rest: seq<Square>, toDo: seq<Square>, next: nat): map<Square, nat> {
    map t | t in toDo :: if t in rest then Label(dist, t) else next
  }

  /** A square queued behind the front of a distinct work list is in its tail. */
  lemma InTail(toDo: seq<Square>, t: Square)
    requires t in toDo && toDo != [] && t != toDo[0]
    ensures t in toDo[1..]
  {
    var i :| 0 <= i < |toDo| && toDo[i] == t;
    assert toDo[1..][i - 1] == t;
  }

  /** The tail of a distinct, unvisited work list is distinct and misses
      the front square too. */
  lemma TailDistinct(toDo: seq<Square>, visited: set<Square>)
    requires Distinct(toDo) && toDo != [] && forall t :: t in toDo ==> t !in visited
    ensures Distinct(toDo[1..]) && forall t :: t in toDo[1..] ==> t !in visited + {toDo[0]}
  {
    forall t | t in toDo[1..] ensures t != toDo[0] {
      var i :| 0 <= i < |toDo[1..]| && toDo[1..][i] == t;
      assert toDo[i + 1] == t;
    }
  }

  /** A neighbour of a square within k steps is within k + 1 steps. */
  lemma NeighbourWithin<U>(g: Grid<U>, start: Square, s: Square, k: nat, d: Direction)
    requires s in Within(g, None, start, k)
    ensures Step(g, s, d) in Within(g, None, start, k + 1)
  {
    SuccessorIn(g, None, Within(g, None, start, k), s, d);
  }

  /** One step keeps the work list distinct, unvisited and on the board,
      keeps the old tail as a prefix and queues only neighbours of the
      front square. */
  lemma NearestStepFresh<U>(g: Grid<U>, toDo: seq<Square>, visited: set<Square>)
    requires Valid(g) && NearestFresh(g, toDo, visited) && toDo != []
    ensures var s := toDo[0];
            var toDo' := Enqueue(g, visited + {s}, toDo[1..], s, Values());
            NearestFresh(g, toDo', visited + {s}) &&
            |toDo'| >= |toDo| - 1 && toDo'[..|toDo| - 1] == toDo[1..] &&
            (forall t :: t in toDo' && t !in toDo[1..] ==> exists d :: d in Values() && t == Step(g, s, d))
  {
    var s := toDo[0];
    var rest := toDo[1..];
    TailDistinct(toDo, visited);
    EnqueueSpec(g, visited + {s}, rest, s, Values());
    assert forall t :: t in rest ==> t in toDo;
  }

  /** The squares kept from the old work list keep their labels; the
      squares just queued carry `next`. */
  lemma NextLabelsSpec(dist: map<Square, nat>, rest: seq<Square>, toDo: seq<Square>, next: nat)
    ensures forall t :: t in toDo ==> Label(NextLabels(dist, rest, toDo, next), t) == if t in rest then Label(dist, t) else next
  {
  }

  /** One step keeps each queued square reachable within its label. */
  lemma NearestStepLabelled<U>(g: Grid<U>, start: Square, toDo: seq<Square>, dist: map<Square, nat>,
                               toDo': seq<Square>, dist': map<Square, nat>)
    requires NearestLabelled(g, start, toDo, dist) && toDo != []
    requires forall t :: t in toDo' && t !in toDo[1..] ==> exists d :: d in Values() && t == Step(g, toDo[0], d)
    requires forall t :: t in toDo' ==> Label(dist', t) == if t in toDo[1..] then Label(dist, t) else Label(dist, toDo[0]) + 1
    ensures NearestLabelled(g, start, toDo', dist')
  {
    forall t | t in toDo' ensures t in Within(g, None, start, Label(dist', t)) {
      if t in toDo[1..] {
        assert t in toDo;
      } else {
        var d :| d in Values() && t == Step(g, toDo[0], d);
        NeighbourWithin(g, start, toDo[0], Label(dist, toDo[0]), d);
      }
    }
  }

  /** One step keeps the work list sorted by label within two consecutive labels. */
  lemma NearestStepLayered(toDo: seq<Square>, dist: map<Square, nat>, toDo': seq<Square>)
    requires LabelLayered(toDo, dist) && toDo != []
    requires Distinct(toDo') && |toDo'| >= |toDo| - 1 && toDo'[..|toDo| - 1] == toDo[1..]
    ensures LabelLayered(toDo', NextLabels(dist, toDo[1..], toDo', Label(dist, toDo[0]) + 1))
  {
    var k := Label(dist, toDo[0]);
    var dist' := NextLabels(dist, toDo[1..], toDo', k + 1);
    forall i | 0 <= i < |toDo'|
      ensures k <= Label(dist', toDo'[i]) <= k + 1
      ensures i >= |toDo| - 1 ==> Label(dist', toDo'[i]) == k + 1
      ensures i < |toDo| - 1 ==> Label(dist', toDo'[i]) == Label(dist, toDo[i + 1])
    {
      NextLabelAt(toDo, dist, toDo', i);
    }
    forall i, j | 0 <= i <= j < |toDo'| ensures Label(dist', toDo'[i]) <= Label(dist', toDo'[j]) {
      if j < |toDo| - 1 {
        assert Label(dist, toDo[i + 1]) <= Label(dist, toDo[j + 1]);
      }
    }
  }

  /** The label of one square of the new work list: a kept square keeps its
      label, which lies between k and k + 1; a new square is labelled k + 1. */
  lemma NextLabelAt(toDo: seq<Square>, dist: map<Square, nat>, toDo': seq<Square>, i: nat)
    requires LabelLayered(toDo, dist) && toDo != []
    requires Distinct(toDo') && |toDo'| >= |toDo| - 1 && toDo'[..|toDo| - 1] == toDo[1..] && i < |toDo'|
    ensures var k := Label(dist, toDo[0]);
            var l := Label(NextLabels(dist, toDo[1..], toDo', k + 1), toDo'[i]);
            k <= l <= k + 1 &&
            (i >= |toDo| - 1 ==> l == k + 1) &&
            (i < |toDo| - 1 ==> l == Label(dist, toDo[i + 1]))
  {
    var rest := toDo[1..];
    NextLabelsSpec(dist, rest, toDo', Label(dist, toDo[0]) + 1);
    if i < |rest| {
      assert toDo'[i] == rest[i] == toDo[i + 1];
    } else {
      forall j | 0 <= j < |rest| ensures rest[j] != toDo'[i] {
        assert toDo'[j] == rest[j];
      }
    }
  }

  /** One step keeps every neighbour of a visited square visited or queued,
      and the start visited or queued. */
  lemma NearestStepClosed<U>(g: Grid<U>, start: Square, toDo: seq<Square>, visited: set<Square>)
    requires NearestClosed(g, toDo, visited) && (start in visited || start in toDo) && toDo != []
    ensures var s := toDo[0];
            var visited' := visited + {s};
            var toDo' := Enqueue(g, visited', toDo[1..], s, Values());
            NearestClosed(g, toDo', visited') && (start in visited' || start in toDo')
  {
    var s := toDo[0];
    var rest := toDo[1..];
    var visited' := visited + {s};
    var toDo' := Enqueue(g, visited', rest, s, Values());
    EnqueueSpec(g, visited', rest, s, Values());
    assert forall t :: t in rest ==> t in toDo' by {
      forall t | t in rest ensures t in toDo' {
        var i :| 0 <= i < |rest| && rest[i] == t;
        assert toDo'[..|rest|][i] == t;
      }
    }
    forall v, d | v in visited' && Step(g, v, d) !in visited' ensures Step(g, v, d) in toDo' {
      if v == s {
        ValuesComplete(d);
      } else {
        InTail(toDo, Step(g, v, d));
      }
    }
    if start !in visited' {
      InTail(toDo, start);
    }
  }

  /** The tail kept as a prefix is still queued. */
  lemma PrefixIn(rest: seq<Square>, toDo': seq<Square>)
    requires |toDo'| >= |rest| && toDo'[..|rest|] == rest
    ensures forall t :: t in rest ==> t in toDo'
  {
    forall t | t in rest ensures t in toDo' {
      var i :| 0 <= i < |rest| && rest[i] == t;
      assert toDo'[..|rest|][i] == t;
    }
  }

  /** A queued square labelled at most k, in a work list whose every square
      after the front is labelled k + 1, is the front. */
  lemma LabelledFront(toDo: seq<Square>, dist: map<Square, nat>, t: Square, k: nat)
    requires t in toDo && Label(dist, t) <= k && toDo != []
    requires forall i :: 1 <= i < |toDo| ==> Label(dist, toDo[i]) == k + 1
    ensures t == toDo[0]
  {
    var i :| 0 <= i < |toDo| && toDo[i] == t;
    assert i == 0;
  }

  /** After a step the front is labelled k or k + 1; in the second case every
      square of the old tail was labelled k + 1. */
  lemma NearestFrontLabel(toDo: seq<Square>, dist: map<Square, nat>, toDo': seq<Square>)
    requires LabelLayered(toDo, dist) && toDo != []
    requires toDo' != [] && |toDo'| >= |toDo| - 1 && toDo'[..|toDo| - 1] == toDo[1..]
    ensures var k := Label(dist, toDo[0]);
            var k' := Label(NextLabels(dist, toDo[1..], toDo', k + 1), toDo'[0]);
            (k' == k || k' == k + 1) &&
            (k' != k ==> forall i :: 1 <= i < |toDo| ==> Label(dist, toDo[i]) == k + 1)
  {
    var k := Label(dist, toDo[0]);
    NextLabelsSpec(dist, toDo[1..], toDo', k + 1);
    if |toDo| > 1 {
      assert toDo'[0] == toDo[1] && toDo[1] in toDo[1..];
    } else {
      assert toDo'[0] !in toDo[1..];
    }
  }

  /** When the front label stays k, the frontier survives one step. */
  lemma NearestStepFrontierSame<U>(g: Grid<U>, start: Square, toDo: seq<Square>, dist: map<Square, nat>,
                                   visited: set<Square>, toDo': seq<Square>, dist': map<Square, nat>)
    requires NearestFrontier(g, start, toDo, dist, visited) && toDo != [] && Label(dist, toDo[0]) > 0
    requires |toDo'| >= |toDo| - 1 && toDo'[..|toDo| - 1] == toDo[1..]
    requires forall t :: t in toDo[1..] ==> Label(dist', t) == Label(dist, t)
    requires toDo' != [] && Label(dist', toDo'[0]) == Label(dist, toDo[0])
    ensures NearestFrontier(g, start, toDo', dist', visited + {toDo[0]})
  {
    var k := Label(dist, toDo[0]);
    PrefixIn(toDo[1..], toDo');
    forall v, d | v in Within(g, None, start, k - 1) && Step(g, v, d) !in visited + {toDo[0]}
      ensures Step(g, v, d) in toDo' && Label(dist', Step(g, v, d)) <= k
    {
      InTail(toDo, Step(g, v, d));
    }
  }

  /** When the front label moves from k to k + 1, everything within k steps
      has been visited. */
  lemma NearestLayerVisited<U>(g: Grid<U>, start: Square, toDo: seq<Square>, dist: map<Square, nat>, visited: set<Square>)
    requires NearestFrontier(g, start, toDo, dist, visited) && toDo != []
    requires toDo[0] in Within(g, None, start, Label(dist, toDo[0]))
    requires forall i :: 1 <= i < |toDo| ==> Label(dist, toDo[i]) == Label(dist, toDo[0]) + 1
    ensures Within(g, None, start, Label(dist, toDo[0])) <= visited + {toDo[0]}
  {
    var k := Label(dist, toDo[0]);
    if k > 0 {
      var nearer := Within(g, None, start, k - 1);
      forall w | w in Within(g, None, start, k) ensures w in visited + {toDo[0]} {
        if w !in nearer {
          var v, d :| v in nearer && d in Values() && Enterable(g, None, Step(g, v, d)) && Step(g, v, d) == w;
          if w !in visited {
            LabelledFront(toDo, dist, w, k);
          }
        }
      }
    }
  }

  /** When the front label moves from k to k + 1, the neighbours of the
      squares within k steps are visited or queued with label k + 1. */
  lemma NearestStepFrontierNext<U>(g: Grid<U>, start: Square, toDo: seq<Square>, dist: map<Square, nat>,
                                   visited: set<Square>, toDo': seq<Square>, dist': map<Square, nat>)
    requires NearestClosed(g, toDo, visited) && toDo != []
    requires Within(g, None, start, Label(dist, toDo[0])) <= visited + {toDo[0]}
    requires |toDo'| >= |toDo| - 1 && toDo'[..|toDo| - 1] == toDo[1..]
    requires forall d :: Step(g, toDo[0], d) in visited + {toDo[0]} || Step(g, toDo[0], d) in toDo'
    requires forall t :: t in toDo' ==> Label(dist', t) == Label(dist, toDo[0]) + 1
    ensures forall v, d :: (v in Within(g, None, start, Label(dist, toDo[0])) && Step(g, v, d) !in visited + {toDo[0]}) ==>
              Step(g, v, d) in toDo' && Label(dist', Step(g, v, d)) <= Label(dist, toDo[0]) + 1
  {
    PrefixIn(toDo[1..], toDo');
    forall v, d | v in Within(g, None, start, Label(dist, toDo[0])) && Step(g, v, d) !in visited + {toDo[0]}
      ensures Step(g, v, d) in toDo'
    {
      if v != toDo[0] {
        InTail(toDo, Step(g, v, d));
      }
    }
  }

  /** Every neighbour of the front square is visited or queued after the step. */
  lemma EnqueueCovers<U>(g: Grid<U>, visited: set<Square>, rest: seq<Square>, s: Square)
    ensures forall d :: Step(g, s, d) in visited || Step(g, s, d) in Enqueue(g, visited, rest, s, Values())
  {
    EnqueueSpec(g, visited, rest, s, Values());
    forall d ensures d in Values() { ValuesComplete(d); }
  }

  /** When the whole old tail is labelled `next`, so is the whole new work list. */
  lemma NextLabelsUniform(dist: map<Square, nat>, toDo: seq<Square>, toDo': seq<Square>, next: nat)
    requires toDo != [] && forall i :: 1 <= i < |toDo| ==> Label(dist, toDo[i]) == next
    ensures forall t :: t in toDo' ==> Label(NextLabels(dist, toDo[1..], toDo', next), t) == next
  {
    NextLabelsSpec(dist, toDo[1..], toDo', next);
    forall t | t in toDo[1..] ensures Label(dist, t) == next {
      var i :| 0 <= i < |toDo[1..]| && toDo[1..][i] == t;
      assert toDo[i + 1] == t;
    }
  }

  /** The frontier survives one step of `findNearest`. */
  lemma NearestStepFrontier<U>(g: Grid<U>, start: Square, toDo: seq<Square>, dist: map<Square, nat>,
                               visited: set<Square>, toDo': seq<Square>)
    requires NearestFrontier(g, start, toDo, dist, visited) && NearestClosed(g, toDo, visited)
    requires LabelLayered(toDo, dist) && toDo != [] && toDo[0] in Within(g, None, start, Label(dist, toDo[0]))
    requires forall d :: Step(g, toDo[0], d) in visited + {toDo[0]} || Step(g, toDo[0], d) in toDo'
    requires |toDo'| >= |toDo| - 1 && toDo'[..|toDo| - 1] == toDo[1..]
    ensures NearestFrontier(g, start, toDo', NextLabels(dist, toDo[1..], toDo', Label(dist, toDo[0]) + 1), visited + {toDo[0]})
  {
    var k := Label(dist, toDo[0]);
    var dist' := NextLabels(dist, toDo[1..], toDo', k + 1);
    if toDo' != [] && Label(dist', toDo'[0]) > 0 {
      NearestFrontLabel(toDo, dist, toDo');
      if Label(dist', toDo'[0]) == k {
        NextLabelsSpec(dist, toDo[1..], toDo', k + 1);
        PrefixIn(toDo[1..], toDo');
        NearestStepFrontierSame(g, start, toDo, dist, visited, toDo', dist');
      } else {
        NextLabelsUniform(dist, toDo, toDo', k + 1);
        NearestLayerVisited(g, start, toDo, dist, visited);
        NearestStepFrontierNext(g, start, toDo, dist, visited, toDo', dist');
      }
    }
  }

  /** The loop invariant holds for the work list holding only the start. */
  lemma NearestInit<U>(g: Grid<U>, occupancy: map<Square, seq<U>>, isType: U -> bool, start: Square)
    requires OnBoard(g, start)
    ensures NearestInv(g, occupancy, isType, start, [start], map[start := 0], {})
  {
    assert Label(map[start := 0], start) == 0;
    assert forall t :: t in [start] ==> t == start;
  }

  /** One iteration of the `findNearest` loop that finds nothing on the
      front square keeps the loop invariant. */
  lemma NearestStep<U>(g: Grid<U>, occupancy: map<Square, seq<U>>, isType: U -> bool, start: Square,
                       toDo: seq<Square>, dist: map<Square, nat>, visited: set<Square>)
    requires Valid(g) && NearestInv(g, occupancy, isType, start, toDo, dist, visited)
    requires toDo != [] && UnitOn(occupancy, isType, toDo[0]).None?
    ensures var toDo' := Enqueue(g, visited + {toDo[0]}, toDo[1..], toDo[0], Values());
            NearestInv(g, occupancy, isType, start, toDo', NextLabels(dist, toDo[1..], toDo', Label(dist, toDo[0]) + 1), visited + {toDo[0]})
  {
    var visited' := visited + {toDo[0]};
    var toDo' := Enqueue(g, visited', toDo[1..], toDo[0], Values());
    NearestStepFresh(g, toDo, visited);
    NextLabelsSpec(dist, toDo[1..], toDo', Label(dist, toDo[0]) + 1);
    NearestStepLabelled(g, start, toDo, dist, toDo', NextLabels(dist, toDo[1..], toDo', Label(dist, toDo[0]) + 1));
    NearestStepLayered(toDo, dist, toDo');
    NearestStepClosed(g, start, toDo, visited);
    EnqueueCovers(g, visited', toDo[1..], toDo[0]);
    NearestStepFrontier(g, start, toDo, dist, visited, toDo');
  }

  /** `NearestStep` for the next work list `toDo'` and labels `dist'` held apart. */
  lemma NearestStepTo<U>(g: Grid<U>, occupancy: map<Square, seq<U>>, isType: U -> bool, start: Square,
                         toDo: seq<Square>, dist: map<Square, nat>, visited: set<Square>,
                         toDo': seq<Square>, dist': map<Square, nat>)
    requires Valid(g) && NearestInv(g, occupancy, isType, start, toDo, dist, visited)
    requires toDo != [] && UnitOn(occupancy, isType, toDo[0]).None?
    requires toDo' == Enqueue(g, visited + {toDo[0]}, toDo[1..], toDo[0], Values())
    requires dist' == NextLabels(dist, toDo[1..], toDo', Label(dist, toDo[0]) + 1)
    ensures NearestInv(g, occupancy, isType, start, toDo', dist', visited + {toDo[0]})
  {
    NearestStep(g, occupancy, isType, start, toDo, dist, visited);
  }

  /** `NearestStep` for the front square `square` and the tail `rest` held apart. */
  lemma NearestStepAt<U>(g: Grid<U>, occupancy: map<Square, seq<U>>, isType: U -> bool, start: Square,
                         toDo: seq<Square>, square: Square, rest: seq<Square>, dist: map<Square, nat>, visited: set<Square>)
    requires Valid(g) && NearestInv(g, occupancy, isType, start, toDo, dist, visited)
    requires toDo != [] && square == toDo[0] && rest == toDo[1..] && UnitOn(occupancy, isType, square).None?
    ensures var toDo' := Enqueue(g, visited + {square}, rest, square, Values());
            NearestInv(g, occupancy, isType, start, toDo', NextLabels(dist, rest, toDo', Label(dist, square) + 1), visited + {square})
  {
    NearestStep(g, occupancy, isType, start, toDo, dist, visited);
    var toDo' := Enqueue(g, visited + {square}, rest, square, Values());
    assert NearestInv(g, occupancy, isType, start, toDo', NextLabels(dist, rest, toDo', Label(dist, square) + 1), visited + {square}) ==
      var front := Enqueue(g, visited + {toDo[0]}, toDo[1..], toDo[0], Values());
      NearestInv(g, occupancy, isType, start, front, NextLabels(dist, toDo[1..], front, Label(dist, toDo[0]) + 1), visited + {toDo[0]});
  }

  /** The unit on the front square of the work list stands at the end of a
      path from the start, and no square reachable by a shorter path holds
      a unit of the type. */
  lemma NearestFound<U>(g: Grid<U>, occupancy: map<Square, seq<U>>, isType: U -> bool, start: Square,
                        toDo: seq<Square>, dist: map<Square, nat>, visited: set<Square>)
    requires NearestLabelled(g, start, toDo, dist) && NearestFrontier(g, start, toDo, dist, visited) && toDo != []
    requires forall v :: v in visited ==> UnitOn(occupancy, isType, v).None?
    ensures exists p :: FollowPath(g, start, p) == toDo[0] &&
                        forall q :: |q| < |p| ==> UnitOn(occupancy, isType, FollowPath(g, start, q)).None?
  {
    var k := Label(dist, toDo[0]);
    var p := WithinPath(g, None, start, k, toDo[0]);
    forall q | |q| < |p| ensures UnitOn(occupancy, isType, FollowPath(g, start, q)).None? {
      AnyPathEnterable(g, start, q);
      PathWithin(g, None, start, q);
      WithinGrows(g, None, start, |q|, k - 1);
    }
  }

  /** When the work list runs out, every square reachable from the start has
      been visited. */
  lemma {:induction false} NearestExhausted<U>(g: Grid<U>, start: Square, visited: set<Square>, p: seq<Direction>)
    requires NearestClosed(g, [], visited) && start in visited
    ensures FollowPath(g, start, p) in visited
    decreases |p|
  {
    if p != [] {
      NearestExhausted(g, start, visited, p[..|p| - 1]);
    }
  }

  /** When the work list runs out, no square reachable from the start holds
      a unit of the type. */
  lemma NearestNone<U>(g: Grid<U>, occupancy: map<Square, seq<U>>, isType: U -> bool, start: Square,
                       dist: map<Square, nat>, visited: set<Square>)
    requires NearestInv(g, occupancy, isType, start, [], dist, visited)
    ensures forall p :: UnitOn(occupancy, isType, FollowPath(g, start, p)).None?
  {
    forall p ensures UnitOn(occupancy, isType, FollowPath(g, start, p)).None? {
      NearestExhausted(g, start, visited, p);
    }
  }

  /** Visiting one more board square shrinks the unvisited part of the board. */
  lemma VisitShrinks(all: set<Square>, visited: set<Square>, s: Square)
    requires s in all && s !in visited
    ensures |all - (visited + {s})| < |all - visited|
  {
    assert all - (visited + {s}) == (all - visited) - {s};
  }

  /** The inner loop of `findNearest`: queue, in `Direction.values()` order,
      each neighbour of `square` that is neither visited nor queued. */
  method EnqueueNeighbours<U>(g: Grid<U>, visited: set<Square>, toDo: seq<Square>, square: Square)
    returns (result: seq<Square>)
    ensures result == Enqueue(g, visited, toDo, square, Values())
  {
    result := toDo;
    var directions := Values();
    for i := 0 to |directions|
      invariant result == Enqueue(g, visited, toDo, square, directions[..i])
    {
      var newTarget := Step(g, square, directions[i]);
      assert directions[..i + 1][..i] == directions[..i];
      if newTarget !in visited && newTarget !in result {
        result := result + [newTarget];
      }
    }
    assert directions[..|directions|] == directions;
  }

  /** The square `findNearest` stops on, from the work list `toDo` and the
      visited squares: the front square when it holds a unit of the type;
      otherwise the front square is visited, its neighbours are queued as
      `EnqueueNeighbours` queues them, and the scan goes on; none when the
      work list runs out. */
  function NearestScan<U>(g: Grid<U>, occupancy: map<Square, seq<U>>, isType: U -> bool,
                          toDo: seq<Square>, visited: set<Square>): Option<Square>
    requires Valid(g) && NearestFresh(g, toDo, visited) && visited <= AllSquares(g)
    decreases |AllSquares(g) - visited|
  {
    if toDo == [] then None
    else if UnitOn(occupancy, isType, toDo[0]).Some? then Some(toDo[0])
    else
      NearestStepFresh(g, toDo, visited);
      VisitShrinks(AllSquares(g), visited, toDo[0]);
      NearestScan(g, occupancy, isType, Enqueue(g, visited + {toDo[0]}, toDo[1..], toDo[0], Values()), visited + {toDo[0]})
  }

  /** The square on which `findNearest(type, start)` finds its unit. */
  function NearestSquare<U>(g: Grid<U>, occupancy: map<Square, seq<U>>, isType: U -> bool, start: Square): Option<Square>
    requires Valid(g) && OnBoard(g, start)
  {
    NearestScan(g, occupancy, isType, [start], {})
  }

  /** `found` is the square on which a search from `start` that ignores
      terrain finds its unit of the type: a square holding one at the end
      of a walk from `start` no shorter walk of which meets one; none when
      no walk from `start` meets one. */
  ghost predicate NearestAt<U>(g: Grid<U>, occupancy: map<Square, seq<U>>, isType: U -> bool,
                               start: Square, found: Option<Square>)
  {
    match found
    case None => forall p :: UnitOn(occupancy, isType, FollowPath(g, start, p)).None?
    case Some(at) =>
      UnitOn(occupancy, isType, at).Some? &&
      exists p :: FollowPath(g, start, p) == at &&
        forall q :: |q| < |p| ==> UnitOn(occupancy, isType, FollowPath(g, start, q)).None?
  }

  /** From a state of the loop invariant, the scan answers a nearest square. */
  lemma {:induction false} NearestScanSound<U>(g: Grid<U>, occupancy: map<Square, seq<U>>, isType: U -> bool, start: Square,
                                               toDo: seq<Square>, dist: map<Square, nat>, visited: set<Square>)
    requires Valid(g) && NearestInv(g, occupancy, isType, start, toDo, dist, visited)
    ensures NearestAt(g, occupancy, isType, start, NearestScan(g, occupancy, isType, toDo, visited))
    decreases |AllSquares(g) - visited|
  {
    if toDo == [] {
      NearestAtNone(g, occupancy, isType, start, dist, visited);
    } else if UnitOn(occupancy, isType, toDo[0]).Some? {
      NearestAtFound(g, occupancy, isType, start, toDo, dist, visited);
    } else {
      var s := toDo[0];
      var toDo' := Enqueue(g, visited + {s}, toDo[1..], s, Values());
      var dist' := NextLabels(dist, toDo[1..], toDo', Label(dist, s) + 1);
      NearestStepTo(g, occupancy, isType, start, toDo, dist, visited, toDo', dist');
      VisitShrinks(AllSquares(g), visited, s);
      NearestScanSound(g, occupancy, isType, start, toDo', dist', visited + {s});
      assert NearestScan(g, occupancy, isType, toDo, visited) == NearestScan(g, occupancy, isType, toDo', visited + {s});
    }
  }

  /** An exhausted work list answers none, and rightly. */
  lemma NearestAtNone<U>(g: Grid<U>, occupancy: map<Square, seq<U>>, isType: U -> bool, start: Square,
                         dist: map<Square, nat>, visited: set<Square>)
    requires Valid(g) && NearestInv(g, occupancy, isType, start, [], dist, visited)
    ensures NearestAt(g, occupancy, isType, start, NearestScan(g, occupancy, isType, [], visited))
  {
    NearestNone(g, occupancy, isType, start, dist, visited);
  }

  /** A front square holding a unit of the type is the answer, and a nearest one. */
  lemma NearestAtFound<U>(g: Grid<U>, occupancy: map<Square, seq<U>>, isType: U -> bool, start: Square,
                          toDo: seq<Square>, dist: map<Square, nat>, visited: set<Square>)
    requires Valid(g) && NearestInv(g, occupancy, isType, start, toDo, dist, visited)
    requires toDo != [] && UnitOn(occupancy, isType, toDo[0]).Some?
    ensures NearestAt(g, occupancy, isType, start, NearestScan(g, occupancy, isType, toDo, visited))
  {
    NearestFound(g, occupancy, isType, start, toDo, dist, visited);
    assert NearestScan(g, occupancy, isType, toDo, visited) == Some(toDo[0]);
  }

  /** The square `findNearest` finds is a nearest one, on the board; there
      is none exactly when no walk from `start` meets a unit of the type. */
  lemma NearestSquareSpec<U>(g: Grid<U>, occupancy: map<Square, seq<U>>, isType: U -> bool, start: Square)
    requires Valid(g) && OnBoard(g, start)
    ensures NearestAt(g, occupancy, isType, start, NearestSquare(g, occupancy, isType, start))
    ensures NearestSquare(g, occupancy, isType, start).Some? ==> OnBoard(g, NearestSquare(g, occupancy, isType, start).value)
    ensures NearestSquare(g, occupancy, isType, start).None? ==>
      forall p :: UnitOn(occupancy, isType, FollowPath(g, start, p)).None?
    ensures (forall p :: UnitOn(occupancy, isType, FollowPath(g, start, p)).None?) ==>
      NearestSquare(g, occupancy, isType, start).None?
  {
    NearestInit(g, occupancy, isType, start);
    NearestScanSound(g, occupancy, isType, start, [start], map[start := 0], {});
    var r := NearestSquare(g, occupancy, isType, start);
    if r.Some? {
      var p :| FollowPath(g, start, p) == r.value &&
        forall q :: |q| < |p| ==> UnitOn(occupancy, isType, FollowPath(g, start, q)).None?;
      FollowPathOnBoard(g, start, p);
      assert UnitOn(occupancy, isType, FollowPath(g, start, p)).Some?;
      assert !forall p :: UnitOn(occupancy, isType, FollowPath(g, start, p)).None?;
    } else {
      assert NearestAt(g, occupancy, isType, start, None);
    }
  }

  /** `findNearest`: a breadth-first search from `start` that ignores
      terrain. It dequeues the squares in order, answers the first unit of
      the type on the first square that holds one, and queues the
      neighbours of every other square in `Direction.values()` order,
      skipping the visited and the queued ones: the square `at` is
      `NearestSquare`, and there is no answer exactly when it is none.
      `at` is the square the caller reads back with `getSquare()` on the
      answer. */
  method FindNearest<U>(g: Grid<U>, occupancy: map<Square, seq<U>>, isType: U -> bool, start: Square)
    returns (r: Option<U>, at: Square)
    requires Valid(g) && OnBoard(g, start)
    ensures r.None? <==> NearestSquare(g, occupancy, isType, start).None?
    ensures r.Some? ==> NearestSquare(g, occupancy, isType, start) == Some(at) && UnitOn(occupancy, isType, at) == r
  {
    var toDo := [start];
    var visited: set<Square> := {};
    while toDo != []
      invariant NearestFresh(g, toDo, visited) && visited <= AllSquares(g)
      invariant NearestScan(g, occupancy, isType, toDo, visited) == NearestSquare(g, occupancy, isType, start)
      decreases |AllSquares(g) - visited|
    {
      var square := toDo[0];
      var unit := FindUnit(isType, Occupants(occupancy, square));
      if unit.Some? {
        return unit, square;
      }
      NearestStepFresh(g, toDo, visited);
      VisitShrinks(AllSquares(g), visited, square);
      visited := visited + {square};
      toDo := EnqueueNeighbours(g, visited, toDo[1..], square);
    }
    return None, start;
  }
}
