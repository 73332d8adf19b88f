/** The board as the game engine sees it: squares on a finite grid, a total
    neighbour link per direction, a terrain rule saying which squares a
    unit may enter, and the ordered occupant list of every square. */
module Boards {
  import opened Wrappers
  import opened Directions

  datatype Square = Square(x: int, y: int)

  /** `width` and `height` bound the squares; `neighbour` is the board's
      `getSquareAt` link (total, so the search never meets a missing
      square); `accessible` is `Square.isAccessibleTo` for a unit of type U. */
  datatype Grid<!U> = Grid(width: nat, height: nat,
                          neighbour: (Square, Direction) -> Square,
                          accessible: (Square, U) -> bool)

  predicate OnBoard<U>(g: Grid<U>, s: Square) {
    0 <= s.x < g.width && 0 <= s.y < g.height
  }

  /** `square.getSquareAt(d)`. */
  function Step<U>(g: Grid<U>, s: Square, d: Direction): Square {
    g.neighbour(s, d)
  }

  /** The neighbour of a board square is a board square. */
  ghost predicate Valid<U>(g: Grid<U>) {
    forall s, d :: OnBoard(g, s) ==> OnBoard(g, Step(g, s, d))
  }

  function AllSquares<U>(g: Grid<U>): (all: set<Square>)
    ensures forall s :: s in all <==> OnBoard(g, s)
  {
    set x, y | 0 <= x < g.width && 0 <= y < g.height :: Square(x, y)
  }

  /** A traveller may enter a square: no traveller means terrain is ignored. */
  predicate Enterable<U>(g: Grid<U>, traveller: Option<U>, s: Square) {
    traveller.None? || g.accessible(s, traveller.value)
  }

  /** The square reached by taking the steps of `path` one after the other
      from `s` (the fold of `Inky.followPath`). */
  function FollowPath<U>(g: Grid<U>, s: Square, path: seq<Direction>): Square
    decreases |path|
  {
    if path == [] then s
    else Step(g, FollowPath(g, s, path[..|path| - 1]), path[|path| - 1])
  }

  /** Every square entered along `path` from `s` may be entered by the traveller. */
  predicate PathEnterable<U>(g: Grid<U>, traveller: Option<U>, s: Square, path: seq<Direction>)
    decreases |path|
  {
    path == [] ||
    (PathEnterable(g, traveller, s, path[..|path| - 1]) &&
     Enterable(g, traveller, FollowPath(g, s, path)))
  }

  /** Some path the traveller may take leads from `from` to `to`. */
  ghost predicate Reachable<U>(g: Grid<U>, traveller: Option<U>, from: Square, to: Square) {
    exists path :: PathEnterable(g, traveller, from, path) && FollowPath(g, from, path) == to
  }

  lemma {:induction false} FollowPathAppend<U>(g: Grid<U>, s: Square, a: seq<Direction>, b: seq<Direction>)
    ensures FollowPath(g, s, a + b) == FollowPath(g, FollowPath(g, s, a), b)
    decreases |b|
  {
    if b == [] {
      assert a + b == a;
    } else {
      var last := |b| - 1;
      assert (a + b)[..|a + b| - 1] == a + b[..last];
      FollowPathAppend(g, s, a, b[..last]);
    }
  }

  /** Walking from a board square stays on the board. */
  lemma {:induction false} FollowPathOnBoard<U>(g: Grid<U>, s: Square, path: seq<Direction>)
    requires Valid(g) && OnBoard(g, s)
    ensures OnBoard(g, FollowPath(g, s, path))
    decreases |path|
  {
    if path != [] {
      FollowPathOnBoard(g, s, path[..|path| - 1]);
    }
  }

  /** A path the traveller may take, with one more step it may take. */
  lemma ExtendPath<U>(g: Grid<U>, traveller: Option<U>, s: Square, path: seq<Direction>, d: Direction)
    requires PathEnterable(g, traveller, s, path)
    requires Enterable(g, traveller, Step(g, FollowPath(g, s, path), d))
    ensures FollowPath(g, s, path + [d]) == Step(g, FollowPath(g, s, path), d)
    ensures PathEnterable(g, traveller, s, path + [d])
  {
    assert (path + [d])[..|path|] == path;
  }

  /** The occupant list of a square; a square the map does not mention is empty. */
  function Occupants<U>(occupancy: map<Square, seq<U>>, s: Square): seq<U> {
    if s in occupancy then occupancy[s] else []
  }

  /** The position of a direction in `Direction.values()`. */
  function Ordinal(d: Direction): (i: nat)
    ensures i < |Values()| && Values()[i] == d
  {
    match d
    case North => 0
    case South => 1
    case West => 2
    case East => 3
  }

  /** The directions of `ds`, in their order, whose neighbour square `u` may enter. */
  function AccessibleAmong<U>(g: Grid<U>, s: Square, u: U, ds: seq<Direction>): seq<Direction>
  {
    if ds == [] then []
    else
      var rest := AccessibleAmong(g, s, u, ds[1..]);
      if g.accessible(Step(g, s, ds[0]), u) then [ds[0]] + rest else rest
  }

  /** Filtering a list with one more direction at its end: the loop of
      `randomMove` and `getPossibleDirections` adds the directions in
      turn. */
  lemma {:induction false} AccessibleAmongSnoc<U>(g: Grid<U>, s: Square, u: U, ds: seq<Direction>, d: Direction)
    ensures AccessibleAmong(g, s, u, ds + [d]) ==
            AccessibleAmong(g, s, u, ds) + (if g.accessible(Step(g, s, d), u) then [d] else [])
  {
    if ds == [] {
      assert ds + [d] == [d];
      assert [d][1..] == [];
    } else {
      assert (ds + [d])[1..] == ds[1..] + [d];
      AccessibleAmongSnoc(g, s, u, ds[1..], d);
    }
  }

  /** The accessible neighbour directions of `s` for `u`, in enumeration
      order: the candidate list of `Ghost.randomMove` and
      `PacManAI.getPossibleDirections`. */
  function AccessibleDirections<U>(g: Grid<U>, s: Square, u: U): seq<Direction> {
    AccessibleAmong(g, s, u, Values())
  }

  lemma {:induction false} AccessibleAmongSpec<U>(g: Grid<U>, s: Square, u: U, ds: seq<Direction>)
    ensures forall d :: d in AccessibleAmong(g, s, u, ds) <==> d in ds && g.accessible(Step(g, s, d), u)
    ensures |AccessibleAmong(g, s, u, ds)| <= |ds|
  {
    if ds != [] {
      AccessibleAmongSpec(g, s, u, ds[1..]);
    }
  }

  /** Filtering keeps enumeration order. */
  lemma {:induction false} AccessibleAmongOrdered<U>(g: Grid<U>, s: Square, u: U, ds: seq<Direction>)
    requires forall i, j :: 0 <= i < j < |ds| ==> Ordinal(ds[i]) < Ordinal(ds[j])
    ensures forall i, j :: 0 <= i < j < |AccessibleAmong(g, s, u, ds)| ==>
      Ordinal(AccessibleAmong(g, s, u, ds)[i]) < Ordinal(AccessibleAmong(g, s, u, ds)[j])
  {
    if ds != [] {
      var rest := AccessibleAmong(g, s, u, ds[1..]);
      AccessibleAmongOrdered(g, s, u, ds[1..]);
      AccessibleAmongSpec(g, s, u, ds[1..]);
      if g.accessible(Step(g, s, ds[0]), u) {
        var r := [ds[0]] + rest;
        forall j | 0 < j < |r| ensures Ordinal(r[0]) < Ordinal(r[j]) {
          assert r[j] in ds[1..];
        }
      }
    }
  }

  /** `getPossibleDirections` / the candidates of `randomMove`: exactly the
      directions whose neighbour `u` may enter, each once, in the order of
      `Direction.values()`. */
  lemma AccessibleDirectionsSpec<U>(g: Grid<U>, s: Square, u: U)
    ensures forall d :: d in AccessibleDirections(g, s, u) <==> g.accessible(Step(g, s, d), u)
    ensures forall i, j :: 0 <= i < j < |AccessibleDirections(g, s, u)| ==>
      Ordinal(AccessibleDirections(g, s, u)[i]) < Ordinal(AccessibleDirections(g, s, u)[j])
  {
    var ds := Values();
    AccessibleAmongSpec(g, s, u, ds);
    AccessibleAmongOrdered(g, s, u, ds);
    forall d ensures d in ds { ValuesComplete(d); }
  }
}
