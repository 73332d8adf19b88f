/** The helpers of the scripted player (strategies/PacManAI.java): the
    intersection test, the possible directions, the nearest alive ghost,
    the walk to the next intersection, the filters over candidate paths,
    the flight from the nearest ghost and the choice that maximises points.
    A Java `HashMap` is a `map` here; where its iteration order matters the
    caller passes that order. */
module PacManAI {
  import opened Wrappers
  import opened Directions
  import opened Boards
  import opened Navigation
  import opened Units
  import opened GhostAI
  import opened Lists

  // ----------------------------------------------------------------------
  // isIntersection and getPossibleDirections
  // ----------------------------------------------------------------------

  /** `isIntersection(player, square, direction)`: the unit may enter the
      neighbour on its clockwise or on its counter-clockwise side. */
  predicate IsIntersection(g: Grid<Unit>, u: Unit, s: Square, d: Direction) {
    g.accessible(Step(g, s, Clockwise(d)), u) || g.accessible(Step(g, s, OppositeClockwise(d)), u)
  }

  /** The two quarter turns are exactly the directions other than straight
      on and back. */
  lemma Sideways(d: Direction, e: Direction)
    ensures e != d && e != Opposite(d) <==> e == Clockwise(d) || e == OppositeClockwise(d)
  {
  }

  /** A unit heading `d` is at an intersection exactly when it may turn:
      some open direction is neither straight on nor back. Away from an
      intersection the only open directions are straight on and back. */
  lemma IntersectionSpec(g: Grid<Unit>, u: Unit, s: Square, d: Direction)
    ensures IsIntersection(g, u, s, d) <==>
      exists e :: e in AccessibleDirections(g, s, u) && e != d && e != Opposite(d)
    ensures !IsIntersection(g, u, s, d) ==>
      forall e :: e in AccessibleDirections(g, s, u) ==> e == d || e == Opposite(d)
  {
    AccessibleDirectionsSpec(g, s, u);
    Sideways(d, Clockwise(d));
    Sideways(d, OppositeClockwise(d));
    forall e | e in AccessibleDirections(g, s, u)
      ensures e != d && e != Opposite(d) <==> e == Clockwise(d) || e == OppositeClockwise(d)
    {
      Sideways(d, e);
    }
  }

  /** `getPossibleDirections(player)`: the directions of `values()`, in
      order, whose neighbour square the player may enter. */
  method PossibleDirections(g: Grid<Unit>, p: Player) returns (ds: seq<Direction>)
    requires p.square.Some?
    ensures ds == AccessibleDirections(g, p.square.value, PlayerUnit(p))
  {
    var square := p.square.value;
    ds := [];
    var values := Values();
    for i := 0 to |values|
      invariant ds == AccessibleAmong(g, square, PlayerUnit(p), values[..i])
    {
      AccessibleAmongSnoc(g, square, PlayerUnit(p), values[..i], values[i]);
      assert values[..i + 1] == values[..i] + [values[i]];
      if g.accessible(Step(g, square, values[i]), PlayerUnit(p)) {
        ds := ds + [values[i]];
      }
    }
    assert values[..|values|] == values;
  }

  // ----------------------------------------------------------------------
  // findNearestGhost
  // ----------------------------------------------------------------------

  /** The unit a square answers to `findUnit(Ghost.class, square)` is an
      alive ghost. */
  predicate LiveGhost(u: Option<Unit>)
    reads if u.Some? && u.value.GhostUnit? then {u.value.npc} else {}
  {
    u.Some? && u.value.GhostUnit? && u.value.npc.alive
  }

  /** In the occupancy that keeps, on each square, only its first ghost
      and only when that ghost is alive, a square answers its first ghost
      exactly when it is alive. */
  lemma LiveOnlyAt(occupancy: map<Square, seq<Unit>>, live: map<Square, seq<Unit>>, s: Square)
    requires s in live <==> s in occupancy
    requires s in occupancy ==>
      live[s] == if LiveGhost(FirstOfType(IsGhost, occupancy[s])) then [FirstOfType(IsGhost, occupancy[s]).value] else []
    ensures UnitOn(live, IsGhost, s) ==
      if LiveGhost(UnitOn(occupancy, IsGhost, s)) then UnitOn(occupancy, IsGhost, s) else None
  {
    if s in occupancy && LiveGhost(UnitOn(occupancy, IsGhost, s)) {
      var u := UnitOn(occupancy, IsGhost, s).value;
      assert Occupants(live, s) == [u];
      assert FirstOfType(IsGhost, [u]) == Some(u);
    }
  }

  /** Every square answers in `live` its first ghost in `occupancy` when
      that ghost is alive, and nothing otherwise. */
  ghost predicate LiveView(occupancy: map<Square, seq<Unit>>, live: map<Square, seq<Unit>>)
    reads *
  {
    forall s ::
      UnitOn(live, IsGhost, s) == if LiveGhost(UnitOn(occupancy, IsGhost, s)) then UnitOn(occupancy, IsGhost, s) else None
  }

  /** No square along any path answers a ghost in `live`, so none answers
      a live ghost in `occupancy`. */
  lemma NoLiveGhost(g: Grid<Unit>, occupancy: map<Square, seq<Unit>>, live: map<Square, seq<Unit>>, start: Square)
    requires LiveView(occupancy, live)
    requires forall p :: UnitOn(live, IsGhost, FollowPath(g, start, p)).None?
    ensures forall p :: !LiveGhost(UnitOn(occupancy, IsGhost, FollowPath(g, start, p)))
  {
    forall p ensures !LiveGhost(UnitOn(occupancy, IsGhost, FollowPath(g, start, p))) {
      assert UnitOn(live, IsGhost, FollowPath(g, start, p)).None?;
    }
  }

  /** The occupancy `findNearestGhost` searches in effect: each square keeps
      only its first ghost, and only when that ghost is alive. */
  ghost function LiveOccupancy(occupancy: map<Square, seq<Unit>>): map<Square, seq<Unit>>
    reads *
  {
    map s | s in occupancy ::
      if LiveGhost(FirstOfType(IsGhost, occupancy[s])) then [FirstOfType(IsGhost, occupancy[s]).value] else []
  }

  /** The square on which `findNearestGhost(start)` finds its ghost. */
  ghost function NearestGhostSquare(g: Grid<Unit>, occupancy: map<Square, seq<Unit>>, start: Square): Option<Square>
    reads *
    requires Valid(g) && OnBoard(g, start)
  {
    NearestSquare(g, LiveOccupancy(occupancy), IsGhost, start)
  }

  /** Builds `LiveOccupancy`: on every square the first ghost is kept
      exactly when it is alive. */
  method LiveGhostsOnly(occupancy: map<Square, seq<Unit>>) returns (live: map<Square, seq<Unit>>)
    ensures live == LiveOccupancy(occupancy)
    ensures live.Keys == occupancy.Keys && LiveView(occupancy, live)
  {
    live := map s | s in occupancy ::
      if LiveGhost(FirstOfType(IsGhost, occupancy[s])) then [FirstOfType(IsGhost, occupancy[s]).value] else [];
    forall s ensures UnitOn(live, IsGhost, s) ==
      if LiveGhost(UnitOn(occupancy, IsGhost, s)) then UnitOn(occupancy, IsGhost, s) else None
    {
      LiveOnlyAt(occupancy, live, s);
    }
  }

  /** A live ghost the search over the live ghosts finds at the end of `p`
      is the first live ghost along the way in the full occupancy. */
  lemma GhostFoundAt(g: Grid<Unit>, occupancy: map<Square, seq<Unit>>, live: map<Square, seq<Unit>>,
                     start: Square, p: seq<Direction>)
    requires Valid(g) && OnBoard(g, start)
    requires LiveView(occupancy, live)
    requires UnitOn(live, IsGhost, FollowPath(g, start, p)).Some?
    requires forall q :: |q| < |p| ==> UnitOn(live, IsGhost, FollowPath(g, start, q)).None?
    ensures var at := FollowPath(g, start, p);
      UnitOn(occupancy, IsGhost, at) == UnitOn(live, IsGhost, at) && LiveGhost(UnitOn(occupancy, IsGhost, at)) &&
      OnBoard(g, at)
    ensures forall q :: |q| < |p| ==> !LiveGhost(UnitOn(occupancy, IsGhost, FollowPath(g, start, q)))
  {
    FollowPathOnBoard(g, start, p);
    forall q | |q| < |p| ensures !LiveGhost(UnitOn(occupancy, IsGhost, FollowPath(g, start, q))) {
      assert UnitOn(live, IsGhost, FollowPath(g, start, q)).None?;
    }
  }

  /** `findNearestGhost(square)`: the search of `findNearest` from `start`,
      ignoring terrain, that stops at the first square whose first ghost
      is alive; a square whose first ghost is dead is passed over even
      when an alive ghost stands behind it. `at` is the square of the
      ghost found. */
  method FindNearestGhost(g: Grid<Unit>, occupancy: map<Square, seq<Unit>>, start: Square)
    returns (r: Option<Ghost>, at: Square)
    requires Valid(g) && OnBoard(g, start)
    ensures r.Some? ==> UnitOn(occupancy, IsGhost, at) == Some(GhostUnit(r.value)) && r.value.alive && OnBoard(g, at)
    ensures r.Some? ==>
      exists p :: FollowPath(g, start, p) == at &&
        forall q :: |q| < |p| ==> !LiveGhost(UnitOn(occupancy, IsGhost, FollowPath(g, start, q)))
    ensures r.None? <==> forall p :: !LiveGhost(UnitOn(occupancy, IsGhost, FollowPath(g, start, p)))
    ensures r.None? <==> NearestGhostSquare(g, occupancy, start).None?
    ensures r.Some? ==> NearestGhostSquare(g, occupancy, start) == Some(at)
  {
    var live := LiveGhostsOnly(occupancy);
    var unit, square := FindNearest(g, live, IsGhost, start);
    NearestSquareSpec(g, live, IsGhost, start);
    if unit.None? {
      NoLiveGhost(g, occupancy, live, start);
      return None, start;
    }
    ghost var p :| FollowPath(g, start, p) == square &&
      forall q :: |q| < |p| ==> UnitOn(live, IsGhost, FollowPath(g, start, q)).None?;
    GhostFoundAt(g, occupancy, live, start, p);
    return Some(unit.value.npc), square;
  }

  // ----------------------------------------------------------------------
  // findNextIntersection
  // ----------------------------------------------------------------------

  /** The square `k` steps in direction `d` from `s`. */
  function Walk(g: Grid<Unit>, s: Square, d: Direction, k: nat): Square {
    if k == 0 then s else Step(g, Walk(g, s, d, k - 1), d)
  }

  /** The number of steps the walk of `findNextIntersection` takes from
      its `k`-th square on, given `fuel` steps at most. */
  function Seek(g: Grid<Unit>, u: Unit, from: Square, d: Direction, k: nat, fuel: nat): Result<nat>
    decreases fuel - k
  {
    if IsIntersection(g, u, Walk(g, from, d, k), d) then Ok(k)
    else if k >= fuel then Err(Diverges)
    else Seek(g, u, from, d, k + 1, fuel)
  }

  /** `findNextIntersection(player, from, direction)`: the first square of
      the straight walk from `from` that is an intersection. The source
      loops for ever when there is none; since the walk can only repeat
      itself once it has met as many squares as the board holds, a walk
      that finds none among them is `Err(Diverges)`. */
  function NextIntersection(g: Grid<Unit>, u: Unit, from: Square, d: Direction): Result<Square> {
    match Seek(g, u, from, d, 0, |AllSquares(g)|)
    case Ok(k) => Ok(Walk(g, from, d, k))
    case Err(e) => Err(e)
  }

  lemma {:induction false} SeekSpec(g: Grid<Unit>, u: Unit, from: Square, d: Direction, k: nat, fuel: nat)
    requires k <= fuel
    ensures Seek(g, u, from, d, k, fuel).Ok? ==>
      var j := Seek(g, u, from, d, k, fuel).value;
      k <= j <= fuel && IsIntersection(g, u, Walk(g, from, d, j), d) &&
      forall i :: k <= i < j ==> !IsIntersection(g, u, Walk(g, from, d, i), d)
    ensures Seek(g, u, from, d, k, fuel).Err? ==>
      Seek(g, u, from, d, k, fuel) == Err(Diverges) &&
      forall i :: k <= i <= fuel ==> !IsIntersection(g, u, Walk(g, from, d, i), d)
    decreases fuel - k
  {
    if !IsIntersection(g, u, Walk(g, from, d, k), d) && k < fuel {
      SeekSpec(g, u, from, d, k + 1, fuel);
    }
  }

  lemma {:induction false} WalkOnBoard(g: Grid<Unit>, s: Square, d: Direction, k: nat)
    requires Valid(g) && OnBoard(g, s)
    ensures OnBoard(g, Walk(g, s, d, k))
  {
    if k > 0 {
      WalkOnBoard(g, s, d, k - 1);
    }
  }

  /** A set holding `n + 1` distinct squares of a walk has at least
      `n + 1` elements. */
  lemma {:induction false} WalkFills(g: Grid<Unit>, s: Square, d: Direction, n: nat, squares: set<Square>)
    requires forall i :: 0 <= i <= n ==> Walk(g, s, d, i) in squares
    requires forall i, j :: 0 <= i < j <= n ==> Walk(g, s, d, i) != Walk(g, s, d, j)
    ensures |squares| >= n + 1
  {
    if n == 0 {
      assert Walk(g, s, d, 0) in squares;
    } else {
      WalkFills(g, s, d, n - 1, squares - {Walk(g, s, d, n)});
    }
  }

  /** Among the first |board| + 1 squares of a walk on the board, some
      square comes twice. */
  lemma WalkRepeats(g: Grid<Unit>, s: Square, d: Direction)
    requires Valid(g) && OnBoard(g, s)
    ensures exists i, j :: 0 <= i < j <= |AllSquares(g)| && Walk(g, s, d, i) == Walk(g, s, d, j)
  {
    var n := |AllSquares(g)|;
    if forall i, j :: 0 <= i < j <= n ==> Walk(g, s, d, i) != Walk(g, s, d, j) {
      forall i | 0 <= i <= n ensures Walk(g, s, d, i) in AllSquares(g) {
        WalkOnBoard(g, s, d, i);
      }
      WalkFills(g, s, d, n, AllSquares(g));
      assert false;
    }
  }

  lemma {:induction false} WalkShift(g: Grid<Unit>, s: Square, d: Direction, i: nat, j: nat, m: nat)
    requires Walk(g, s, d, i) == Walk(g, s, d, j)
    ensures Walk(g, s, d, i + m) == Walk(g, s, d, j + m)
  {
    if m > 0 {
      WalkShift(g, s, d, i, j, m - 1);
    }
  }

  /** Once a walk repeats a square it goes round the same cycle: every
      later square is one met before the repeat. */
  lemma {:induction false} WalkCycles(g: Grid<Unit>, s: Square, d: Direction, i: nat, j: nat, k: nat)
    requires i < j && Walk(g, s, d, i) == Walk(g, s, d, j)
    ensures exists k' :: 0 <= k' < j && Walk(g, s, d, k') == Walk(g, s, d, k)
    decreases k
  {
    if k >= j {
      WalkShift(g, s, d, i, j, k - j);
      assert i + (k - j) == k - (j - i);
      WalkCycles(g, s, d, i, j, k - (j - i));
    } else {
      assert Walk(g, s, d, k) == Walk(g, s, d, k);
    }
  }

  /** The walk ends on the first intersection it meets, and it diverges
      exactly when it never meets one. */
  lemma NextIntersectionSpec(g: Grid<Unit>, u: Unit, from: Square, d: Direction)
    requires Valid(g) && OnBoard(g, from)
    ensures NextIntersection(g, u, from, d).Err? <==>
      forall k :: !IsIntersection(g, u, Walk(g, from, d, k), d)
    ensures NextIntersection(g, u, from, d).Err? ==> NextIntersection(g, u, from, d) == Err(Diverges)
    ensures NextIntersection(g, u, from, d).Ok? ==>
      OnBoard(g, NextIntersection(g, u, from, d).value) &&
      exists k: nat :: NextIntersection(g, u, from, d).value == Walk(g, from, d, k) &&
        IsIntersection(g, u, Walk(g, from, d, k), d) &&
        forall j :: 0 <= j < k ==> !IsIntersection(g, u, Walk(g, from, d, j), d)
  {
    var n := |AllSquares(g)|;
    SeekSpec(g, u, from, d, 0, n);
    var r := Seek(g, u, from, d, 0, n);
    if r.Ok? {
      WalkOnBoard(g, from, d, r.value);
      assert NextIntersection(g, u, from, d) == Ok(Walk(g, from, d, r.value));
      assert IsIntersection(g, u, Walk(g, from, d, r.value), d);
    } else {
      WalkRepeats(g, from, d);
      var i, j :| 0 <= i < j <= n && Walk(g, from, d, i) == Walk(g, from, d, j);
      forall k ensures !IsIntersection(g, u, Walk(g, from, d, k), d) {
        WalkCycles(g, from, d, i, j, k);
      }
    }
  }

  /** The loop of `findNextIntersection`. */
  method FindNextIntersection(g: Grid<Unit>, u: Unit, from: Square, d: Direction) returns (r: Result<Square>)
    ensures r == NextIntersection(g, u, from, d)
  {
    var fuel := |AllSquares(g)|;
    var square := from;
    var k := 0;
    while !IsIntersection(g, u, square, d)
      invariant k <= fuel && square == Walk(g, from, d, k)
      invariant Seek(g, u, from, d, k, fuel) == Seek(g, u, from, d, 0, fuel)
      decreases fuel - k
    {
      if k == fuel {
        return Err(Diverges);
      }
      square := Step(g, square, d);
      k := k + 1;
    }
    return Ok(square);
  }

  // ----------------------------------------------------------------------
  // getPathToNextIntersections
  // ----------------------------------------------------------------------

  /** The next intersection ahead in each direction of `ds`, in order,
      each walk starting on the neighbour of `s` in its direction; the
      first walk that never ends makes the whole list `Err(Diverges)`. */
  function IntersectionsAhead(g: Grid<Unit>, u: Unit, s: Square, ds: seq<Direction>): Result<seq<Square>>
    decreases |ds|
  {
    if ds == [] then Ok([])
    else
      match IntersectionsAhead(g, u, s, ds[..|ds| - 1])
      case Err(e) => Err(e)
      case Ok(ts) =>
        var d := ds[|ds| - 1];
        match NextIntersection(g, u, Step(g, s, d), d)
        case Err(e) => Err(e)
        case Ok(t) => Ok(ts + [t])
  }

  /** The list holds, in order, the intersection ahead in each direction;
      it is missing exactly when one of the walks never ends. */
  lemma {:induction false} IntersectionsAheadSpec(g: Grid<Unit>, u: Unit, s: Square, ds: seq<Direction>)
    ensures IntersectionsAhead(g, u, s, ds).Ok? ==>
      |IntersectionsAhead(g, u, s, ds).value| == |ds| &&
      forall i :: 0 <= i < |ds| ==>
        NextIntersection(g, u, Step(g, s, ds[i]), ds[i]) == Ok(IntersectionsAhead(g, u, s, ds).value[i])
    ensures IntersectionsAhead(g, u, s, ds).Err? <==>
      exists i :: 0 <= i < |ds| && NextIntersection(g, u, Step(g, s, ds[i]), ds[i]).Err?
    ensures IntersectionsAhead(g, u, s, ds).Err? ==> IntersectionsAhead(g, u, s, ds) == Err(Diverges)
    decreases |ds|
  {
    if ds != [] {
      var init := ds[..|ds| - 1];
      var d := ds[|ds| - 1];
      IntersectionsAheadSpec(g, u, s, init);
      assert forall i :: 0 <= i < |init| ==> init[i] == ds[i];
      var walk := NextIntersection(g, u, Step(g, s, d), d);
      if walk.Err? {
        NextIntersectionErr(g, u, Step(g, s, d), d);
      }
      if IntersectionsAhead(g, u, s, init).Err? {
        var i :| 0 <= i < |init| && NextIntersection(g, u, Step(g, s, init[i]), init[i]).Err?;
        assert NextIntersection(g, u, Step(g, s, ds[i]), ds[i]).Err?;
      }
    }
  }

  /** A walk that fails never ends. */
  lemma NextIntersectionErr(g: Grid<Unit>, u: Unit, from: Square, d: Direction)
    ensures NextIntersection(g, u, from, d).Err? ==> NextIntersection(g, u, from, d) == Err(Diverges)
  {
    SeekSpec(g, u, from, d, 0, |AllSquares(g)|);
  }

  /** The second loop of `getPathToNextIntersections`: for each target in
      order, the player's shortest path to it, kept under the target when
      it is not empty and its first step is a possible direction. A
      target the player cannot reach has no path (`null`) and asking its
      size throws. */
  function PathsTo(g: Grid<Unit>, u: Unit, s: Square, targets: seq<Square>, possible: seq<Direction>)
    : Result<map<Square, seq<Direction>>>
    requires Valid(g) && OnBoard(g, s)
    decreases |targets|
  {
    if targets == [] then Ok(map[])
    else
      match PathsTo(g, u, s, targets[..|targets| - 1], possible)
      case Err(e) => Err(e)
      case Ok(m) =>
        var t := targets[|targets| - 1];
        match BfsPath(g, s, t, Some(u))
        case None => Err(NullPointer)
        case Some(path) => if path != [] && path[0] in possible then Ok(m[t := path]) else Ok(m)
  }

  /** A target is kept exactly when the player's shortest path to it is
      not empty and starts with a possible direction, and it is kept with
      that path; the result is missing exactly when some target cannot be
      reached. */
  lemma {:induction false} PathsToSpec(g: Grid<Unit>, u: Unit, s: Square, targets: seq<Square>, possible: seq<Direction>)
    requires Valid(g) && OnBoard(g, s)
    ensures PathsTo(g, u, s, targets, possible).Ok? ==>
      var m := PathsTo(g, u, s, targets, possible).value;
      (forall t :: t in m ==> t in targets && BfsPath(g, s, t, Some(u)) == Some(m[t])) &&
      forall t :: t in targets ==>
        BfsPath(g, s, t, Some(u)).Some? &&
        (t in m <==> BfsPath(g, s, t, Some(u)).value != [] && BfsPath(g, s, t, Some(u)).value[0] in possible)
    ensures PathsTo(g, u, s, targets, possible).Err? <==> exists t :: t in targets && BfsPath(g, s, t, Some(u)).None?
    ensures PathsTo(g, u, s, targets, possible).Err? ==> PathsTo(g, u, s, targets, possible) == Err(NullPointer)
    decreases |targets|
  {
    if targets != [] {
      var init := targets[..|targets| - 1];
      var t := targets[|targets| - 1];
      PathsToSpec(g, u, s, init, possible);
      assert forall x :: x in targets <==> x in init || x == t;
    }
  }

  /** `getPathToNextIntersections(player, possibleDirections)`: the walks to
      the intersections ahead, then the player's paths to them. */
  function NextIntersectionPaths(g: Grid<Unit>, u: Unit, s: Square, possible: seq<Direction>)
    : Result<map<Square, seq<Direction>>>
    requires Valid(g) && OnBoard(g, s)
  {
    match IntersectionsAhead(g, u, s, possible)
    case Err(e) => Err(e)
    case Ok(targets) => PathsTo(g, u, s, targets, possible)
  }

  /** Each kept path is a shortest path the player may take from its
      square to the intersection ahead in one of the possible directions,
      and its first step is a possible direction. The intersection ahead
      in a possible direction is kept exactly when that path is not empty
      and starts with a possible direction. A walk that never ends makes
      the answer `Err(Diverges)`; otherwise the answer is missing only
      when an intersection cannot be reached. */
  lemma NextIntersectionPathsSpec(g: Grid<Unit>, u: Unit, s: Square, possible: seq<Direction>)
    requires Valid(g) && OnBoard(g, s)
    ensures (exists i :: 0 <= i < |possible| && NextIntersection(g, u, Step(g, s, possible[i]), possible[i]).Err?) ==>
      NextIntersectionPaths(g, u, s, possible) == Err(Diverges)
    ensures NextIntersectionPaths(g, u, s, possible).Ok? ==>
      var m := NextIntersectionPaths(g, u, s, possible).value;
      forall t :: t in m ==>
        (exists i :: 0 <= i < |possible| && NextIntersection(g, u, Step(g, s, possible[i]), possible[i]) == Ok(t)) &&
        m[t] != [] && m[t][0] in possible &&
        FollowPath(g, s, m[t]) == t && PathEnterable(g, Some(u), s, m[t]) &&
        forall q :: PathEnterable(g, Some(u), s, q) && FollowPath(g, s, q) == t ==> |m[t]| <= |q|
    ensures NextIntersectionPaths(g, u, s, possible).Ok? ==>
      var m := NextIntersectionPaths(g, u, s, possible).value;
      forall i :: 0 <= i < |possible| ==>
        NextIntersection(g, u, Step(g, s, possible[i]), possible[i]).Ok? &&
        var t := NextIntersection(g, u, Step(g, s, possible[i]), possible[i]).value;
        BfsPath(g, s, t, Some(u)).Some? &&
        (t in m <==> BfsPath(g, s, t, Some(u)).value != [] && BfsPath(g, s, t, Some(u)).value[0] in possible)
    ensures NextIntersectionPaths(g, u, s, possible).Err? ==>
      NextIntersectionPaths(g, u, s, possible) == Err(Diverges) || NextIntersectionPaths(g, u, s, possible) == Err(NullPointer)
  {
    IntersectionsAheadSpec(g, u, s, possible);
    var ahead := IntersectionsAhead(g, u, s, possible);
    if ahead.Ok? {
      var targets := ahead.value;
      PathsToSpec(g, u, s, targets, possible);
      var r := PathsTo(g, u, s, targets, possible);
      if r.Ok? {
        var m := r.value;
        forall t | t in m
          ensures (exists i :: 0 <= i < |possible| && NextIntersection(g, u, Step(g, s, possible[i]), possible[i]) == Ok(t))
          ensures FollowPath(g, s, m[t]) == t && PathEnterable(g, Some(u), s, m[t])
          ensures forall q :: PathEnterable(g, Some(u), s, q) && FollowPath(g, s, q) == t ==> |m[t]| <= |q|
        {
          var i :| 0 <= i < |targets| && targets[i] == t;
          assert NextIntersection(g, u, Step(g, s, possible[i]), possible[i]) == Ok(t);
          BfsPathSound(g, s, t, Some(u));
          forall q | PathEnterable(g, Some(u), s, q) && FollowPath(g, s, q) == t ensures |m[t]| <= |q| {
            BfsPathMinimal(g, s, t, Some(u), q);
          }
        }
        forall i | 0 <= i < |possible|
          ensures NextIntersection(g, u, Step(g, s, possible[i]), possible[i]).Ok?
          ensures targets[i] == NextIntersection(g, u, Step(g, s, possible[i]), possible[i]).value
          ensures targets[i] in targets
        {
        }
      }
    }
  }

  /** The walk of `getPathToNextIntersections` over the possible
      directions, then its loop over the intersections found. */
  method PathsToNextIntersections(g: Grid<Unit>, p: Player, possible: seq<Direction>)
    returns (r: Result<map<Square, seq<Direction>>>)
    requires Valid(g) && p.square.Some? && OnBoard(g, p.square.value)
    ensures r == NextIntersectionPaths(g, PlayerUnit(p), p.square.value, possible)
  {
    var u := PlayerUnit(p);
    var s := p.square.value;
    var targets: seq<Square> := [];
    for i := 0 to |possible|
      invariant IntersectionsAhead(g, u, s, possible[..i]) == Ok(targets)
    {
      assert possible[..i + 1][..i] == possible[..i];
      var t := FindNextIntersection(g, u, Step(g, s, possible[i]), possible[i]);
      if t.Err? {
        assert IntersectionsAhead(g, u, s, possible[..i + 1]) == Err(t.error);
        IntersectionsPropagate(g, u, s, possible, i + 1);
        return Err(t.error);
      }
      targets := targets + [t.value];
    }
    assert possible[..|possible|] == possible;
    var paths: map<Square, seq<Direction>> := map[];
    for i := 0 to |targets|
      invariant PathsTo(g, u, s, targets[..i], possible) == Ok(paths)
    {
      assert targets[..i + 1][..i] == targets[..i];
      var path := ShortestPath(g, s, targets[i], Some(u));
      if path.None? {
        PathsPropagate(g, u, s, targets, possible, i + 1);
        return Err(NullPointer);
      }
      if |path.value| > 0 && path.value[0] in possible {
        paths := paths[targets[i] := path.value];
      }
    }
    assert targets[..|targets|] == targets;
    return Ok(paths);
  }

  /** A failure on a prefix of the directions is the failure of the whole. */
  lemma {:induction false} IntersectionsPropagate(g: Grid<Unit>, u: Unit, s: Square, ds: seq<Direction>, n: nat)
    requires n <= |ds| && IntersectionsAhead(g, u, s, ds[..n]).Err?
    ensures IntersectionsAhead(g, u, s, ds) == IntersectionsAhead(g, u, s, ds[..n])
    decreases |ds| - n
  {
    if n < |ds| {
      assert ds[..n + 1][..n] == ds[..n];
      IntersectionsPropagate(g, u, s, ds, n + 1);
    } else {
      assert ds[..n] == ds;
    }
  }

  /** A failure on a prefix of the targets is the failure of the whole. */
  lemma {:induction false} PathsPropagate(g: Grid<Unit>, u: Unit, s: Square, targets: seq<Square>, possible: seq<Direction>, n: nat)
    requires Valid(g) && OnBoard(g, s)
    requires n <= |targets| && PathsTo(g, u, s, targets[..n], possible).Err?
    ensures PathsTo(g, u, s, targets, possible) == PathsTo(g, u, s, targets[..n], possible)
    decreases |targets| - n
  {
    if n < |targets| {
      assert targets[..n + 1][..n] == targets[..n];
      PathsPropagate(g, u, s, targets, possible, n + 1);
    } else {
      assert targets[..n] == targets;
    }
  }

  // ----------------------------------------------------------------------
  // getUnBlockedPath and getSafePaths
  // ----------------------------------------------------------------------

  /** No square entered along `path` from `from` holds a ghost: the start
      itself is not looked at. */
  predicate Unblocked(g: Grid<Unit>, from: Square, path: seq<Direction>, ghostSquares: seq<Square>) {
    forall i :: 1 <= i <= |path| ==> FollowPath(g, from, path[..i]) !in ghostSquares
  }

  /** `noGhostInPath(from, directions, ghostSquares)`: walks the path and
      stops at the first square entered that holds a ghost. */
  method NoGhostInPath(g: Grid<Unit>, from: Square, directions: seq<Direction>, ghostSquares: seq<Square>)
    returns (clear: bool)
    ensures clear <==> Unblocked(g, from, directions, ghostSquares)
    ensures !clear ==> exists i :: 1 <= i <= |directions| && FollowPath(g, from, directions[..i]) in ghostSquares
  {
    var square := from;
    for i := 0 to |directions|
      invariant square == FollowPath(g, from, directions[..i])
      invariant forall j :: 1 <= j <= i ==> FollowPath(g, from, directions[..j]) !in ghostSquares
    {
      assert directions[..i + 1][..i] == directions[..i];
      square := Step(g, square, directions[i]);
      if square in ghostSquares {
        return false;
      }
    }
    return true;
  }

  /** A ghost as the filters see it: the ghost and the square it stands on. */
  datatype Hunter = Hunter(npc: Ghost, at: Square)

  /** The squares the ghosts stand on, in the order of `hunters`. */
  function HunterSquares(hunters: seq<Hunter>): (squares: seq<Square>)
    ensures |squares| == |hunters| && forall i :: 0 <= i < |hunters| ==> squares[i] == hunters[i].at
  {
    seq(|hunters|, i requires 0 <= i < |hunters| => hunters[i].at)
  }

  /** `getUnBlockedPath(from, ghosts, possiblePaths)`: the entries whose
      path enters no square a ghost stands on, each kept unchanged. */
  function UnblockedPaths(g: Grid<Unit>, from: Square, hunters: seq<Hunter>, paths: map<Square, seq<Direction>>)
    : map<Square, seq<Direction>>
  {
    map t | t in paths && Unblocked(g, from, paths[t], HunterSquares(hunters)) :: paths[t]
  }

  /** The unblocked paths are a part of the input, unchanged; a path is
      dropped exactly when one of the squares it enters holds a ghost. */
  lemma UnblockedPathsSpec(g: Grid<Unit>, from: Square, hunters: seq<Hunter>, paths: map<Square, seq<Direction>>)
    ensures forall t :: t in UnblockedPaths(g, from, hunters, paths) ==>
      t in paths && UnblockedPaths(g, from, hunters, paths)[t] == paths[t]
    ensures forall t :: t in paths && t !in UnblockedPaths(g, from, hunters, paths) ==>
      exists i, k :: 1 <= i <= |paths[t]| && 0 <= k < |hunters| && FollowPath(g, from, paths[t][..i]) == hunters[k].at
    ensures forall t, i, k :: t in UnblockedPaths(g, from, hunters, paths) && 1 <= i <= |paths[t]| && 0 <= k < |hunters| ==>
      FollowPath(g, from, paths[t][..i]) != hunters[k].at
  {
    var squares := HunterSquares(hunters);
    forall t | t in paths && t !in UnblockedPaths(g, from, hunters, paths)
      ensures exists i, k :: 1 <= i <= |paths[t]| && 0 <= k < |hunters| && FollowPath(g, from, paths[t][..i]) == hunters[k].at
    {
      var i :| 1 <= i <= |paths[t]| && FollowPath(g, from, paths[t][..i]) in squares;
      var k :| 0 <= k < |squares| && squares[k] == FollowPath(g, from, paths[t][..i]);
    }
    forall t, i, k | t in UnblockedPaths(g, from, hunters, paths) && 1 <= i <= |paths[t]| && 0 <= k < |hunters|
      ensures FollowPath(g, from, paths[t][..i]) != hunters[k].at
    {
      assert squares[k] == hunters[k].at;
    }
  }

  /** The ghost's own shortest path to `t` is at most `n` steps long. */
  predicate Threatens(g: Grid<Unit>, h: Hunter, t: Square, n: nat)
    requires Valid(g) && OnBoard(g, h.at)
  {
    var path := BfsPath(g, h.at, t, Some(GhostUnit(h.npc)));
    path.Some? && |path.value| <= n
  }

  /** Every ghost stands on a board square. */
  ghost predicate Placed(g: Grid<Unit>, hunters: seq<Hunter>) {
    forall i :: 0 <= i < |hunters| ==> OnBoard(g, hunters[i].at)
  }

  /** `getSafePaths(ghosts, possiblePaths)`: the entries whose destination
      no ghost can reach in as many steps as the player's path takes. */
  function SafePaths(g: Grid<Unit>, hunters: seq<Hunter>, paths: map<Square, seq<Direction>>)
    : map<Square, seq<Direction>>
    requires Valid(g) && Placed(g, hunters)
  {
    map t | t in paths && (forall i :: 0 <= i < |hunters| ==> !Threatens(g, hunters[i], t, |paths[t]|)) :: paths[t]
  }

  /** Every path the ghost may take to `t` is longer than `n` steps. */
  ghost predicate Outpaced(g: Grid<Unit>, h: Hunter, t: Square, n: nat) {
    forall q :: PathEnterable(g, Some(GhostUnit(h.npc)), h.at, q) && FollowPath(g, h.at, q) == t ==> |q| > n
  }

  /** A path is kept, unchanged, exactly when every path a ghost may take
      to its destination is longer than it. */
  lemma SafePathsSpec(g: Grid<Unit>, hunters: seq<Hunter>, paths: map<Square, seq<Direction>>)
    requires Valid(g) && Placed(g, hunters)
    ensures forall t :: t in SafePaths(g, hunters, paths) ==> t in paths && SafePaths(g, hunters, paths)[t] == paths[t]
    ensures forall t :: t in paths ==>
      (t in SafePaths(g, hunters, paths) <==> forall i :: 0 <= i < |hunters| ==> Outpaced(g, hunters[i], t, |paths[t]|))
  {
    forall t, i | t in paths && 0 <= i < |hunters|
      ensures !Threatens(g, hunters[i], t, |paths[t]|) <==> Outpaced(g, hunters[i], t, |paths[t]|)
    {
      var h := hunters[i];
      BfsPathSound(g, h.at, t, Some(GhostUnit(h.npc)));
      if !Threatens(g, h, t, |paths[t]|) {
        forall q | PathEnterable(g, Some(GhostUnit(h.npc)), h.at, q) && FollowPath(g, h.at, q) == t
          ensures |q| > |paths[t]|
        {
          BfsPathMinimal(g, h.at, t, Some(GhostUnit(h.npc)), q);
        }
      }
    }
  }

  // ----------------------------------------------------------------------
  // isPelletPath and the pellet count of maximizePellets
  // ----------------------------------------------------------------------

  /** Some occupant of square `s` is a pellet. */
  predicate HasPellet(occupancy: map<Square, seq<Unit>>, s: Square) {
    UnitOn(occupancy, IsPellet, s).Some?
  }

  /** Some non-empty prefix of `path` satisfies `p`. */
  ghost predicate SomePrefix<T>(p: seq<T> -> bool, path: seq<T>) {
    exists i :: 1 <= i <= |path| && p(path[..i])
  }

  /** A non-empty prefix of `path` satisfies `p` when one of the shorter
      part does or the whole path does. */
  lemma SomePrefixSnoc<T>(p: seq<T> -> bool, path: seq<T>)
    requires path != []
    ensures SomePrefix(p, path) <==> SomePrefix(p, path[..|path| - 1]) || p(path)
  {
    var n := |path| - 1;
    if SomePrefix(p, path) {
      var i :| 1 <= i <= |path| && p(path[..i]);
      if i <= n {
        assert path[..n][..i] == path[..i];
      } else {
        assert path[..i] == path;
      }
    }
    if SomePrefix(p, path[..n]) {
      var i :| 1 <= i <= n && p(path[..n][..i]);
      assert path[..n][..i] == path[..i];
    }
    if p(path) {
      assert path[..|path|] == path;
    }
  }

  /** The walk along a path from `from` ends on a square holding a pellet. */
  function EndsOnPellet(g: Grid<Unit>, occupancy: map<Square, seq<Unit>>, from: Square): seq<Direction> -> bool {
    path => HasPellet(occupancy, FollowPath(g, from, path))
  }

  /** Some square entered along `path` from `from` holds a pellet. */
  ghost predicate PelletPath(g: Grid<Unit>, occupancy: map<Square, seq<Unit>>, from: Square, path: seq<Direction>) {
    SomePrefix(EndsOnPellet(g, occupancy, from), path)
  }

  /** The number of squares entered along `path` from `from` that hold a
      pellet. */
  function PelletsAlong(g: Grid<Unit>, occupancy: map<Square, seq<Unit>>, from: Square, path: seq<Direction>): nat
    decreases |path|
  {
    if path == [] then 0
    else PelletsAlong(g, occupancy, from, path[..|path| - 1]) + if HasPellet(occupancy, FollowPath(g, from, path)) then 1 else 0
  }

  /** A path passes a pellet when its shorter part does or its last
      square holds one. */
  lemma PelletPathSnoc(g: Grid<Unit>, occupancy: map<Square, seq<Unit>>, from: Square, path: seq<Direction>)
    requires path != []
    ensures PelletPath(g, occupancy, from, path) <==>
      PelletPath(g, occupancy, from, path[..|path| - 1]) || HasPellet(occupancy, FollowPath(g, from, path))
  {
    SomePrefixSnoc(EndsOnPellet(g, occupancy, from), path);
  }

  /** A path passes a pellet exactly when its count is positive, and the
      count never exceeds the number of steps. */
  lemma {:induction false} PelletPathCounts(g: Grid<Unit>, occupancy: map<Square, seq<Unit>>, from: Square, path: seq<Direction>)
    ensures PelletPath(g, occupancy, from, path) <==> PelletsAlong(g, occupancy, from, path) > 0
    ensures PelletsAlong(g, occupancy, from, path) <= |path|
    decreases |path|
  {
    if path != [] {
      PelletPathCounts(g, occupancy, from, path[..|path| - 1]);
      PelletPathSnoc(g, occupancy, from, path);
    }
  }

  /** `isPelletPath(from, path)`: walks the path and stops at the first
      square entered that holds a pellet. */
  method IsPelletPath(g: Grid<Unit>, occupancy: map<Square, seq<Unit>>, from: Square, path: seq<Direction>)
    returns (found: bool)
    ensures found <==> PelletPath(g, occupancy, from, path)
  {
    var square := from;
    for i := 0 to |path|
      invariant square == FollowPath(g, from, path[..i])
      invariant !PelletPath(g, occupancy, from, path[..i])
    {
      assert path[..i + 1][..i] == path[..i];
      square := Step(g, square, path[i]);
      PelletPathSnoc(g, occupancy, from, path[..i + 1]);
      if UnitOn(occupancy, IsPellet, square).Some? {
        return true;
      }
    }
    assert path[..|path|] == path;
    return false;
  }

  /** The inner loop of `maximizePellets`: the pellet squares along one
      path. */
  method CountPellets(g: Grid<Unit>, occupancy: map<Square, seq<Unit>>, from: Square, path: seq<Direction>)
    returns (count: nat)
    ensures count == PelletsAlong(g, occupancy, from, path) && count <= |path|
  {
    var square := from;
    count := 0;
    for i := 0 to |path|
      invariant square == FollowPath(g, from, path[..i])
      invariant count == PelletsAlong(g, occupancy, from, path[..i]) && count <= i
    {
      assert path[..i + 1][..i] == path[..i];
      square := Step(g, square, path[i]);
      if UnitOn(occupancy, IsPellet, square).Some? {
        count := count + 1;
      }
    }
    assert path[..|path|] == path;
  }

  // ----------------------------------------------------------------------
  // getWorthPaths and calculateDistancesByGhost
  // ----------------------------------------------------------------------

  /** `calculateDistancesByGhost(ghosts, from)`: the length of each ghost's
      shortest path to the player, in the order of `hunters`; a ghost that
      cannot reach the player has no path and asking its size throws. */
  function Distances(g: Grid<Unit>, hunters: seq<Hunter>, from: Square): Result<seq<nat>>
    requires Valid(g) && Placed(g, hunters)
    decreases |hunters|
  {
    if hunters == [] then Ok([])
    else
      match Distances(g, hunters[..|hunters| - 1], from)
      case Err(e) => Err(e)
      case Ok(ds) =>
        var h := hunters[|hunters| - 1];
        match BfsPath(g, h.at, from, Some(GhostUnit(h.npc)))
        case None => Err(NullPointer)
        case Some(path) => Ok(ds + [|path|])
  }

  /** Each distance is the length of that ghost's shortest path to the
      player; the distances are missing exactly when some ghost cannot
      reach the player. */
  lemma {:induction false} DistancesSpec(g: Grid<Unit>, hunters: seq<Hunter>, from: Square)
    requires Valid(g) && Placed(g, hunters)
    ensures Distances(g, hunters, from).Ok? ==>
      |Distances(g, hunters, from).value| == |hunters| &&
      forall k :: 0 <= k < |hunters| ==>
        BfsPath(g, hunters[k].at, from, Some(GhostUnit(hunters[k].npc))).Some? &&
        Distances(g, hunters, from).value[k] == |BfsPath(g, hunters[k].at, from, Some(GhostUnit(hunters[k].npc))).value|
    ensures Distances(g, hunters, from).Err? <==>
      exists k :: 0 <= k < |hunters| && BfsPath(g, hunters[k].at, from, Some(GhostUnit(hunters[k].npc))).None?
    ensures Distances(g, hunters, from).Err? ==> Distances(g, hunters, from) == Err(NullPointer)
    decreases |hunters|
  {
    if hunters != [] {
      var init := hunters[..|hunters| - 1];
      DistancesSpec(g, init, from);
      var n := |init|;
      var last := BfsPath(g, hunters[n].at, from, Some(GhostUnit(hunters[n].npc)));
      if Distances(g, init, from).Err? {
        var k :| 0 <= k < n && BfsPath(g, init[k].at, from, Some(GhostUnit(init[k].npc))).None?;
        assert init[k] == hunters[k];
      } else if last.None? {
        assert Distances(g, hunters, from) == Err(NullPointer);
      } else {
        var ds := Distances(g, init, from).value;
        assert Distances(g, hunters, from) == Ok(ds + [|last.value|]);
        forall k | 0 <= k < |hunters|
          ensures BfsPath(g, hunters[k].at, from, Some(GhostUnit(hunters[k].npc))).Some? &&
                  (ds + [|last.value|])[k] == |BfsPath(g, hunters[k].at, from, Some(GhostUnit(hunters[k].npc))).value|
        {
          if k < n {
            assert init[k] == hunters[k];
          }
        }
      }
    }
  }

  /** The test of `getWorthPaths` for one ghost: it is nearer the player
      than the destination, or the player's path is shorter than the
      ghost's path to the destination. */
  predicate Outrun(toPlayer: nat, toDestination: nat, pathLength: nat) {
    toPlayer < toDestination || pathLength < toDestination
  }

  /** The inner loop of `getWorthPaths` over the first `upto` ghosts: the
      first ghost that fails the test stops it with `false`; a ghost that
      cannot reach the destination makes it throw. */
  function Passes(g: Grid<Unit>, hunters: seq<Hunter>, dists: seq<nat>, dest: Square, pathLength: nat, upto: nat): Result<bool>
    requires Valid(g) && Placed(g, hunters) && |dists| == |hunters| && upto <= |hunters|
    decreases upto
  {
    if upto == 0 then Ok(true)
    else
      match Passes(g, hunters, dists, dest, pathLength, upto - 1)
      case Err(e) => Err(e)
      case Ok(false) => Ok(false)
      case Ok(true) =>
        var h := hunters[upto - 1];
        match BfsPath(g, h.at, dest, Some(GhostUnit(h.npc)))
        case None => Err(NullPointer)
        case Some(path) => Ok(Outrun(dists[upto - 1], |path|, pathLength))
  }

  /** One ghost, at distance `toPlayer` from the player, passes the test
      for the destination. */
  predicate Outruns(g: Grid<Unit>, h: Hunter, toPlayer: nat, dest: Square, pathLength: nat)
    requires Valid(g) && OnBoard(g, h.at)
  {
    var toDest := BfsPath(g, h.at, dest, Some(GhostUnit(h.npc)));
    toDest.Some? && Outrun(toPlayer, |toDest.value|, pathLength)
  }

  /** Each of the first `upto` ghosts, with its distance to the player,
      passes the test for the destination. */
  ghost predicate AllOutrun(g: Grid<Unit>, hunters: seq<Hunter>, dists: seq<nat>, dest: Square, pathLength: nat, upto: nat)
    requires Valid(g) && Placed(g, hunters) && |dists| == |hunters| && upto <= |hunters|
  {
    forall k :: 0 <= k < upto ==> Outruns(g, hunters[k], dists[k], dest, pathLength)
  }

  /** All of the first `upto` ghosts pass exactly when the first
      `upto - 1` do and the last of them does. */
  lemma AllOutrunSnoc(g: Grid<Unit>, hunters: seq<Hunter>, dists: seq<nat>, dest: Square, pathLength: nat, upto: nat)
    requires Valid(g) && Placed(g, hunters) && |dists| == |hunters| && 0 < upto <= |hunters|
    ensures AllOutrun(g, hunters, dists, dest, pathLength, upto) <==>
      AllOutrun(g, hunters, dists, dest, pathLength, upto - 1) &&
      Outruns(g, hunters[upto - 1], dists[upto - 1], dest, pathLength)
  {
    var k := upto - 1;
    if AllOutrun(g, hunters, dists, dest, pathLength, k) && Outruns(g, hunters[k], dists[k], dest, pathLength) {
      forall j | 0 <= j < upto ensures Outruns(g, hunters[j], dists[j], dest, pathLength) {
        if j < k {
          assert Outruns(g, hunters[j], dists[j], dest, pathLength);
        }
      }
    }
  }

  /** The loop answers `true` exactly when each of the first `upto` ghosts
      passes; it throws only for a ghost that cannot reach the destination. */
  lemma {:induction false} PassesSpec(g: Grid<Unit>, hunters: seq<Hunter>, dists: seq<nat>, dest: Square, pathLength: nat, upto: nat)
    requires Valid(g) && Placed(g, hunters) && |dists| == |hunters| && upto <= |hunters|
    ensures Passes(g, hunters, dists, dest, pathLength, upto) == Ok(true) <==>
      AllOutrun(g, hunters, dists, dest, pathLength, upto)
    ensures Passes(g, hunters, dists, dest, pathLength, upto).Err? ==>
      Passes(g, hunters, dists, dest, pathLength, upto) == Err(NullPointer) &&
      exists k :: 0 <= k < upto && BfsPath(g, hunters[k].at, dest, Some(GhostUnit(hunters[k].npc))).None?
    decreases upto
  {
    if upto > 0 {
      PassesSpec(g, hunters, dists, dest, pathLength, upto - 1);
      AllOutrunSnoc(g, hunters, dists, dest, pathLength, upto);
    }
  }

  /** The outer loop of `getWorthPaths` over the entries, in the order the
      map yields them, with the ghosts' distances to the player. */
  function WorthPathsOf(g: Grid<Unit>, occupancy: map<Square, seq<Unit>>, from: Square, hunters: seq<Hunter>,
                        dists: seq<nat>, entries: seq<(Square, seq<Direction>)>): Result<seq<seq<Direction>>>
    requires Valid(g) && Placed(g, hunters) && |dists| == |hunters|
    decreases |entries|
  {
    if entries == [] then Ok([])
    else
      match WorthPathsOf(g, occupancy, from, hunters, dists, entries[..|entries| - 1])
      case Err(e) => Err(e)
      case Ok(ws) =>
        var (dest, path) := entries[|entries| - 1];
        match Passes(g, hunters, dists, dest, |path|, |hunters|)
        case Err(e) => Err(e)
        case Ok(canTake) => if canTake && PelletsAlong(g, occupancy, from, path) > 0 then Ok(ws + [path]) else Ok(ws)
  }

  /** `getWorthPaths(from, ghosts, dangerousPaths)`. */
  function GetWorthPaths(g: Grid<Unit>, occupancy: map<Square, seq<Unit>>, from: Square, hunters: seq<Hunter>,
                         entries: seq<(Square, seq<Direction>)>): Result<seq<seq<Direction>>>
    requires Valid(g) && Placed(g, hunters)
  {
    match Distances(g, hunters, from)
    case Err(e) => Err(e)
    case Ok(dists) =>
      DistancesSpec(g, hunters, from);
      WorthPathsOf(g, occupancy, from, hunters, dists, entries)
  }

  /** A path is worth taking when every ghost can reach both the player and
      the destination, and for each ghost it is nearer the player than the
      destination or the player's path is shorter than the ghost's; and the
      path passes a pellet. */
  ghost predicate Worthy(g: Grid<Unit>, occupancy: map<Square, seq<Unit>>, from: Square, hunters: seq<Hunter>,
                         dest: Square, path: seq<Direction>)
    requires Valid(g) && Placed(g, hunters)
  {
    PelletPath(g, occupancy, from, path) &&
    forall k :: 0 <= k < |hunters| ==>
      var toPlayer := BfsPath(g, hunters[k].at, from, Some(GhostUnit(hunters[k].npc)));
      var toDest := BfsPath(g, hunters[k].at, dest, Some(GhostUnit(hunters[k].npc)));
      toPlayer.Some? && toDest.Some? && Outrun(|toPlayer.value|, |toDest.value|, |path|)
  }

  /** For one entry, the two loops of `getWorthPaths` keep its path
      exactly when the entry is worthy, and throw only for a ghost that
      cannot reach the destination. */
  lemma WorthyEntry(g: Grid<Unit>, occupancy: map<Square, seq<Unit>>, from: Square, hunters: seq<Hunter>,
                    dists: seq<nat>, dest: Square, path: seq<Direction>)
    requires Valid(g) && Placed(g, hunters) && Distances(g, hunters, from) == Ok(dists) && |dists| == |hunters|
    ensures Worthy(g, occupancy, from, hunters, dest, path) <==>
      Passes(g, hunters, dists, dest, |path|, |hunters|) == Ok(true) && PelletsAlong(g, occupancy, from, path) > 0
    ensures Passes(g, hunters, dists, dest, |path|, |hunters|).Err? ==>
      Passes(g, hunters, dists, dest, |path|, |hunters|) == Err(NullPointer)
  {
    DistancesSpec(g, hunters, from);
    PassesSpec(g, hunters, dists, dest, |path|, |hunters|);
    PelletPathCounts(g, occupancy, from, path);
  }

  /** `kept` holds the values of exactly the entries that `accept` takes:
      each kept value is the value of an accepted entry, and each accepted
      entry's value is kept. */
  ghost predicate KeepsExactly<E, W>(kept: seq<W>, entries: seq<E>, value: E -> W, accept: E -> bool) {
    (forall w :: w in kept ==> exists i :: 0 <= i < |entries| && value(entries[i]) == w && accept(entries[i])) &&
    (forall i :: 0 <= i < |entries| && accept(entries[i]) ==> value(entries[i]) in kept)
  }

  /** Appending the last entry's value exactly when it is accepted keeps
      the values of exactly the accepted entries. */
  lemma KeepsExactlySnoc<E, W>(kept: seq<W>, entries: seq<E>, value: E -> W, accept: E -> bool)
    requires entries != []
    requires KeepsExactly(kept, entries[..|entries| - 1], value, accept)
    ensures var last := entries[|entries| - 1];
      KeepsExactly(if accept(last) then kept + [value(last)] else kept, entries, value, accept)
  {
    var n := |entries| - 1;
    var init := entries[..n];
    var last := entries[n];
    var next := if accept(last) then kept + [value(last)] else kept;
    forall w | w in next
      ensures exists i :: 0 <= i < |entries| && value(entries[i]) == w && accept(entries[i])
    {
      if w in kept {
        var i :| 0 <= i < |init| && value(init[i]) == w && accept(init[i]);
        assert entries[i] == init[i];
      } else {
        assert value(entries[n]) == w && accept(entries[n]);
      }
    }
    forall i | 0 <= i < |entries| && accept(entries[i])
      ensures value(entries[i]) in next
    {
      if i < n {
        assert entries[i] == init[i];
      }
    }
  }

  /** The path of an entry of the map. */
  function PathOf(entry: (Square, seq<Direction>)): seq<Direction> {
    entry.1
  }

  /** The entries whose path is worth taking towards their destination. */
  ghost function WorthyEntries(g: Grid<Unit>, occupancy: map<Square, seq<Unit>>, from: Square, hunters: seq<Hunter>)
    : ((Square, seq<Direction>)) -> bool
    requires Valid(g) && Placed(g, hunters)
  {
    (entry: (Square, seq<Direction>)) => Worthy(g, occupancy, from, hunters, entry.0, entry.1)
  }

  /** The worth paths are exactly the paths of the worthy entries, in
      entry order: each kept path belongs to a worthy entry and each
      worthy entry's path is kept. Once the distances are known, the
      answer is missing only when a ghost cannot reach a destination. */
  lemma {:induction false} WorthPathsOfSpec(g: Grid<Unit>, occupancy: map<Square, seq<Unit>>, from: Square, hunters: seq<Hunter>,
                                            dists: seq<nat>, entries: seq<(Square, seq<Direction>)>)
    requires Valid(g) && Placed(g, hunters) && Distances(g, hunters, from) == Ok(dists) && |dists| == |hunters|
    ensures WorthPathsOf(g, occupancy, from, hunters, dists, entries).Err? ==>
      WorthPathsOf(g, occupancy, from, hunters, dists, entries) == Err(NullPointer)
    ensures WorthPathsOf(g, occupancy, from, hunters, dists, entries).Ok? ==>
      KeepsExactly(WorthPathsOf(g, occupancy, from, hunters, dists, entries).value, entries, PathOf,
                   WorthyEntries(g, occupancy, from, hunters))
    decreases |entries|
  {
    if entries != [] {
      var n := |entries| - 1;
      var init := entries[..n];
      WorthPathsOfSpec(g, occupancy, from, hunters, dists, init);
      var (dest, path) := entries[n];
      WorthyEntry(g, occupancy, from, hunters, dists, dest, path);
      if WorthPathsOf(g, occupancy, from, hunters, dists, entries).Ok? {
        KeepsExactlySnoc(WorthPathsOf(g, occupancy, from, hunters, dists, init).value, entries, PathOf,
                         WorthyEntries(g, occupancy, from, hunters));
      }
    }
  }

  /** The worth paths are the paths of the worthy entries; the answer is
      missing only when a ghost cannot reach the player or a destination. */
  lemma GetWorthPathsSpec(g: Grid<Unit>, occupancy: map<Square, seq<Unit>>, from: Square, hunters: seq<Hunter>,
                          entries: seq<(Square, seq<Direction>)>)
    requires Valid(g) && Placed(g, hunters)
    ensures GetWorthPaths(g, occupancy, from, hunters, entries).Err? ==>
      GetWorthPaths(g, occupancy, from, hunters, entries) == Err(NullPointer)
    ensures GetWorthPaths(g, occupancy, from, hunters, entries).Ok? ==>
      KeepsExactly(GetWorthPaths(g, occupancy, from, hunters, entries).value, entries, PathOf,
                   WorthyEntries(g, occupancy, from, hunters))
  {
    DistancesSpec(g, hunters, from);
    if Distances(g, hunters, from).Ok? {
      WorthPathsOfSpec(g, occupancy, from, hunters, Distances(g, hunters, from).value, entries);
    }
  }

  /** `getWorthPaths`: the distances loop, then for each entry the ghost
      loop (stopped at the first ghost that fails) and the pellet test. */
  method WorthPaths(g: Grid<Unit>, occupancy: map<Square, seq<Unit>>, from: Square, hunters: seq<Hunter>,
                    entries: seq<(Square, seq<Direction>)>) returns (r: Result<seq<seq<Direction>>>)
    requires Valid(g) && Placed(g, hunters) && OnBoard(g, from)
    ensures r == GetWorthPaths(g, occupancy, from, hunters, entries)
  {
    var dists: seq<nat> := [];
    for k := 0 to |hunters|
      invariant Distances(g, hunters[..k], from) == Ok(dists)
    {
      assert hunters[..k + 1][..k] == hunters[..k];
      var h := hunters[k];
      var path := ShortestPath(g, h.at, from, Some(GhostUnit(h.npc)));
      if path.None? {
        DistancesPropagate(g, hunters, from, k + 1);
        return Err(NullPointer);
      }
      dists := dists + [|path.value|];
    }
    assert hunters[..|hunters|] == hunters;
    DistancesSpec(g, hunters, from);
    var worth: seq<seq<Direction>> := [];
    for i := 0 to |entries|
      invariant WorthPathsOf(g, occupancy, from, hunters, dists, entries[..i]) == Ok(worth)
    {
      assert entries[..i + 1][..i] == entries[..i];
      var (dest, path) := entries[i];
      var canTake := CanTakePath(g, hunters, dists, dest, |path|);
      if canTake.Err? {
        WorthPropagate(g, occupancy, from, hunters, dists, entries, i + 1);
        return Err(canTake.error);
      }
      if canTake.value {
        var pellet := IsPelletPath(g, occupancy, from, path);
        PelletPathCounts(g, occupancy, from, path);
        if pellet {
          worth := worth + [path];
        }
      }
    }
    assert entries[..|entries|] == entries;
    return Ok(worth);
  }

  /** The ghost loop of `getWorthPaths` for one entry. */
  method CanTakePath(g: Grid<Unit>, hunters: seq<Hunter>, dists: seq<nat>, dest: Square, pathLength: nat)
    returns (r: Result<bool>)
    requires Valid(g) && Placed(g, hunters) && |dists| == |hunters|
    ensures r == Passes(g, hunters, dists, dest, pathLength, |hunters|)
  {
    for k := 0 to |hunters|
      invariant Passes(g, hunters, dists, dest, pathLength, k) == Ok(true)
    {
      var h := hunters[k];
      var path := ShortestPath(g, h.at, dest, Some(GhostUnit(h.npc)));
      if path.None? {
        PassesPropagate(g, hunters, dists, dest, pathLength, k + 1);
        return Err(NullPointer);
      }
      if !Outrun(dists[k], |path.value|, pathLength) {
        PassesPropagate(g, hunters, dists, dest, pathLength, k + 1);
        return Ok(false);
      }
    }
    return Ok(true);
  }

  /** Once the ghost loop has stopped, the later ghosts change nothing. */
  lemma {:induction false} PassesPropagate(g: Grid<Unit>, hunters: seq<Hunter>, dists: seq<nat>, dest: Square, pathLength: nat, n: nat)
    requires Valid(g) && Placed(g, hunters) && |dists| == |hunters| && n <= |hunters|
    requires Passes(g, hunters, dists, dest, pathLength, n) != Ok(true)
    ensures Passes(g, hunters, dists, dest, pathLength, |hunters|) == Passes(g, hunters, dists, dest, pathLength, n)
    decreases |hunters| - n
  {
    if n < |hunters| {
      PassesPropagate(g, hunters, dists, dest, pathLength, n + 1);
    }
  }

  /** A failure on a prefix of the ghosts is the failure of the whole. */
  lemma {:induction false} DistancesPropagate(g: Grid<Unit>, hunters: seq<Hunter>, from: Square, n: nat)
    requires Valid(g) && Placed(g, hunters) && n <= |hunters|
    requires Distances(g, hunters[..n], from).Err?
    ensures Distances(g, hunters, from) == Distances(g, hunters[..n], from)
    decreases |hunters| - n
  {
    if n < |hunters| {
      assert hunters[..n + 1][..n] == hunters[..n];
      DistancesPropagate(g, hunters, from, n + 1);
    } else {
      assert hunters[..n] == hunters;
    }
  }

  /** A failure on a prefix of the entries is the failure of the whole. */
  lemma {:induction false} WorthPropagate(g: Grid<Unit>, occupancy: map<Square, seq<Unit>>, from: Square, hunters: seq<Hunter>,
                                          dists: seq<nat>, entries: seq<(Square, seq<Direction>)>, n: nat)
    requires Valid(g) && Placed(g, hunters) && |dists| == |hunters| && n <= |entries|
    requires WorthPathsOf(g, occupancy, from, hunters, dists, entries[..n]).Err?
    ensures WorthPathsOf(g, occupancy, from, hunters, dists, entries) == WorthPathsOf(g, occupancy, from, hunters, dists, entries[..n])
    decreases |entries| - n
  {
    if n < |entries| {
      assert entries[..n + 1][..n] == entries[..n];
      WorthPropagate(g, occupancy, from, hunters, dists, entries, n + 1);
    } else {
      assert entries[..n] == entries;
    }
  }

  // ----------------------------------------------------------------------
  // maximizePoints, maximizeFruits and maximizePellets
  // ----------------------------------------------------------------------

  /** The running maximum of `maximizePellets`, starting from 0. */
  function MaxOf(xs: seq<nat>): nat
    decreases |xs|
  {
    if xs == [] then 0
    else
      var m := MaxOf(xs[..|xs| - 1]);
      if xs[|xs| - 1] > m then xs[|xs| - 1] else m
  }

  /** The index the running `directionSelected` of `maximizePellets` comes
      from: it moves only to a count strictly greater than every earlier
      one, and stays at 0 while all counts are 0. */
  function FirstMaxIndex(xs: seq<nat>): (i: nat)
    ensures xs != [] ==> i < |xs|
    ensures i > 0 ==> i < |xs| && xs[i] > 0
    decreases |xs|
  {
    if xs == [] then 0
    else if xs[|xs| - 1] > MaxOf(xs[..|xs| - 1]) then |xs| - 1
    else FirstMaxIndex(xs[..|xs| - 1])
  }

  /** The index chosen holds the greatest count, and every earlier count
      is strictly smaller: ties go to the earliest path. */
  lemma {:induction false} FirstMaxSpec(xs: seq<nat>)
    requires xs != []
    ensures xs[FirstMaxIndex(xs)] == MaxOf(xs)
    ensures forall j :: 0 <= j < |xs| ==> xs[j] <= xs[FirstMaxIndex(xs)]
    ensures forall j :: 0 <= j < FirstMaxIndex(xs) ==> xs[j] < xs[FirstMaxIndex(xs)]
    decreases |xs|
  {
    var init := xs[..|xs| - 1];
    if init == [] {
      assert MaxOf(init) == 0;
    } else {
      FirstMaxSpec(init);
      assert forall j :: 0 <= j < |init| ==> init[j] == xs[j];
    }
  }

  /** One more element raises the maximum when it is greater, and only
      then moves the index of the first maximum to it. */
  lemma MaxStep(xs: seq<nat>, k: nat)
    requires k < |xs|
    ensures MaxOf(xs[..k + 1]) == if xs[k] > MaxOf(xs[..k]) then xs[k] else MaxOf(xs[..k])
    ensures FirstMaxIndex(xs[..k + 1]) == if xs[k] > MaxOf(xs[..k]) then k else FirstMaxIndex(xs[..k])
  {
    assert xs[..k + 1][..k] == xs[..k];
  }

  /** The running maximum `m` and its first index `best` after the first
      `k` counts. */
  ghost predicate RunningMax(xs: seq<nat>, k: nat, m: nat, best: nat) {
    k <= |xs| && m == MaxOf(xs[..k]) && best == FirstMaxIndex(xs[..k])
  }

  /** One more count moves the running maximum exactly when it is greater. */
  lemma RunningMaxStep(xs: seq<nat>, k: nat, m: nat, best: nat)
    requires RunningMax(xs, k, m, best) && k < |xs|
    ensures xs[k] > m ==> RunningMax(xs, k + 1, xs[k], k)
    ensures xs[k] <= m ==> RunningMax(xs, k + 1, m, best)
  {
    MaxStep(xs, k);
  }

  /** After every count, the running maximum is the maximum. */
  lemma RunningMaxDone(xs: seq<nat>, m: nat, best: nat)
    requires RunningMax(xs, |xs|, m, best)
    ensures m == MaxOf(xs) && best == FirstMaxIndex(xs)
  {
    assert xs[..|xs|] == xs;
  }

  /** The pellet count of each path, in order. */
  function Counts(g: Grid<Unit>, occupancy: map<Square, seq<Unit>>, from: Square, paths: seq<seq<Direction>>): (counts: seq<nat>)
    ensures |counts| == |paths|
  {
    seq(|paths|, i requires 0 <= i < |paths| => PelletsAlong(g, occupancy, from, paths[i]))
  }

  /** Each count is the pellet count of its path. */
  lemma CountsSpec(g: Grid<Unit>, occupancy: map<Square, seq<Unit>>, from: Square, paths: seq<seq<Direction>>)
    ensures forall i :: 0 <= i < |paths| ==> Counts(g, occupancy, from, paths)[i] == PelletsAlong(g, occupancy, from, paths[i])
  {
  }

  /** The stream of `maximizePellets` when no path passes a pellet: the
      first path, in order, whose first step is `target`, else `fallback`;
      an empty path met on the way throws. */
  function FirstStepMatch(paths: seq<seq<Direction>>, target: Direction, fallback: Direction): (r: Result<Direction>)
    ensures r.Ok? ==> r.value == fallback || exists i :: 0 <= i < |paths| && paths[i] != [] && paths[i][0] == r.value
  {
    if paths == [] then Ok(fallback)
    else if paths[0] == [] then Err(IndexOutOfBounds)
    else if paths[0][0] == target then Ok(target)
    else
      var r := FirstStepMatch(paths[1..], target, fallback);
      assert forall i :: 1 <= i < |paths| ==> paths[i] == paths[1..][i - 1];
      r
  }

  /** When every path is non-empty, the match is `target` when some path
      starts with it and `fallback` otherwise. */
  lemma {:induction false} FirstStepMatchSpec(paths: seq<seq<Direction>>, target: Direction, fallback: Direction)
    requires forall i :: 0 <= i < |paths| ==> paths[i] != []
    ensures FirstStepMatch(paths, target, fallback) ==
      if exists i :: 0 <= i < |paths| && paths[i][0] == target then Ok(target) else Ok(fallback)
  {
    if paths != [] && paths[0][0] != target {
      FirstStepMatchSpec(paths[1..], target, fallback);
      assert forall i :: 1 <= i < |paths| ==> paths[i] == paths[1..][i - 1];
      if exists i :: 0 <= i < |paths| && paths[i][0] == target {
        var i :| 0 <= i < |paths| && paths[i][0] == target;
        assert paths[1..][i - 1][0] == target;
      }
    }
  }

  /** `maximizePellets(player, paths, nearestPellet)`: `pelletAt` is the
      square of the nearest pellet, none when there is no pellet. */
  function PelletChoice(g: Grid<Unit>, occupancy: map<Square, seq<Unit>>, from: Square, u: Unit,
                        paths: seq<seq<Direction>>, pelletAt: Option<Square>): Result<Direction>
    requires Valid(g) && OnBoard(g, from)
  {
    if |paths| == 0 || |paths[0]| == 0 then Err(IndexOutOfBounds)
    else
      var counts := Counts(g, occupancy, from, paths);
      var i := FirstMaxIndex(counts);
      var selected := paths[i][0];
      if counts[i] > 0 then Ok(selected)
      else
        match pelletAt
        case None => Err(NullPointer)
        case Some(at) =>
          match BfsPath(g, from, at, Some(u))
          case None => Err(NullPointer)
          case Some(q) => if q == [] then Err(IndexOutOfBounds) else FirstStepMatch(paths, q[0], selected)
  }

  /** When some path passes a pellet, the choice is the first step of the
      first path with the greatest count. */
  lemma PelletChoiceBest(g: Grid<Unit>, occupancy: map<Square, seq<Unit>>, from: Square, u: Unit,
                         paths: seq<seq<Direction>>, pelletAt: Option<Square>)
    requires Valid(g) && OnBoard(g, from)
    requires |paths| > 0 && paths[0] != []
    requires exists j :: 0 <= j < |paths| && PelletPath(g, occupancy, from, paths[j])
    ensures var i := FirstMaxIndex(Counts(g, occupancy, from, paths));
      0 <= i < |paths| && paths[i] != [] && PelletChoice(g, occupancy, from, u, paths, pelletAt) == Ok(paths[i][0]) &&
      (forall j :: 0 <= j < |paths| ==> PelletsAlong(g, occupancy, from, paths[j]) <= PelletsAlong(g, occupancy, from, paths[i])) &&
      (forall j :: 0 <= j < i ==> PelletsAlong(g, occupancy, from, paths[j]) < PelletsAlong(g, occupancy, from, paths[i]))
  {
    var counts := Counts(g, occupancy, from, paths);
    CountsSpec(g, occupancy, from, paths);
    FirstMaxSpec(counts);
    var i := FirstMaxIndex(counts);
    var j := SomePelletCount(g, occupancy, from, paths);
    assert counts[i] > 0;
  }

  /** A path that passes a pellet has a positive count. */
  lemma SomePelletCount(g: Grid<Unit>, occupancy: map<Square, seq<Unit>>, from: Square, paths: seq<seq<Direction>>)
    returns (j: nat)
    requires exists j :: 0 <= j < |paths| && PelletPath(g, occupancy, from, paths[j])
    ensures j < |paths| && PelletsAlong(g, occupancy, from, paths[j]) > 0
  {
    j :| 0 <= j < |paths| && PelletPath(g, occupancy, from, paths[j]);
    PelletPathCounts(g, occupancy, from, paths[j]);
  }

  /** When no path passes a pellet and every path is non-empty, the choice
      is the first step of the player's path to the nearest pellet when
      some path starts with it, else the first step of the first path. */
  lemma PelletChoiceFallback(g: Grid<Unit>, occupancy: map<Square, seq<Unit>>, from: Square, u: Unit,
                             paths: seq<seq<Direction>>, at: Square)
    requires Valid(g) && OnBoard(g, from)
    requires |paths| > 0 && forall j :: 0 <= j < |paths| ==> paths[j] != [] && !PelletPath(g, occupancy, from, paths[j])
    requires BfsPath(g, from, at, Some(u)).Some? && BfsPath(g, from, at, Some(u)).value != []
    ensures var first := BfsPath(g, from, at, Some(u)).value[0];
      PelletChoice(g, occupancy, from, u, paths, Some(at)) ==
        if exists j :: 0 <= j < |paths| && paths[j][0] == first then Ok(first) else Ok(paths[0][0])
  {
    var counts := Counts(g, occupancy, from, paths);
    FirstMaxSpec(counts);
    var i := FirstMaxIndex(counts);
    PelletPathCounts(g, occupancy, from, paths[i]);
    PelletPathCounts(g, occupancy, from, paths[0]);
    assert i == 0;
    FirstStepMatchSpec(paths, BfsPath(g, from, at, Some(u)).value[0], paths[0][0]);
  }

  /** Every path is non-empty. */
  predicate AllNonEmpty(paths: seq<seq<Direction>>) {
    forall i :: 0 <= i < |paths| ==> paths[i] != []
  }

  /** `maximizeFruits(player, paths, fruit)`: the first step of the
      player's path to the fruit when some path starts with it, else the
      first step of the first path. A fruit the player cannot reach has no
      path and asking its first step throws, as does an empty path. */
  function FruitChoice(g: Grid<Unit>, from: Square, u: Unit, paths: seq<seq<Direction>>, fruitAt: Square): Result<Direction>
    requires Valid(g) && OnBoard(g, from)
  {
    match BfsPath(g, from, fruitAt, Some(u))
    case None => Err(NullPointer)
    case Some(q) =>
      if q == [] || !AllNonEmpty(paths) then Err(IndexOutOfBounds)
      else
        var firsts := seq(|paths|, i requires 0 <= i < |paths| && paths[i] != [] => paths[i][0]);
        if q[0] in firsts then Ok(q[0])
        else if firsts == [] then Err(IndexOutOfBounds)
        else Ok(firsts[0])
  }

  /** The fruit is chased when the player's path to it starts like one of
      the paths; otherwise the first path is taken. */
  lemma FruitChoiceSpec(g: Grid<Unit>, from: Square, u: Unit, paths: seq<seq<Direction>>, fruitAt: Square)
    requires Valid(g) && OnBoard(g, from)
    requires AllNonEmpty(paths) && |paths| > 0
    ensures BfsPath(g, from, fruitAt, Some(u)).Some? && BfsPath(g, from, fruitAt, Some(u)).value != [] ==>
      var first := BfsPath(g, from, fruitAt, Some(u)).value[0];
      FruitChoice(g, from, u, paths, fruitAt) ==
        if exists j :: 0 <= j < |paths| && paths[j][0] == first then Ok(first) else Ok(paths[0][0])
  {
    var firsts := seq(|paths|, i requires 0 <= i < |paths| && paths[i] != [] => paths[i][0]);
    if BfsPath(g, from, fruitAt, Some(u)).Some? && BfsPath(g, from, fruitAt, Some(u)).value != [] {
      var first := BfsPath(g, from, fruitAt, Some(u)).value[0];
      if exists j :: 0 <= j < |paths| && paths[j][0] == first {
        var j :| 0 <= j < |paths| && paths[j][0] == first;
        assert firsts[j] == first;
      }
    }
  }

  /** The pellet choice answers the first step of one of the paths. */
  lemma PelletChoiceAmongFirstSteps(g: Grid<Unit>, occupancy: map<Square, seq<Unit>>, from: Square, u: Unit,
                                    paths: seq<seq<Direction>>, pelletAt: Option<Square>)
    requires Valid(g) && OnBoard(g, from)
    ensures PelletChoice(g, occupancy, from, u, paths, pelletAt).Ok? ==>
      exists i :: 0 <= i < |paths| && paths[i] != [] && paths[i][0] == PelletChoice(g, occupancy, from, u, paths, pelletAt).value
  {
    if |paths| > 0 && paths[0] != [] {
      var i := FirstMaxIndex(Counts(g, occupancy, from, paths));
      assert paths[i] != [];
    }
  }

  /** The fruit choice answers the first step of one of the paths. */
  lemma FruitChoiceAmongFirstSteps(g: Grid<Unit>, from: Square, u: Unit, paths: seq<seq<Direction>>, fruitAt: Square)
    requires Valid(g) && OnBoard(g, from)
    ensures FruitChoice(g, from, u, paths, fruitAt).Ok? ==>
      exists i :: 0 <= i < |paths| && paths[i] != [] && paths[i][0] == FruitChoice(g, from, u, paths, fruitAt).value
  {
    var r := FruitChoice(g, from, u, paths, fruitAt);
    if r.Ok? {
      var firsts := seq(|paths|, i requires 0 <= i < |paths| && paths[i] != [] => paths[i][0]);
      var k :| 0 <= k < |firsts| && firsts[k] == r.value;
      assert paths[k][0] == r.value;
    }
  }

  /** The loop of `maximizePellets`: the greatest pellet count over the
      paths and the first step of the first path that reaches it. */
  method MostPellets(g: Grid<Unit>, occupancy: map<Square, seq<Unit>>, from: Square, paths: seq<seq<Direction>>)
    returns (maxPellets: nat, selected: Direction)
    requires |paths| > 0 && paths[0] != []
    ensures var counts := Counts(g, occupancy, from, paths);
      var i := FirstMaxIndex(counts);
      i < |paths| && paths[i] != [] && maxPellets == MaxOf(counts) && selected == paths[i][0]
  {
    ghost var counts := Counts(g, occupancy, from, paths);
    ghost var best := 0;
    maxPellets := 0;
    selected := paths[0][0];
    for k := 0 to |paths|
      invariant RunningMax(counts, k, maxPellets, best)
      invariant best < |paths| && paths[best] != [] && selected == paths[best][0]
    {
      var count := CountPellets(g, occupancy, from, paths[k]);
      assert count == counts[k];
      RunningMaxStep(counts, k, maxPellets, best);
      if count > maxPellets {
        maxPellets := count;
        selected := paths[k][0];
        best := k;
      }
    }
    RunningMaxDone(counts, maxPellets, best);
  }

  /** `maximizePellets`: the loop, then its fallback to the nearest pellet
      when no path passes one. */
  method MaximizePellets(g: Grid<Unit>, occupancy: map<Square, seq<Unit>>, from: Square, u: Unit,
                         paths: seq<seq<Direction>>, pelletAt: Option<Square>) returns (r: Result<Direction>)
    requires Valid(g) && OnBoard(g, from)
    ensures r == PelletChoice(g, occupancy, from, u, paths, pelletAt)
  {
    if |paths| == 0 || |paths[0]| == 0 {
      return Err(IndexOutOfBounds);
    }
    var maxPellets, selected := MostPellets(g, occupancy, from, paths);
    FirstMaxSpec(Counts(g, occupancy, from, paths));
    if maxPellets > 0 {
      return Ok(selected);
    }
    if pelletAt.None? {
      return Err(NullPointer);
    }
    var toPellet := ShortestPath(g, from, pelletAt.value, Some(u));
    if toPellet.None? {
      return Err(NullPointer);
    }
    if toPellet.value == [] {
      return Err(IndexOutOfBounds);
    }
    return FirstStepMatch(paths, toPellet.value[0], selected);
  }

  /** What `maximizePoints` answers for the unit `u` on `from`: the choice
      towards the nearest fruit when there is one, otherwise the pellet
      choice with the nearest pellet. */
  function PointsChoice(g: Grid<Unit>, occupancy: map<Square, seq<Unit>>, from: Square, u: Unit, paths: seq<seq<Direction>>): Result<Direction>
    requires Valid(g) && OnBoard(g, from)
  {
    match NearestSquare(g, occupancy, IsFruit, from)
    case Some(fruitAt) => FruitChoice(g, from, u, paths, fruitAt)
    case None => PelletChoice(g, occupancy, from, u, paths, NearestSquare(g, occupancy, IsPellet, from))
  }

  /** `maximizePoints(player, paths)`: the fruit is looked for first, then
      the pellet; `fruitAt` and `pelletAt` are where they were found, and
      the answer is `PointsChoice`. */
  method MaximizePoints(g: Grid<Unit>, occupancy: map<Square, seq<Unit>>, p: Player, paths: seq<seq<Direction>>)
    returns (r: Result<Direction>, fruitAt: Option<Square>, pelletAt: Option<Square>)
    requires Valid(g) && p.square.Some? && OnBoard(g, p.square.value)
    ensures fruitAt == NearestSquare(g, occupancy, IsFruit, p.square.value)
    ensures pelletAt == if fruitAt.Some? then None else NearestSquare(g, occupancy, IsPellet, p.square.value)
    ensures r == PointsChoice(g, occupancy, p.square.value, PlayerUnit(p), paths)
  {
    var from := p.square.value;
    fruitAt := Nearest(g, occupancy, IsFruit, from);
    if fruitAt.Some? {
      r := MaximizeFruits(g, from, PlayerUnit(p), paths, fruitAt.value);
      return r, fruitAt, None;
    }
    pelletAt := Nearest(g, occupancy, IsPellet, from);
    r := MaximizePellets(g, occupancy, from, PlayerUnit(p), paths, pelletAt);
  }

  /** `maximizeFruits`: the player's path to the fruit, then the first
      steps of all paths. */
  method MaximizeFruits(g: Grid<Unit>, from: Square, u: Unit, paths: seq<seq<Direction>>, fruitAt: Square)
    returns (r: Result<Direction>)
    requires Valid(g) && OnBoard(g, from)
    ensures r == FruitChoice(g, from, u, paths, fruitAt)
  {
    var toFruit := ShortestPath(g, from, fruitAt, Some(u));
    if toFruit.None? {
      return Err(NullPointer);
    }
    if toFruit.value == [] || !AllNonEmpty(paths) {
      return Err(IndexOutOfBounds);
    }
    var firsts := seq(|paths|, i requires 0 <= i < |paths| && paths[i] != [] => paths[i][0]);
    if toFruit.value[0] in firsts {
      return Ok(toFruit.value[0]);
    }
    if firsts == [] {
      return Err(IndexOutOfBounds);
    }
    return Ok(firsts[0]);
  }

  // ----------------------------------------------------------------------
  // fleeNearestGhost
  // ----------------------------------------------------------------------

  /** What `fleeNearestGhost` does once it has found a ghost, given the
      ghost's shortest path to the player (`null` when there is none): the
      ghost's first step when the player may go that way; otherwise the
      direction opposite to it is removed from the caller's list and the
      head of what is left is answered. The list after the call comes
      second. */
  function Escape(possible: seq<Direction>, toPlayer: Option<seq<Direction>>): (Result<Direction>, seq<Direction>) {
    match toPlayer
    case None => (Err(NullPointer), possible)
    case Some(path) =>
      if path == [] then (Err(IndexOutOfBounds), possible)
      else
        var ghostDirection := Opposite(path[0]);
        if Opposite(ghostDirection) in possible then (Ok(Opposite(ghostDirection)), possible)
        else
          var rest := RemoveFirst(possible, ghostDirection);
          if rest == [] then (Err(IndexOutOfBounds), rest) else (Ok(rest[0]), rest)
  }

  /** The flight answers one of the possible directions, and the list
      loses at most the direction opposite the ghost's first step. When
      the directions are distinct, the answer is never that opposite
      direction, and it is the ghost's own first step exactly when the
      player may go that way. */
  lemma EscapeSpec(possible: seq<Direction>, toPlayer: Option<seq<Direction>>)
    ensures Escape(possible, toPlayer).0.Ok? ==> Escape(possible, toPlayer).0.value in possible
    ensures multiset(Escape(possible, toPlayer).1) <= multiset(possible)
    ensures toPlayer.Some? && toPlayer.value != [] && Escape(possible, toPlayer).0.Ok? ==>
      (Escape(possible, toPlayer).0.value == toPlayer.value[0] <==> toPlayer.value[0] in possible)
    ensures toPlayer.Some? && toPlayer.value != [] && Distinct(possible) && Escape(possible, toPlayer).0.Ok? ==>
      Escape(possible, toPlayer).0.value != Opposite(toPlayer.value[0])
  {
    OppositesDiffer();
    if toPlayer.Some? && toPlayer.value != [] {
      var first := toPlayer.value[0];
      OppositeIsInvolution(first);
      var rest := RemoveFirst(possible, Opposite(first));
      if first !in possible && rest != [] {
        assert rest[0] in multiset(rest);
        if Distinct(possible) {
          RemoveDistinct(possible, Opposite(first));
        }
      }
    }
  }

  /** Every direction differs from its opposite. */
  lemma OppositesDiffer()
    ensures forall d :: Opposite(d) != d
  {
  }

  /** What `fleeNearestGhost` answers on `current`, with the caller's list
      after the call: the head of the list when no ghost is found; the
      escape from the nearest ghost, alive or not, otherwise. */
  function Flight(g: Grid<Unit>, occupancy: map<Square, seq<Unit>>, current: Square, possible: seq<Direction>): (Result<Direction>, seq<Direction>)
    requires Valid(g) && OnBoard(g, current)
  {
    NearestSquareSpec(g, occupancy, IsGhost, current);
    match NearestSquare(g, occupancy, IsGhost, current)
    case None => (if possible == [] then Err(IndexOutOfBounds) else Ok(possible[0]), possible)
    case Some(ghostAt) => Escape(possible, BfsPath(g, ghostAt, current, UnitOn(occupancy, IsGhost, ghostAt)))
  }

  /** `fleeNearestGhost(currentSquare, possibleDirections)`: the nearest
      ghost is looked for ignoring terrain, alive or not, and the answer
      and the list after the call are `Flight`. `ghostAt` is where the
      ghost was found. */
  method FleeNearestGhost(g: Grid<Unit>, occupancy: map<Square, seq<Unit>>, current: Square, possible: seq<Direction>)
    returns (r: Result<Direction>, remaining: seq<Direction>, ghostAt: Option<Square>)
    requires Valid(g) && OnBoard(g, current)
    ensures ghostAt == NearestSquare(g, occupancy, IsGhost, current)
    ensures (r, remaining) == Flight(g, occupancy, current, possible)
  {
    ghostAt := Nearest(g, occupancy, IsGhost, current);
    NearestSquareSpec(g, occupancy, IsGhost, current);
    if ghostAt.None? {
      if possible == [] {
        return Err(IndexOutOfBounds), possible, ghostAt;
      }
      return Ok(possible[0]), possible, ghostAt;
    }
    var npc := UnitOn(occupancy, IsGhost, ghostAt.value);
    var toPlayer := ShortestPath(g, ghostAt.value, current, npc);
    r, remaining := Escape(possible, toPlayer).0, Escape(possible, toPlayer).1;
  }
}
