/** The scripted player of strategies/PriorityToScoreStrategy.java: the
    chain of decisions of `nextMove()`. The shuffle of the possible
    directions and the iteration orders of the hash maps and of the ghost
    set are inputs of `NextMove`. */
module PriorityToScore {
  import opened Wrappers
  import opened Directions
  import opened Boards
  import opened Navigation
  import opened Units
  import opened GhostAI
  import opened Games
  import opened PacManAI
  import opened Lists

  /** The entries of `m`, in the order `order` visits their keys (the
      iteration order of a `HashMap`). */
  function Entries(m: map<Square, seq<Direction>>, order: seq<Square>): (es: seq<(Square, seq<Direction>)>)
    ensures forall i :: 0 <= i < |es| ==> es[i].0 in m && es[i].1 == m[es[i].0]
    ensures forall t :: t in m && t in order ==> exists i :: 0 <= i < |es| && es[i].0 == t
    decreases |order|
  {
    if order == [] then []
    else
      var es := Entries(m, order[..|order| - 1]);
      var t := order[|order| - 1];
      var r := if t in m then es + [(t, m[t])] else es;
      assert forall x :: x in m && x in order ==> exists i :: 0 <= i < |r| && r[i].0 == x by {
        forall x | x in m && x in order ensures exists i :: 0 <= i < |r| && r[i].0 == x {
          if x == t {
            assert r[|r| - 1].0 == x;
          } else {
            assert x in order[..|order| - 1];
            var i :| 0 <= i < |es| && es[i].0 == x;
            assert r[i] == es[i];
          }
        }
      }
      r
  }

  /** The values of `m`, in the order `order` visits their keys: each
      value listed belongs to `m`, and the value of every key `order`
      visits is listed. */
  function Listing(m: map<Square, seq<Direction>>, order: seq<Square>): (vs: seq<seq<Direction>>)
    ensures forall i :: 0 <= i < |vs| ==> vs[i] in m.Values
    ensures forall t :: t in m && t in order ==> m[t] in vs
  {
    var es := Entries(m, order);
    var vs := seq(|es|, i requires 0 <= i < |es| => es[i].1);
    assert forall t :: t in m && t in order ==> m[t] in vs by {
      forall t | t in m && t in order ensures m[t] in vs {
        var i :| 0 <= i < |es| && es[i].0 == t;
        assert vs[i] == m[t];
      }
    }
    vs
  }

  /** Every path is non-empty and starts with one of the directions. */
  ghost predicate Leading(paths: seq<seq<Direction>>, possible: seq<Direction>) {
    forall i :: 0 <= i < |paths| ==> paths[i] != [] && paths[i][0] in possible
  }

  /** Every path of the map is non-empty and starts with one of the
      directions. */
  ghost predicate LeadingMap(m: map<Square, seq<Direction>>, possible: seq<Direction>) {
    forall t :: t in m ==> m[t] != [] && m[t][0] in possible
  }

  /** The "dangerous" map keeps the entries whose key is in the safe map:
      it is the safe map itself, so the worth test is applied to the safe
      paths. */
  lemma DangerousIsSafe(g: Grid<Unit>, hunters: seq<Hunter>, possiblePaths: map<Square, seq<Direction>>)
    requires Valid(g) && Placed(g, hunters)
    ensures var safe := SafePaths(g, hunters, possiblePaths);
      (map t | t in possiblePaths && t in safe :: possiblePaths[t]) == safe
  {
    SafePathsSpec(g, hunters, possiblePaths);
  }

  /** The branch of `nextMove()` that gave the answer. */
  datatype Branch =
    | OnlyWay        // a single accessible direction
    | Ahead          // not at an intersection: keep going
    | Chase          // the nearest alive ghost is frightened: go for it
    | Blocked        // no unblocked path to an intersection
    | OnlyPath       // a single unblocked path
    | Flee           // no safe or worth path
    | OnlyCandidate  // a single safe or worth path
    | MostPoints     // several: the fruit, else the most pellets

  /** A path the player may take from `s` starts with a direction whose
      neighbour the player may enter. */
  lemma FirstStepAccessible(g: Grid<Unit>, u: Unit, s: Square, q: seq<Direction>)
    requires PathEnterable(g, Some(u), s, q) && q != []
    ensures q[0] in AccessibleDirections(g, s, u)
  {
    PathEnterablePrefix(g, Some(u), s, q, 1);
    assert q[..1] == [q[0]];
    assert FollowPath(g, s, q[..1]) == Step(g, s, q[0]) by {
      assert q[..1][..0] == [];
    }
    AccessibleDirectionsSpec(g, s, u);
  }

  /** A path the traveller may take may be cut short. */
  lemma {:induction false} PathEnterablePrefix(g: Grid<Unit>, traveller: Option<Unit>, s: Square, q: seq<Direction>, n: nat)
    requires PathEnterable(g, traveller, s, q) && n <= |q|
    ensures PathEnterable(g, traveller, s, q[..n])
    decreases |q| - n
  {
    if n < |q| {
      PathEnterablePrefix(g, traveller, s, q[..|q| - 1], n);
      assert q[..|q| - 1][..n] == q[..n];
    } else {
      assert q[..n] == q;
    }
  }

  /** The squares the ghosts stand on, in the order of the ghost set. */
  method HuntersOf(ghostOrder: seq<Ghost>) returns (hunters: seq<Hunter>)
    requires forall i :: 0 <= i < |ghostOrder| ==> ghostOrder[i].square.Some?
    ensures |hunters| == |ghostOrder|
    ensures hunters == Hunters(ghostOrder)
  {
    hunters := [];
    for i := 0 to |ghostOrder|
      invariant |hunters| == i
      invariant forall j :: 0 <= j < i ==> hunters[j] == Hunter(ghostOrder[j], ghostOrder[j].square.value)
    {
      hunters := hunters + [Hunter(ghostOrder[i], ghostOrder[i].square.value)];
    }
  }

  /** The ghosts of `ghostOrder` on their squares. */
  function Hunters(ghostOrder: seq<Ghost>): (hunters: seq<Hunter>)
    reads ghostOrder
    requires forall i :: 0 <= i < |ghostOrder| ==> ghostOrder[i].square.Some?
    ensures |hunters| == |ghostOrder|
    ensures forall i :: 0 <= i < |ghostOrder| ==> hunters[i] == Hunter(ghostOrder[i], ghostOrder[i].square.value)
    decreases |ghostOrder|
  {
    if ghostOrder == [] then []
    else
      var last := ghostOrder[|ghostOrder| - 1];
      Hunters(ghostOrder[..|ghostOrder| - 1]) + [Hunter(last, last.square.value)]
  }

  /** A direction answered by a helper, as `nextMove()` passes it on. */
  function Answered(d: Result<Direction>): Result<Option<Direction>> {
    match d
    case Ok(x) => Ok(Some(x))
    case Err(e) => Err(e)
  }

  /** The answer and branch of `nextMove()` for the player `u` on `s`:
      the single accessible direction, else the direction `facing` away
      from an intersection, else the decisions at an intersection. */
  ghost function Decision(g: Grid<Unit>, occupancy: map<Square, seq<Unit>>, s: Square, u: Unit, facing: Direction,
                          shuffled: seq<Direction>, hunters: seq<Hunter>, keyOrder: seq<Square>)
    : (Result<Option<Direction>>, Branch)
    reads *
    requires Valid(g) && OnBoard(g, s) && Placed(g, hunters)
  {
    var acc := AccessibleDirections(g, s, u);
    if |acc| == 1 then (Ok(Some(acc[0])), OnlyWay)
    else if !IsIntersection(g, u, s, facing) then (Ok(Some(facing)), Ahead)
    else IntersectionDecision(g, occupancy, s, u, shuffled, hunters, keyOrder)
  }

  /** At an intersection: the chase when it is decided, else the paths to
      the next intersections. */
  ghost function IntersectionDecision(g: Grid<Unit>, occupancy: map<Square, seq<Unit>>, s: Square, u: Unit,
                                      shuffled: seq<Direction>, hunters: seq<Hunter>, keyOrder: seq<Square>)
    : (Result<Option<Direction>>, Branch)
    reads *
    requires Valid(g) && OnBoard(g, s) && Placed(g, hunters)
  {
    var (r, chased) := Chased(g, occupancy, s, u);
    if chased then (r, Chase) else Towards(g, occupancy, s, u, shuffled, hunters, keyOrder)
  }

  /** The chase: the nearest alive ghost, when its game mode is not zero,
      is approached by the first step of the player's shortest path to
      it; no such path is a `NullPointerException`. The flag says whether
      the chase decided; it does not when no ghost is alive, when the
      ghost is not frightened or when the player stands on its square. */
  ghost function Chased(g: Grid<Unit>, occupancy: map<Square, seq<Unit>>, s: Square, u: Unit)
    : (Result<Option<Direction>>, bool)
    reads *
    requires Valid(g) && OnBoard(g, s)
  {
    match NearestGhostSquare(g, occupancy, s)
    case None => (Ok(None), false)
    case Some(at) =>
      var unit := UnitOn(occupancy, IsGhost, at);
      if unit.None? || !unit.value.GhostUnit? || unit.value.npc.gameMode == 0 then (Ok(None), false)
      else
        match BfsPath(g, s, at, Some(u))
        case None => (Err(NullPointer), true)
        case Some(path) => if path == [] then (Ok(None), false) else (Ok(Some(path[0])), true)
  }

  /** The path of a map with a single entry. */
  ghost function OnlyValue(m: map<Square, seq<Direction>>): seq<Direction>
    requires |m| == 1
  {
    assert m.Keys != {};
    var t :| t in m; m[t]
  }

  /** Any key of a map with a single entry leads to its only path. */
  lemma OnlyValueSpec(m: map<Square, seq<Direction>>, t: Square)
    requires |m| == 1 && t in m
    ensures OnlyValue(m) == m[t]
  {
    var t' :| t' in m && OnlyValue(m) == m[t'];
    assert |m.Keys| == 1;
    assert |m.Keys - {t}| == 0;
  }

  /** The paths to the next intersections that no ghost blocks: with none
      the player has no answer, a single one is taken (its empty path is an
      `IndexOutOfBoundsException`), more are filtered into candidates. */
  ghost function Towards(g: Grid<Unit>, occupancy: map<Square, seq<Unit>>, s: Square, u: Unit,
                         shuffled: seq<Direction>, hunters: seq<Hunter>, keyOrder: seq<Square>)
    : (Result<Option<Direction>>, Branch)
    requires Valid(g) && OnBoard(g, s) && Placed(g, hunters)
  {
    match NextIntersectionPaths(g, u, s, shuffled)
    case Err(e) => (Err(e), Blocked)
    case Ok(paths) =>
      var possiblePaths := UnblockedPaths(g, s, hunters, paths);
      if |possiblePaths| == 0 then (Ok(None), Blocked)
      else if |possiblePaths| == 1 then
        var only := OnlyValue(possiblePaths);
        (if only == [] then Err(IndexOutOfBounds) else Ok(Some(only[0])), OnlyPath)
      else
        match CandidatePaths(g, occupancy, s, hunters, keyOrder, possiblePaths)
        case Err(e) => (Err(e), MostPoints)
        case Ok(candidates) => Choice(g, occupancy, s, u, shuffled, candidates)
  }

  /** The candidates: the safe paths, then the worth paths among the
      paths whose key is safe. */
  function CandidatePaths(g: Grid<Unit>, occupancy: map<Square, seq<Unit>>, s: Square, hunters: seq<Hunter>,
                          keyOrder: seq<Square>, possiblePaths: map<Square, seq<Direction>>)
    : Result<seq<seq<Direction>>>
    requires Valid(g) && Placed(g, hunters)
  {
    var safePaths := SafePaths(g, hunters, possiblePaths);
    var dangerousPaths := map t | t in possiblePaths && t in safePaths :: possiblePaths[t];
    match GetWorthPaths(g, occupancy, s, hunters, Entries(dangerousPaths, keyOrder))
    case Err(e) => Err(e)
    case Ok(worth) => Ok(Listing(safePaths, keyOrder) + worth)
  }

  /** No candidate: flee the nearest ghost; one: take it (an empty path
      is an `IndexOutOfBoundsException`); more: maximise points. */
  function Choice(g: Grid<Unit>, occupancy: map<Square, seq<Unit>>, s: Square, u: Unit,
                  shuffled: seq<Direction>, candidates: seq<seq<Direction>>)
    : (Result<Option<Direction>>, Branch)
    requires Valid(g) && OnBoard(g, s)
  {
    if candidates == [] then (Answered(Flight(g, occupancy, s, shuffled).0), Flee)
    else if |candidates| == 1 then
      (if candidates[0] == [] then Err(IndexOutOfBounds) else Ok(Some(candidates[0][0])), OnlyCandidate)
    else (Answered(PointsChoice(g, occupancy, s, u, candidates)), MostPoints)
  }

  class PriorityToScoreStrategy {
    const game: Game
    const player: Player
    const ghosts: set<Ghost>

    /** The strategy of `player` in `game`; it keeps the level's ghosts. */
    constructor(game: Game, player: Player)
      ensures this.game == game && this.player == player && ghosts == game.level.Ghosts()
    {
      this.game := game;
      this.player := player;
      ghosts := game.level.Ghosts();
    }

    /** `nextMove()`. `shuffled` is the list of possible directions after
        `Collections.shuffle`; `ghostOrder` lists the ghost set in its
        iteration order and `keyOrder` the board squares in the iteration
        order of the maps. A single accessible direction is taken; away
        from an intersection the player keeps its direction. The answer is
        always an accessible direction, except the player's own direction
        when none is accessible. */
    method NextMove(shuffled: seq<Direction>, ghostOrder: seq<Ghost>, keyOrder: seq<Square>)
      returns (r: Result<Option<Direction>>, branch: Branch)
      requires Valid(game.level.grid)
      requires player.square.Some? && OnBoard(game.level.grid, player.square.value)
      requires multiset(shuffled) == multiset(AccessibleDirections(game.level.grid, player.square.value, PlayerUnit(player)))
      requires forall x :: x in ghostOrder <==> x in ghosts
      requires forall x :: x in ghosts ==> x.square.Some? && OnBoard(game.level.grid, x.square.value)
      requires Distinct(keyOrder) && forall t :: OnBoard(game.level.grid, t) ==> t in keyOrder
      ensures var acc := AccessibleDirections(game.level.grid, player.square.value, PlayerUnit(player));
        (branch == OnlyWay <==> |acc| == 1) &&
        (branch == OnlyWay ==> r == Ok(Some(acc[0])))
      ensures var acc := AccessibleDirections(game.level.grid, player.square.value, PlayerUnit(player));
        (branch == Ahead <==>
           |acc| != 1 && !IsIntersection(game.level.grid, PlayerUnit(player), player.square.value, player.direction)) &&
        (branch == Ahead ==> r == Ok(Some(player.direction)))
      ensures r.Ok? ==> (r.value.None? <==> branch == Blocked)
      ensures var acc := AccessibleDirections(game.level.grid, player.square.value, PlayerUnit(player));
        r.Ok? && r.value.Some? ==> r.value.value in acc || (acc == [] && r.value.value == player.direction)
      ensures (r, branch) == Decision(game.level.grid, game.level.occupancy, player.square.value, PlayerUnit(player),
                                      player.direction, shuffled, Hunters(ghostOrder), keyOrder)
    {
      var g := game.level.grid;
      var s := player.square.value;
      var u := PlayerUnit(player);
      var possible := PossibleDirections(g, player);
      if |possible| == 1 {
        return Ok(Some(possible[0])), OnlyWay;
      }
      if !IsIntersection(g, u, s, player.direction) {
        KeepGoing(g, u, s, player.direction);
        return Ok(Some(player.direction)), Ahead;
      }
      IntersectionSpec(g, u, s, player.direction);
      forall d | d in shuffled ensures d in possible {
        assert d in multiset(shuffled);
      }
      var hunters := HuntersOf(ghostOrder);
      r, branch := AtIntersection(game.level.occupancy, shuffled, hunters, keyOrder);
    }

    /** The decisions of `nextMove()` at an intersection: a frightened
        nearest ghost is chased; otherwise the unblocked paths to the next
        intersections are filtered into safe and worth paths. Every
        direction answered is one of `shuffled`. */
    method AtIntersection(occupancy: map<Square, seq<Unit>>, shuffled: seq<Direction>, hunters: seq<Hunter>,
                          keyOrder: seq<Square>)
      returns (r: Result<Option<Direction>>, branch: Branch)
      requires Valid(game.level.grid)
      requires player.square.Some? && OnBoard(game.level.grid, player.square.value)
      requires forall d :: d in shuffled ==> d in AccessibleDirections(game.level.grid, player.square.value, PlayerUnit(player))
      requires Placed(game.level.grid, hunters)
      ensures branch != OnlyWay && branch != Ahead
      ensures r.Ok? ==> (r.value.None? <==> branch == Blocked)
      ensures r.Ok? && r.value.Some? ==>
        r.value.value in shuffled ||
        (branch == Chase && r.value.value in AccessibleDirections(game.level.grid, player.square.value, PlayerUnit(player)))
      ensures (r, branch) == IntersectionDecision(game.level.grid, occupancy, player.square.value, PlayerUnit(player),
                                                  shuffled, hunters, keyOrder)
    {
      var chased, ghostAt;
      r, chased, ghostAt := ChaseNearestGhost(occupancy);
      if chased {
        return r, Chase;
      }
      r, branch := TowardsIntersections(occupancy, shuffled, hunters, keyOrder);
    }

    /** The first decision at an intersection: when the nearest alive
        ghost (`ghostAt`) is frightened, the player takes the first step
        of its shortest path to it, or fails when it has none. `chased` is
        false when no ghost was found, when it is not frightened, or when
        the player already stands on its square. */
    method ChaseNearestGhost(occupancy: map<Square, seq<Unit>>)
      returns (r: Result<Option<Direction>>, chased: bool, ghostAt: Option<Square>)
      requires Valid(game.level.grid)
      requires player.square.Some? && OnBoard(game.level.grid, player.square.value)
      ensures chased ==> ghostAt.Some? && OnBoard(game.level.grid, ghostAt.value)
      ensures chased ==> (
        var unit := UnitOn(occupancy, IsGhost, ghostAt.value);
        unit.Some? && unit.value.GhostUnit? && unit.value.npc.alive && unit.value.npc.gameMode != 0)
      ensures chased ==> (
        var toGhost := BfsPath(game.level.grid, player.square.value, ghostAt.value, Some(PlayerUnit(player)));
        (toGhost.None? ==> r == Err(NullPointer)) &&
        (toGhost.Some? ==> toGhost.value != [] && r == Ok(Some(toGhost.value[0]))))
      ensures chased && r.Ok? ==>
        r.value.Some? && r.value.value in AccessibleDirections(game.level.grid, player.square.value, PlayerUnit(player))
      ensures ghostAt == NearestGhostSquare(game.level.grid, occupancy, player.square.value)
      ensures (r, chased) == Chased(game.level.grid, occupancy, player.square.value, PlayerUnit(player))
    {
      var g := game.level.grid;
      var s := player.square.value;
      var u := PlayerUnit(player);
      var npc, at := FindNearestGhost(g, occupancy, s);
      if npc.None? {
        return Ok(None), false, None;
      }
      var toGhost := ShortestPath(g, s, at, Some(u));
      if npc.value.gameMode != 0 {
        if toGhost.None? {
          return Err(NullPointer), true, Some(at);
        }
        if |toGhost.value| > 0 {
          BfsPathSound(g, s, at, Some(u));
          FirstStepAccessible(g, u, s, toGhost.value);
          return Ok(Some(toGhost.value[0])), true, Some(at);
        }
      }
      return Ok(None), false, Some(at);
    }

    /** The paths to the next intersections that no ghost blocks: none
        leaves the player without an answer, a single one is taken, and
        more are filtered by `Candidates`. */
    method TowardsIntersections(occupancy: map<Square, seq<Unit>>, shuffled: seq<Direction>, hunters: seq<Hunter>,
                                keyOrder: seq<Square>)
      returns (r: Result<Option<Direction>>, branch: Branch)
      requires Valid(game.level.grid)
      requires player.square.Some? && OnBoard(game.level.grid, player.square.value)
      requires Placed(game.level.grid, hunters)
      ensures branch in {Blocked, OnlyPath, Flee, OnlyCandidate, MostPoints}
      ensures r.Ok? ==> (r.value.None? <==> branch == Blocked)
      ensures r.Ok? && r.value.Some? ==> r.value.value in shuffled
      ensures (r, branch) == Towards(game.level.grid, occupancy, player.square.value, PlayerUnit(player),
                                     shuffled, hunters, keyOrder)
    {
      var g := game.level.grid;
      var s := player.square.value;
      var u := PlayerUnit(player);
      var paths := PathsToNextIntersections(g, player, shuffled);
      if paths.Err? {
        return Err(paths.error), Blocked;
      }
      NextIntersectionPathsSpec(g, u, s, shuffled);
      var possiblePaths := UnblockedPaths(g, s, hunters, paths.value);
      UnblockedPathsSpec(g, s, hunters, paths.value);
      assert LeadingMap(possiblePaths, shuffled);
      if |possiblePaths| == 0 {
        return Ok(None), Blocked;
      }
      if |possiblePaths| == 1 {
        var t :| t in possiblePaths;
        OnlyValueSpec(possiblePaths, t);
        return Ok(Some(possiblePaths[t][0])), OnlyPath;
      }
      r, branch := Candidates(occupancy, shuffled, hunters, keyOrder, possiblePaths);
    }

    /** The end of `nextMove()`: the safe paths and the worth paths among
        them are the candidates; with none the player flees the nearest
        ghost, with one it takes it, with more it maximises points. */
    method Candidates(occupancy: map<Square, seq<Unit>>, shuffled: seq<Direction>, hunters: seq<Hunter>,
                      keyOrder: seq<Square>, possiblePaths: map<Square, seq<Direction>>)
      returns (r: Result<Option<Direction>>, branch: Branch)
      requires Valid(game.level.grid)
      requires player.square.Some? && OnBoard(game.level.grid, player.square.value)
      requires Placed(game.level.grid, hunters)
      requires LeadingMap(possiblePaths, shuffled)
      ensures branch == Flee || branch == OnlyCandidate || branch == MostPoints
      ensures r.Ok? ==> r.value.Some? && r.value.value in shuffled
      ensures var candidates := CandidatePaths(game.level.grid, occupancy, player.square.value, hunters, keyOrder, possiblePaths);
        (candidates.Err? ==> r == Err(candidates.error) && branch == MostPoints) &&
        (candidates.Ok? ==> (r, branch) == Choice(game.level.grid, occupancy, player.square.value, PlayerUnit(player),
                                                  shuffled, candidates.value))
    {
      var g := game.level.grid;
      var s := player.square.value;
      var safePaths := SafePaths(g, hunters, possiblePaths);
      SafePathsSpec(g, hunters, possiblePaths);
      var dangerousPaths := map t | t in possiblePaths && t in safePaths :: possiblePaths[t];
      var worth := WorthPaths(g, occupancy, s, hunters, Entries(dangerousPaths, keyOrder));
      GetWorthPathsSpec(g, occupancy, s, hunters, Entries(dangerousPaths, keyOrder));
      if worth.Err? {
        return Err(worth.error), MostPoints;
      }
      var candidates := Listing(safePaths, keyOrder) + worth.value;
      assert Leading(candidates, shuffled) by {
        forall i | 0 <= i < |candidates| ensures candidates[i] != [] && candidates[i][0] in shuffled {
          if i < |Listing(safePaths, keyOrder)| {
            assert candidates[i] == Listing(safePaths, keyOrder)[i];
          } else {
            assert candidates[i] in worth.value;
          }
        }
      }
      r, branch := Choose(occupancy, shuffled, candidates);
    }

    /** The last three branches of `nextMove()`. */
    method Choose(occupancy: map<Square, seq<Unit>>, shuffled: seq<Direction>, candidates: seq<seq<Direction>>)
      returns (r: Result<Option<Direction>>, branch: Branch)
      requires Valid(game.level.grid)
      requires player.square.Some? && OnBoard(game.level.grid, player.square.value)
      requires Leading(candidates, shuffled)
      ensures branch == Flee <==> candidates == []
      ensures branch == OnlyCandidate <==> |candidates| == 1
      ensures branch == OnlyCandidate ==> r == Ok(Some(candidates[0][0]))
      ensures branch == Flee || branch == OnlyCandidate || branch == MostPoints
      ensures r.Ok? ==> r.value.Some? && r.value.value in shuffled
      ensures (r, branch) == Choice(game.level.grid, occupancy, player.square.value, PlayerUnit(player), shuffled, candidates)
    {
      var g := game.level.grid;
      var s := player.square.value;
      if candidates == [] {
        var d, remaining, ghostAt := FleeNearestGhost(g, occupancy, s, shuffled);
        NearestSquareSpec(g, occupancy, IsGhost, s);
        if ghostAt.Some? {
          EscapeSpec(shuffled, BfsPath(g, ghostAt.value, s, UnitOn(occupancy, IsGhost, ghostAt.value)));
        }
        return if d.Ok? then Ok(Some(d.value)) else Err(d.error), Flee;
      }
      if |candidates| == 1 {
        return Ok(Some(candidates[0][0])), OnlyCandidate;
      }
      var d, fruitAt, pelletAt := MaximizePoints(g, occupancy, player, candidates);
      if fruitAt.Some? {
        FruitChoiceAmongFirstSteps(g, s, PlayerUnit(player), candidates, fruitAt.value);
      } else {
        PelletChoiceAmongFirstSteps(g, occupancy, s, PlayerUnit(player), candidates, pelletAt);
      }
      return if d.Ok? then Ok(Some(d.value)) else Err(d.error), MostPoints;
    }
  }

  /** Away from an intersection the player's direction is accessible
      whenever two directions or more are, and none is accessible when
      none of the others is. */
  lemma KeepGoing(g: Grid<Unit>, u: Unit, s: Square, d: Direction)
    requires !IsIntersection(g, u, s, d)
    ensures |AccessibleDirections(g, s, u)| >= 2 ==> d in AccessibleDirections(g, s, u)
  {
    IntersectionSpec(g, u, s, d);
    var acc := AccessibleDirections(g, s, u);
    AccessibleDirectionsSpec(g, s, u);
    if |acc| >= 2 {
      assert acc[0] != acc[1];
      assert acc[0] == d || acc[1] == d;
    }
  }
}
