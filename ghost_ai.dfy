/** How a ghost chooses its next move (npc/Ghost.java, npc/ghost/Clyde.java,
    npc/ghost/Inky.java, npc/ghost/RandomGhost.java). The random draws of
    `new Random().nextInt(n)` are inputs. The AI of Blinky and Pinky is
    not part of this model: their answer is an input. */
module GhostAI {
  import opened Wrappers
  import opened Directions
  import opened Boards
  import opened Nodes
  import opened Navigation
  import opened Units

  // ----------------------------------------------------------------------
  // randomMove
  // ----------------------------------------------------------------------

  /** `directions.get(new Random().nextInt(directions.size()))`, with `draw`
      the number the generator answers; nothing when the list is empty. */
  function RandomPick(ds: seq<Direction>, draw: nat): (r: Option<Direction>)
    ensures r.None? <==> ds == []
    ensures r.Some? ==> r.value in ds
  {
    if ds == [] then None else Some(ds[draw % |ds|])
  }

  /** Every candidate is picked for some draw. */
  lemma RandomPickCovers(ds: seq<Direction>, d: Direction)
    requires d in ds
    ensures exists draw: nat :: RandomPick(ds, draw) == Some(d)
  {
    var i :| 0 <= i < |ds| && ds[i] == d;
    assert RandomPick(ds, i) == Some(d);
  }

  /** `randomMove()`: nothing exactly when the ghost is shut in; otherwise
      a direction whose neighbour square the ghost may enter, and each
      such direction for some draw. */
  lemma RandomMoveSpec(g: Grid<Unit>, s: Square, npc: Ghost, draw: nat)
    ensures RandomPick(AccessibleDirections(g, s, GhostUnit(npc)), draw).None? <==>
              forall d :: !g.accessible(Step(g, s, d), GhostUnit(npc))
    ensures RandomPick(AccessibleDirections(g, s, GhostUnit(npc)), draw).Some? ==>
              g.accessible(Step(g, s, RandomPick(AccessibleDirections(g, s, GhostUnit(npc)), draw).value), GhostUnit(npc))
    ensures forall d :: g.accessible(Step(g, s, d), GhostUnit(npc)) ==>
              exists k: nat :: RandomPick(AccessibleDirections(g, s, GhostUnit(npc)), k) == Some(d)
  {
    AccessibleDirectionsSpec(g, s, GhostUnit(npc));
    var ds := AccessibleDirections(g, s, GhostUnit(npc));
    forall d | g.accessible(Step(g, s, d), GhostUnit(npc))
      ensures exists k: nat :: RandomPick(ds, k) == Some(d)
    {
      RandomPickCovers(ds, d);
    }
  }

  /** `randomMove()` of a ghost on a square: the accessible directions are
      collected in enumeration order and one of them is drawn. */
  method RandomMove(g: Grid<Unit>, npc: Ghost, draw: nat) returns (r: Option<Direction>)
    requires npc.square.Some?
    ensures r == RandomPick(AccessibleDirections(g, npc.square.value, GhostUnit(npc)), draw)
  {
    var square := npc.square.value;
    var directions: seq<Direction> := [];
    var values := Values();
    for i := 0 to |values|
      invariant directions == AccessibleAmong(g, square, GhostUnit(npc), values[..i])
    {
      AccessibleAmongSnoc(g, square, GhostUnit(npc), values[..i], values[i]);
      assert values[..i + 1] == values[..i] + [values[i]];
      if g.accessible(Step(g, square, values[i]), GhostUnit(npc)) {
        directions := directions + [values[i]];
      }
    }
    assert values[..|values|] == values;
    if directions == [] {
      return None;
    }
    r := Some(directions[draw % |directions|]);
  }

  // ----------------------------------------------------------------------
  // The nearest unit of a type, as `findNearest` answers it
  // ----------------------------------------------------------------------

  /** `findNearest(type, start)` followed by `getSquare()` on its answer:
      the square `NearestSquare` names. */
  method Nearest(g: Grid<Unit>, occupancy: map<Square, seq<Unit>>, isType: Unit -> bool, start: Square)
    returns (found: Option<Square>)
    requires Valid(g) && OnBoard(g, start)
    ensures found == NearestSquare(g, occupancy, isType, start)
  {
    var unit, at := FindNearest(g, occupancy, isType, start);
    if unit.None? {
      return None;
    }
    return Some(at);
  }

  // ----------------------------------------------------------------------
  // Clyde
  // ----------------------------------------------------------------------

  /** Clyde's `OPPOSITES` table. */
  const Opposites: map<Direction, Direction> := map[North := South, South := North, West := East, East := West]

  /** The table has an entry for each of the four directions, agrees with
      `getOpposite` and undoes itself. */
  lemma OppositesTable()
    ensures forall d :: d in Opposites
    ensures forall d :: Opposites[d] == Opposite(d) && Opposites[Opposites[d]] == d
  {
    forall d ensures d in Opposites && Opposites[d] == Opposite(d) {
      match d
      case North =>
      case South =>
      case West =>
      case East =>
    }
    forall d ensures Opposites[Opposites[d]] == d {
      OppositeIsInvolution(d);
    }
  }

  /** What Clyde answers for the shortest path `path` from its square to
      the nearest player: nothing without a non-empty path; the way back
      from the first step while the player is `shyness` steps away or
      nearer; the first step otherwise. */
  function ShyStep(path: Option<seq<Direction>>, shyness: int): (r: Option<Direction>)
  {
    if path.Some? && path.value != [] then
      var direction := path.value[0];
      if |path.value| <= shyness then
        if direction in Opposites then Some(Opposites[direction]) else None
      else Some(direction)
    else None
  }

  /** Clyde turns round while the player is close and heads for it
      otherwise; the table lookup never misses. */
  lemma ShyStepSpec(path: Option<seq<Direction>>, shyness: int)
    ensures ShyStep(path, shyness).None? <==> path.None? || path.value == []
    ensures path.Some? && path.value != [] && |path.value| <= shyness ==>
              ShyStep(path, shyness) == Some(Opposite(path.value[0]))
    ensures path.Some? && path.value != [] && |path.value| > shyness ==>
              ShyStep(path, shyness) == Some(path.value[0])
  {
    OppositesTable();
  }

  /** What Clyde answers on `from`: nothing when no player can be found;
      otherwise its answer for its own shortest path (with its own terrain
      rule) to the square of the nearest player. */
  function ClydeMove(g: Grid<Unit>, occupancy: map<Square, seq<Unit>>, npc: Ghost, from: Square, shyness: int): Option<Direction>
    requires Valid(g) && OnBoard(g, from)
  {
    match NearestSquare(g, occupancy, IsPlayer, from)
    case None => None
    case Some(target) => ShyStep(BfsPath(g, from, target, Some(GhostUnit(npc))), shyness)
  }

  /** `Clyde.nextAiMove()`: `target` is the square of the nearest player,
      and the answer is `ClydeMove`. */
  method ClydeNextAiMove(g: Grid<Unit>, occupancy: map<Square, seq<Unit>>, npc: Ghost, shyness: int)
    returns (r: Option<Direction>, target: Option<Square>)
    requires Valid(g) && npc.square.Some? && OnBoard(g, npc.square.value)
    ensures target == NearestSquare(g, occupancy, IsPlayer, npc.square.value)
    ensures r == ClydeMove(g, occupancy, npc, npc.square.value, shyness)
  {
    var square := npc.square.value;
    target := Nearest(g, occupancy, IsPlayer, square);
    if target.None? {
      return None, target;
    }
    var path := ShortestPath(g, square, target.value, Some(GhostUnit(npc)));
    if path.Some? && path.value != [] {
      var direction := path.value[0];
      if |path.value| <= shyness {
        r := if direction in Opposites then Some(Opposites[direction]) else None;
        return;
      }
      return Some(direction), target;
    }
    return None, target;
  }

  // ----------------------------------------------------------------------
  // Inky
  // ----------------------------------------------------------------------

  /** `followPath(directions, start)`: the square reached by taking the
      steps one after the other. */
  method FollowSteps(g: Grid<Unit>, directions: seq<Direction>, start: Square) returns (destination: Square)
    ensures destination == FollowPath(g, start, directions)
  {
    destination := start;
    for i := 0 to |directions|
      invariant destination == FollowPath(g, start, directions[..i])
    {
      assert directions[..i + 1][..i] == directions[..i];
      destination := Step(g, destination, directions[i]);
    }
    assert directions[..|directions|] == directions;
  }

  /** The square Inky aims at: the path from Blinky's square to the square
      `ahead` of the player, found ignoring terrain, walked once more from
      `ahead`; nothing when there is no such path. */
  function InkyTarget(g: Grid<Unit>, blinkyAt: Square, ahead: Square): (r: Option<Square>)
    requires Valid(g) && OnBoard(g, blinkyAt)
  {
    match BfsPath(g, blinkyAt, ahead, None)
    case None => None
    case Some(firstHalf) => Some(FollowPath(g, ahead, firstHalf))
  }

  /** Inky's target lies as far beyond `ahead` as `ahead` lies from
      Blinky, along the same steps: the walk from Blinky to the target
      goes through `ahead`. With Blinky on the square ahead, Inky aims at
      that square. */
  lemma InkyTargetSpec(g: Grid<Unit>, blinkyAt: Square, ahead: Square)
    requires Valid(g) && OnBoard(g, blinkyAt)
    ensures InkyTarget(g, blinkyAt, ahead).None? <==> !Reachable(g, None, blinkyAt, ahead)
    ensures InkyTarget(g, blinkyAt, ahead).Some? ==>
      exists h :: FollowPath(g, blinkyAt, h) == ahead &&
                  FollowPath(g, blinkyAt, h + h) == InkyTarget(g, blinkyAt, ahead).value
    ensures blinkyAt == ahead ==> InkyTarget(g, blinkyAt, ahead) == Some(ahead)
  {
    BfsPathSound(g, blinkyAt, ahead, None);
    var r := BfsPath(g, blinkyAt, ahead, None);
    if r.Some? {
      FollowPathAppend(g, blinkyAt, r.value, r.value);
    }
  }

  /** Inky's answer for Blinky found on `blinkyAt` and the player found
      on `playerAt`: the first step of its own shortest path (with its own
      terrain rule) to its target; nothing when one of the two is missing
      or there is no target. */
  function InkyStep(g: Grid<Unit>, occupancy: map<Square, seq<Unit>>, from: Square, npc: Ghost,
                    blinkyAt: Option<Square>, playerAt: Option<Square>, aheadOf: Unit -> Square): Option<Direction>
    requires Valid(g) && OnBoard(g, from)
    requires blinkyAt.Some? ==> OnBoard(g, blinkyAt.value)
  {
    if blinkyAt.None? || playerAt.None? || UnitOn(occupancy, IsPlayer, playerAt.value).None? then None
    else
      var ahead := aheadOf(UnitOn(occupancy, IsPlayer, playerAt.value).value);
      match InkyTarget(g, blinkyAt.value, ahead)
      case None => None
      case Some(destination) => NextDirection(g, from, destination, Some(GhostUnit(npc)))
  }

  /** What Inky answers on `from`, with Blinky and the player the nearest
      ones found from there, ignoring terrain. */
  function InkyMove(g: Grid<Unit>, occupancy: map<Square, seq<Unit>>, npc: Ghost, from: Square, aheadOf: Unit -> Square): Option<Direction>
    requires Valid(g) && OnBoard(g, from)
  {
    NearestSquareSpec(g, occupancy, IsBlinky, from);
    InkyStep(g, occupancy, from, npc, NearestSquare(g, occupancy, IsBlinky, from), NearestSquare(g, occupancy, IsPlayer, from), aheadOf)
  }

  /** `Inky.nextAiMove()`: `blinkyAt` and `playerAt` are the squares of
      the nearest Blinky and player, and the answer is `InkyMove`.
      `aheadOf` is the board's `squaresAheadOf(SQUARES_AHEAD)` of the
      player, which is not part of this model. */
  method InkyNextAiMove(g: Grid<Unit>, occupancy: map<Square, seq<Unit>>, npc: Ghost, aheadOf: Unit -> Square)
    returns (r: Option<Direction>, blinkyAt: Option<Square>, playerAt: Option<Square>)
    requires Valid(g) && npc.square.Some? && OnBoard(g, npc.square.value)
    ensures blinkyAt == NearestSquare(g, occupancy, IsBlinky, npc.square.value)
    ensures playerAt == NearestSquare(g, occupancy, IsPlayer, npc.square.value)
    ensures r == InkyMove(g, occupancy, npc, npc.square.value, aheadOf)
  {
    var square := npc.square.value;
    blinkyAt := Nearest(g, occupancy, IsBlinky, square);
    playerAt := Nearest(g, occupancy, IsPlayer, square);
    NearestSquareSpec(g, occupancy, IsBlinky, square);
    NearestSquareSpec(g, occupancy, IsPlayer, square);
    assert InkyMove(g, occupancy, npc, square, aheadOf) == InkyStep(g, occupancy, square, npc, blinkyAt, playerAt, aheadOf);
    if blinkyAt.None? || playerAt.None? {
      return None, blinkyAt, playerAt;
    }
    var player := UnitOn(occupancy, IsPlayer, playerAt.value).value;
    var playerDestination := aheadOf(player);
    var firstHalf := ShortestPath(g, blinkyAt.value, playerDestination, None);
    if firstHalf.None? {
      assert InkyTarget(g, blinkyAt.value, playerDestination).None?;
      return None, blinkyAt, playerAt;
    }
    var destination := FollowSteps(g, firstHalf.value, playerDestination);
    assert InkyTarget(g, blinkyAt.value, playerDestination) == Some(destination);
    r := NextDirection(g, square, destination, Some(GhostUnit(npc)));
  }

  // ----------------------------------------------------------------------
  // nextMove
  // ----------------------------------------------------------------------

  /** What a ghost's own AI needs besides the board: Clyde's `SHYNESS`,
      Inky's view of the square ahead of a player, and the answer of
      Blinky's or Pinky's AI. */
  datatype Tuning = Tuning(shyness: int, aheadOf: Unit -> Square, chaseMove: Option<Direction>)

  /** `nextAiMove()` of the ghost's kind on `from`: Clyde's and Inky's
      own AI, the given answer for Blinky and Pinky, none for a
      `RandomGhost`. */
  function AiMove(g: Grid<Unit>, occupancy: map<Square, seq<Unit>>, npc: Ghost, from: Square, tuning: Tuning): Option<Direction>
    requires Valid(g) && OnBoard(g, from)
  {
    match npc.kind
    case Clyde => ClydeMove(g, occupancy, npc, from, tuning.shyness)
    case Inky => InkyMove(g, occupancy, npc, from, tuning.aheadOf)
    case RandomGhost => None
    case _ => tuning.chaseMove
  }

  /** `nextAiMove()` of the ghost's kind: `AiMove` on the ghost's square. */
  method NextAiMove(g: Grid<Unit>, occupancy: map<Square, seq<Unit>>, npc: Ghost, tuning: Tuning)
    returns (r: Option<Direction>)
    requires Valid(g) && npc.square.Some? && OnBoard(g, npc.square.value)
    ensures r == AiMove(g, occupancy, npc, npc.square.value, tuning)
  {
    match npc.kind
    case Clyde =>
      var target;
      r, target := ClydeNextAiMove(g, occupancy, npc, tuning.shyness);
    case Inky =>
      var blinkyAt, playerAt;
      r, blinkyAt, playerAt := InkyNextAiMove(g, occupancy, npc, tuning.aheadOf);
    case RandomGhost =>
      r := None;
    case _ =>
      r := tuning.chaseMove;
  }

  /** What `nextMove()` answers for a ghost: a dead ghost heads home
      along its own shortest path; an alive ghost in a hunting mode moves
      at random; an alive chasing ghost follows its AI. Wherever the first
      choice gives nothing, the ghost moves at random. */
  function NextMoveOf(g: Grid<Unit>, occupancy: map<Square, seq<Unit>>, npc: Ghost, tuning: Tuning, draw: nat): Option<Direction>
    reads npc
    requires Valid(g) && npc.square.Some? && OnBoard(g, npc.square.value)
  {
    var from := npc.square.value;
    var random := RandomPick(AccessibleDirections(g, from, GhostUnit(npc)), draw);
    var first :=
      if !npc.alive then NextDirection(g, from, npc.initialPosition, Some(GhostUnit(npc)))
      else if npc.gameMode != 0 then None
      else AiMove(g, occupancy, npc, from, tuning);
    if first.Some? then first else random
  }

  /** `nextMove()`: the answer is `NextMoveOf`; `ai` is what the ghost's
      AI answered, and nothing when it was not asked, which is exactly
      when the ghost is dead or not chasing. */
  method NextMove(g: Grid<Unit>, occupancy: map<Square, seq<Unit>>, npc: Ghost, tuning: Tuning, draw: nat)
    returns (r: Option<Direction>, ai: Option<Direction>)
    requires Valid(g) && npc.square.Some? && OnBoard(g, npc.square.value)
    ensures r == NextMoveOf(g, occupancy, npc, tuning, draw)
    ensures ai == if npc.alive && npc.gameMode == 0 then AiMove(g, occupancy, npc, npc.square.value, tuning) else None
  {
    ai := None;
    if !npc.alive {
      var home := NextDirection(g, npc.square.value, npc.initialPosition, Some(GhostUnit(npc)));
      if home.Some? {
        return home, ai;
      }
      r := RandomMove(g, npc, draw);
    } else if npc.gameMode != 0 {
      r := RandomMove(g, npc, draw);
    } else {
      ai := NextAiMove(g, occupancy, npc, tuning);
      if ai.Some? {
        return ai, ai;
      }
      r := RandomMove(g, npc, draw);
    }
  }

  /** A dead ghost that can reach its initial square takes the first step
      of a shortest way home it may take, and stands still on arrival only
      when it is shut in. */
  lemma DeadGhostGoesHome(g: Grid<Unit>, npc: Ghost, from: Square, draw: nat)
    requires Valid(g) && OnBoard(g, from)
    requires from != npc.initialPosition && Reachable(g, Some(GhostUnit(npc)), from, npc.initialPosition)
    ensures var home := NextDirection(g, from, npc.initialPosition, Some(GhostUnit(npc)));
      home.Some? &&
      exists p :: p != [] && p[0] == home.value &&
        PathEnterable(g, Some(GhostUnit(npc)), from, p) && FollowPath(g, from, p) == npc.initialPosition
  {
    NextDirectionSpec(g, from, npc.initialPosition, Some(GhostUnit(npc)));
  }
}
