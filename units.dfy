/** The units of a level: the player (level/unit/Player.java), the ghosts
    (npc/Ghost.java and its kinds), pellets and fruits. Players and ghosts
    are objects whose fields the game updates in place; pellets and fruits
    never change and are values. The square a unit stands on and the
    direction it faces belong to the board's `Unit` class, which is not
    part of this model; they are kept here as fields of the two moving
    units. */
module Units {
  import opened Wrappers
  import opened Directions
  import opened Boards

  /** Java's `byte`, the type of every game mode. */
  type Byte = b: int | -128 <= b < 128

  /** A pellet (level/unit/Pellet.java): a power flag and a point value. */
  datatype Pellet = Pellet(power: bool, value: int)

  /** A fruit (level/unit/Fruit.java): a point value. */
  datatype Fruit = Fruit(value: int)

  /** The player's `PacManStrategy`: none set yet (`null`), the keyboard
      (`HumanStrategy`), or a computed strategy whose answer the caller
      supplies. */
  datatype Strategy = NoStrategy | Human | Automatic

  /** The kinds of ghost `LevelFactory` creates. */
  datatype GhostKind = Blinky | Inky | Pinky | Clyde | RandomGhost

  /** Identity of a unit on the board. Players and ghosts are compared by
      reference; a pellet or a fruit carries a number standing for its
      object identity. */
  datatype Unit =
    | PlayerUnit(player: Player)
    | GhostUnit(npc: Ghost)
    | PelletUnit(id: nat, pellet: Pellet)
    | FruitUnit(id: nat, fruit: Fruit)

  predicate IsPlayer(u: Unit) { u.PlayerUnit? }
  predicate IsGhost(u: Unit) { u.GhostUnit? }
  predicate IsPellet(u: Unit) { u.PelletUnit? }
  predicate IsFruit(u: Unit) { u.FruitUnit? }
  predicate IsBlinky(u: Unit) { u.GhostUnit? && u.npc.kind == Blinky }

  /** A unit that moves on its own: a player or a ghost. */
  predicate IsMover(u: Unit) { u.PlayerUnit? || u.GhostUnit? }

  /** The object behind a moving unit. */
  function MoverObject(u: Unit): set<object> {
    match u
    case PlayerUnit(p) => {p}
    case GhostUnit(g) => {g}
    case _ => {}
  }

  /** `getSquare()` of a moving unit; `None` before it occupies a square. */
  function SquareOf(u: Unit): Option<Square>
    requires IsMover(u)
    reads MoverObject(u)
  {
    if u.PlayerUnit? then u.player.square else u.npc.square
  }

  /** `getDirection()` of a moving unit. */
  function FacingOf(u: Unit): Direction
    requires IsMover(u)
    reads MoverObject(u)
  {
    if u.PlayerUnit? then u.player.direction else u.npc.direction
  }

  // ----------------------------------------------------------------------
  // The player's score and lives
  // ----------------------------------------------------------------------

  /** Score, remaining lives and whether the extra life has been granted. */
  datatype Tally = Tally(score: int, lifes: int, extraLife: bool)

  /** `addPoints(points)`, with the `gainExtraLife` it may trigger: the
      score grows by exactly `points`; the first time the score reaches
      `threshold` (`SCORE_GAIN_EXTRA_LIFE`) one life is added, and never
      again after that. */
  function AddedPoints(t: Tally, points: int, threshold: int): (r: Tally)
    ensures r.score == t.score + points
    ensures r.extraLife <==> t.extraLife || t.score + points >= threshold
    ensures r.lifes == t.lifes + (if r.extraLife && !t.extraLife then 1 else 0)
  {
    var score := t.score + points;
    if !t.extraLife && score >= threshold then Tally(score, t.lifes + 1, true)
    else t.(score := score)
  }

  /** A run of `addPoints` calls, the last call last. */
  function AddedAll(t: Tally, points: seq<int>, threshold: int): Tally
    decreases |points|
  {
    if points == [] then t
    else AddedPoints(AddedAll(t, points[..|points| - 1], threshold), points[|points| - 1], threshold)
  }

  function Sum(xs: seq<int>): int
    decreases |xs|
  {
    if xs == [] then 0 else Sum(xs[..|xs| - 1]) + xs[|xs| - 1]
  }

  /** Over any run of `addPoints` calls the score grows by their sum and at
      most one life is gained: exactly one when the extra life was still
      to come and the running score reached the threshold after some
      call. */
  lemma {:induction false} ExtraLifeOnce(t: Tally, points: seq<int>, threshold: int)
    ensures AddedAll(t, points, threshold).score == t.score + Sum(points)
    ensures AddedAll(t, points, threshold).extraLife <==>
              t.extraLife || exists k :: 1 <= k <= |points| && t.score + Sum(points[..k]) >= threshold
    ensures AddedAll(t, points, threshold).lifes ==
              t.lifes + (if AddedAll(t, points, threshold).extraLife && !t.extraLife then 1 else 0)
    decreases |points|
  {
    if points != [] {
      var n := |points|;
      var init := points[..n - 1];
      ExtraLifeOnce(t, init, threshold);
      assert points[..n] == points;
      forall k | 1 <= k <= n - 1 ensures points[..k] == init[..k] { }
    }
  }

  /** The fields of a player, as one value. */
  datatype PlayerFields = PlayerFields(score: int, alive: bool, kills: int, lifes: int, extraLife: bool,
                                       strategy: Strategy, direction: Direction, square: Option<Square>)

  function TallyOf(f: PlayerFields): Tally {
    Tally(f.score, f.lifes, f.extraLife)
  }

  function WithTally(f: PlayerFields, t: Tally): PlayerFields {
    f.(score := t.score, lifes := t.lifes, extraLife := t.extraLife)
  }

  /** A player (level/unit/Player.java). `lifesAtStart`, `extraLifeScore`
      and `moveInterval` are the configured `player.default.number.lifes`,
      `SCORE_GAIN_EXTRA_LIFE` and `MOVE_INTERVAL`. */
  class Player {
    var score: int
    var alive: bool
    var consecutiveKills: int
    var remainingLifes: int
    var receiveExtraLife: bool
    var strategy: Strategy
    var direction: Direction
    var square: Option<Square>
    const extraLifeScore: int
    const moveInterval: int

    function Fields(): PlayerFields
      reads this
    {
      PlayerFields(score, alive, consecutiveKills, remainingLifes, receiveExtraLife, strategy, direction, square)
    }

    /** A new player has no points, is alive, has no kills and has not had
        the extra life; it stands on no square yet. `facing` is the
        initial direction the board's `Unit` gives it. */
    constructor(lifesAtStart: int, extraLifeScore: int, moveInterval: int, facing: Direction)
      ensures Fields() == PlayerFields(0, true, 0, lifesAtStart, false, NoStrategy, facing, None)
      ensures this.extraLifeScore == extraLifeScore && this.moveInterval == moveInterval
    {
      score := 0;
      alive := true;
      consecutiveKills := 0;
      remainingLifes := lifesAtStart;
      receiveExtraLife := false;
      strategy := NoStrategy;
      direction := facing;
      square := None;
      this.extraLifeScore := extraLifeScore;
      this.moveInterval := moveInterval;
    }

    method SetConsecutiveKills(kills: int)
      modifies this
      ensures Fields() == old(Fields()).(kills := kills)
    {
      consecutiveKills := kills;
    }

    /** The death animation it restarts is not modelled. */
    method SetAlive(isAlive: bool)
      modifies this
      ensures Fields() == old(Fields()).(alive := isAlive)
    {
      alive := isAlive;
    }

    method AddPoints(points: int)
      modifies this
      ensures Fields() == WithTally(old(Fields()), AddedPoints(old(TallyOf(Fields())), points, extraLifeScore))
    {
      score := score + points;
      if !receiveExtraLife && score >= extraLifeScore {
        GainExtraLife();
      }
    }

    method GainExtraLife()
      modifies this
      ensures Fields() == old(Fields()).(lifes := old(remainingLifes) + 1, extraLife := true)
    {
      remainingLifes := remainingLifes + 1;
      receiveExtraLife := true;
    }

    /** `loseLife()`: one life less; the player's observers are notified
        (`notified`) while lives remain, otherwise the player dies. */
    method LoseLife() returns (notified: bool)
      modifies this
      ensures notified <==> old(remainingLifes) - 1 > 0
      ensures Fields() == old(Fields()).(lifes := old(remainingLifes) - 1, alive := if notified then old(alive) else false)
    {
      remainingLifes := remainingLifes - 1;
      if remainingLifes > 0 {
        notified := true;
      } else {
        notified := false;
        SetAlive(false);
      }
    }

    method SetStrategy(s: Strategy)
      modifies this
      ensures Fields() == old(Fields()).(strategy := s)
    {
      strategy := s;
    }

    /** `Unit.setDirection`. */
    method SetDirection(d: Direction)
      modifies this
      ensures Fields() == old(Fields()).(direction := d)
    {
      direction := d;
    }

    /** `nextMove()`: a keyboard player keeps going the way it faces; a
        computed strategy answers `strategyMove`, which is its result or
        the exception it throws; with no strategy set the call
        dereferences `null`. */
    function NextMove(strategyMove: Result<Option<Direction>>): (r: Result<Option<Direction>>)
      reads this
      ensures r.Err? <==> strategy.NoStrategy? || (strategy.Automatic? && strategyMove.Err?)
      ensures strategy.NoStrategy? ==> r == Err(NullPointer)
      ensures strategy.Human? ==> r == Ok(Some(direction))
      ensures strategy.Automatic? ==> r == strategyMove
    {
      match strategy
      case NoStrategy => Err(NullPointer)
      case Human => Ok(Some(direction))
      case Automatic => strategyMove
    }
  }

  // ----------------------------------------------------------------------
  // Ghosts
  // ----------------------------------------------------------------------

  /** `getInterval()` of a ghost with base interval `moveInterval`, game
      mode `mode` and variation `variation`; `draw` stands for the value
      `new Random().nextInt(variation)` returns. */
  function GhostInterval(moveInterval: int, mode: Byte, variation: int, draw: nat): (r: Result<int>)
    ensures r.Err? <==> variation < 0
    ensures variation == 0 ==> r == Ok(if mode != 0 then 2 * moveInterval else moveInterval)
    ensures variation > 0 ==>
              r.Ok? &&
              (if mode != 0 then 2 * moveInterval else moveInterval) <= r.value <
              (if mode != 0 then 2 * moveInterval else moveInterval) + variation
  {
    var interval := if mode != 0 then moveInterval * 2 else moveInterval;
    if variation == 0 then Ok(interval)
    else if variation < 0 then Err(IllegalArgument)
    else Ok(interval + draw % variation)
  }

  /** Every value of the interval's range is the answer for some draw. */
  lemma GhostIntervalCovers(moveInterval: int, mode: Byte, variation: int, v: int)
    requires variation > 0
    requires var base := if mode != 0 then 2 * moveInterval else moveInterval;
      base <= v < base + variation
    ensures exists draw: nat :: GhostInterval(moveInterval, mode, variation, draw) == Ok(v)
  {
    var base := if mode != 0 then 2 * moveInterval else moveInterval;
    var draw: nat := v - base;
    assert GhostInterval(moveInterval, mode, variation, draw) == Ok(v);
  }

  /** The fields of a ghost that change, as one value. */
  datatype GhostFields = GhostFields(alive: bool, mode: Byte, direction: Direction, square: Option<Square>)

  /** A ghost (npc/Ghost.java) of the given kind; `moveInterval` and
      `intervalVariation` are the configured values of that kind. */
  class Ghost {
    const kind: GhostKind
    const moveInterval: int
    const intervalVariation: int
    const initialPosition: Square
    var alive: bool
    var gameMode: Byte
    var direction: Direction
    var square: Option<Square>

    function Fields(): GhostFields
      reads this
    {
      GhostFields(alive, gameMode, direction, square)
    }

    /** A new ghost is alive and chasing (mode 0); it stands on no square
        until the board places it. */
    constructor(kind: GhostKind, moveInterval: int, intervalVariation: int, initialPosition: Square, facing: Direction)
      ensures Fields() == GhostFields(true, 0, facing, None)
      ensures this.kind == kind && this.moveInterval == moveInterval
      ensures this.intervalVariation == intervalVariation && this.initialPosition == initialPosition
    {
      this.kind := kind;
      this.moveInterval := moveInterval;
      this.intervalVariation := intervalVariation;
      this.initialPosition := initialPosition;
      alive := true;
      gameMode := 0;
      direction := facing;
      square := None;
    }

    method SetAlive(isAlive: bool)
      modifies this
      ensures Fields() == old(Fields()).(alive := isAlive)
    {
      alive := isAlive;
    }

    method SetGameMode(mode: Byte)
      modifies this
      ensures Fields() == old(Fields()).(mode := mode)
    {
      gameMode := mode;
    }

    method SetDirection(d: Direction)
      modifies this
      ensures Fields() == old(Fields()).(direction := d)
    {
      direction := d;
    }

    function Interval(draw: nat): Result<int>
      reads this
    {
      GhostInterval(moveInterval, gameMode, intervalVariation, draw)
    }
  }
}
