/** The level (level/Level.java) and its collision rules
    (level/DefaultPlayerInteractionMap.java): the occupant lists of the
    board's squares, the registered players and ghosts with their
    scheduling services, the game mode, the start/stop cycle and the
    observer reports. The board's `Square` objects are not modelled; their
    occupant lists are one map held by the level. Observers are not
    modelled either: the methods that notify them return the reports, in
    order, instead. */
module Levels {
  import opened Wrappers
  import opened Directions
  import opened Boards
  import opened Units
  import opened Scheduling
  import opened Lists

  /** The commands the level's services are armed with. */
  datatype Command = GhostMove(npc: Ghost) | PlayerMove(player: Player) | ExitHunting | Reborn(npc: Ghost)

  /** The calls `updateObservers` makes on every observer. */
  datatype Event = LevelLost | LevelWon | HalfPelletsEaten

  // ----------------------------------------------------------------------
  // remainingPellets: the count as a specification
  // ----------------------------------------------------------------------

  /** A pellet whose power flag is `power`. */
  predicate IsPelletOf(u: Unit, power: bool) {
    u.PelletUnit? && u.pellet.power == power
  }

  /** The pellets of an occupant list whose power flag is `power`. */
  function PelletsIn(units: seq<Unit>, power: bool): nat
    decreases |units|
  {
    if units == [] then 0
    else PelletsIn(units[..|units| - 1], power) + (if IsPelletOf(units[|units| - 1], power) then 1 else 0)
  }

  /** Such pellets on the squares (x, 0) .. (x, h - 1). */
  function ColumnPellets(occupancy: map<Square, seq<Unit>>, x: int, h: nat, power: bool): nat
    decreases h
  {
    if h == 0 then 0
    else ColumnPellets(occupancy, x, h - 1, power) + PelletsIn(Occupants(occupancy, Square(x, h - 1)), power)
  }

  /** Such pellets in the columns 0 .. w - 1, each of height h. */
  function BoardPellets(occupancy: map<Square, seq<Unit>>, w: nat, h: nat, power: bool): nat
    decreases w
  {
    if w == 0 then 0
    else BoardPellets(occupancy, w - 1, h, power) + ColumnPellets(occupancy, w - 1, h, power)
  }

  /** The pellets on the board whose power flag is `power`. */
  function PelletCount(g: Grid<Unit>, occupancy: map<Square, seq<Unit>>, power: bool): nat {
    BoardPellets(occupancy, g.width, g.height, power)
  }

  lemma {:induction false} PelletsInAppend(a: seq<Unit>, b: seq<Unit>, power: bool)
    ensures PelletsIn(a + b, power) == PelletsIn(a, power) + PelletsIn(b, power)
    decreases |b|
  {
    if b != [] {
      PelletsInAppend(a, b[..|b| - 1], power);
      assert (a + b)[..|a + b| - 1] == a + b[..|b| - 1];
      assert (a + b)[|a + b| - 1] == b[|b| - 1];
    } else {
      assert a + b == a;
    }
  }

  lemma {:induction false} ColumnUpdate(occupancy: map<Square, seq<Unit>>, s: Square, l: seq<Unit>, x: int, h: nat, power: bool)
    ensures ColumnPellets(occupancy[s := l], x, h, power) +
              (if s.x == x && 0 <= s.y < h then PelletsIn(Occupants(occupancy, s), power) else 0)
         == ColumnPellets(occupancy, x, h, power) + (if s.x == x && 0 <= s.y < h then PelletsIn(l, power) else 0)
    decreases h
  {
    if h > 0 {
      ColumnUpdate(occupancy, s, l, x, h - 1, power);
    }
  }

  lemma {:induction false} BoardUpdate(occupancy: map<Square, seq<Unit>>, s: Square, l: seq<Unit>, w: nat, h: nat, power: bool)
    ensures BoardPellets(occupancy[s := l], w, h, power) +
              (if 0 <= s.x < w && 0 <= s.y < h then PelletsIn(Occupants(occupancy, s), power) else 0)
         == BoardPellets(occupancy, w, h, power) + (if 0 <= s.x < w && 0 <= s.y < h then PelletsIn(l, power) else 0)
    decreases w
  {
    if w > 0 {
      BoardUpdate(occupancy, s, l, w - 1, h, power);
      ColumnUpdate(occupancy, s, l, w - 1, h, power);
    }
  }

  /** Replacing the occupant list of one square changes the count by the
      difference on that square, and not at all off the board. */
  lemma PelletCountUpdate(g: Grid<Unit>, occupancy: map<Square, seq<Unit>>, s: Square, l: seq<Unit>, power: bool)
    ensures PelletCount(g, occupancy[s := l], power) + (if OnBoard(g, s) then PelletsIn(Occupants(occupancy, s), power) else 0)
         == PelletCount(g, occupancy, power) + (if OnBoard(g, s) then PelletsIn(l, power) else 0)
  {
    BoardUpdate(occupancy, s, l, g.width, g.height, power);
  }

  /** `remainingPellets(power)`: the columns (x) in the outer loop, the
      rows (y) in the inner one, then the occupant list in order. */
  method CountPellets(g: Grid<Unit>, occupancy: map<Square, seq<Unit>>, power: bool) returns (pellets: nat)
    ensures pellets == PelletCount(g, occupancy, power)
  {
    pellets := 0;
    for x := 0 to g.width
      invariant pellets == BoardPellets(occupancy, x, g.height, power)
    {
      for y := 0 to g.height
        invariant pellets == BoardPellets(occupancy, x, g.height, power) + ColumnPellets(occupancy, x, y, power)
      {
        var units := Occupants(occupancy, Square(x, y));
        for i := 0 to |units|
          invariant pellets == BoardPellets(occupancy, x, g.height, power) + ColumnPellets(occupancy, x, y, power) +
                               PelletsIn(units[..i], power)
        {
          assert units[..i + 1][..i] == units[..i];
          if units[i].PelletUnit? && units[i].pellet.power == power {
            pellets := pellets + 1;
          }
        }
        assert units[..|units|] == units;
      }
    }
  }

  // ----------------------------------------------------------------------
  // Occupant lists: Square.remove and Unit.occupy
  // ----------------------------------------------------------------------

  /** Removing a unit takes one pellet off the count exactly when it is
      such a pellet and was in the list. */
  lemma PelletsRemoved(xs: seq<Unit>, u: Unit, power: bool)
    ensures PelletsIn(RemoveFirst(xs, u), power) + (if u in xs && IsPelletOf(u, power) then 1 else 0) == PelletsIn(xs, power)
  {
    if u in xs {
      var i := IndexOf(xs, u);
      assert xs == xs[..i] + [u] + xs[i + 1..];
      PelletsInAppend(xs[..i], xs[i + 1..], power);
      PelletsInAppend(xs[..i] + [u], xs[i + 1..], power);
      PelletsInAppend(xs[..i], [u], power);
      assert [u][..0] == [];
    }
  }

  /** The occupant lists after `u.occupy(target)` for a unit that stood on
      `from`: it leaves the list of `from` (its first occurrence) and is
      appended to the list of `target`. */
  function Occupied(occupancy: map<Square, seq<Unit>>, u: Unit, from: Option<Square>, target: Square): (r: map<Square, seq<Unit>>)
    ensures Occupants(r, target) != [] && Occupants(r, target)[|Occupants(r, target)| - 1] == u
    ensures forall t :: t != target && Some(t) != from ==> Occupants(r, t) == Occupants(occupancy, t)
    ensures from.Some? && from.value != target ==> Occupants(r, from.value) == RemoveFirst(Occupants(occupancy, from.value), u)
    ensures from == Some(target) ==> Occupants(r, target) == RemoveFirst(Occupants(occupancy, target), u) + [u]
    ensures from.None? ==> Occupants(r, target) == Occupants(occupancy, target) + [u]
  {
    var left := if from.Some? then occupancy[from.value := RemoveFirst(Occupants(occupancy, from.value), u)] else occupancy;
    left[target := Occupants(left, target) + [u]]
  }

  /** Moving a unit that is not such a pellet leaves the count of pellets
      on the board unchanged. */
  lemma OccupyKeepsPellets(g: Grid<Unit>, occupancy: map<Square, seq<Unit>>, u: Unit, from: Option<Square>, target: Square, power: bool)
    requires !IsPelletOf(u, power)
    ensures PelletCount(g, Occupied(occupancy, u, from, target), power) == PelletCount(g, occupancy, power)
  {
    var left := occupancy;
    if from.Some? {
      var s := from.value;
      left := occupancy[s := RemoveFirst(Occupants(occupancy, s), u)];
      PelletCountUpdate(g, occupancy, s, RemoveFirst(Occupants(occupancy, s), u), power);
      PelletsRemoved(Occupants(occupancy, s), u, power);
    }
    PelletCountUpdate(g, left, target, Occupants(left, target) + [u], power);
    PelletsInAppend(Occupants(left, target), [u], power);
    assert [u][..0] == [];
  }

  /** Removing a pellet from a square takes it off the count when it was
      there and the square is on the board; nothing else changes. */
  lemma RemovalCount(g: Grid<Unit>, occupancy: map<Square, seq<Unit>>, at: Square, u: Unit, power: bool)
    ensures PelletCount(g, occupancy[at := RemoveFirst(Occupants(occupancy, at), u)], power) +
              (if OnBoard(g, at) && u in Occupants(occupancy, at) && IsPelletOf(u, power) then 1 else 0)
         == PelletCount(g, occupancy, power)
  {
    PelletCountUpdate(g, occupancy, at, RemoveFirst(Occupants(occupancy, at), u), power);
    PelletsRemoved(Occupants(occupancy, at), u, power);
  }

  // ----------------------------------------------------------------------
  // updateObservers
  // ----------------------------------------------------------------------

  /** The reports of `updateObservers`, in the order it makes them: lost,
      won, half the pellets eaten. */
  function Reports(anyAlive: bool, remaining: nat, nbPellets: nat, spawnFruit: bool): (r: seq<Event>)
    ensures LevelLost in r <==> !anyAlive
    ensures LevelWon in r <==> remaining == 0
    ensures HalfPelletsEaten in r <==> remaining == nbPellets / 2 && !spawnFruit
    ensures forall i, j :: 0 <= i < j < |r| ==> r[i] != r[j]
    ensures |r| > 0 && r[0] == LevelLost ==> !anyAlive
  {
    (if !anyAlive then [LevelLost] else []) +
    (if remaining == 0 then [LevelWon] else []) +
    (if remaining == nbPellets / 2 && !spawnFruit then [HalfPelletsEaten] else [])
  }

  // ----------------------------------------------------------------------
  // The collision rules
  // ----------------------------------------------------------------------

  /** `(int) (Math.pow(2, kills) * 100)`, the points of a kill. */
  function KillPoints(kills: int): int {
    if kills >= 0 then 100 * Pow2(kills) else 100 / Pow2(-kills)
  }

  function Pow2(k: nat): (p: nat)
    ensures p >= 1
  {
    if k == 0 then 1 else 2 * Pow2(k - 1)
  }

  /** The points of the kills 1 .. n of one hunting period. */
  function KillsTotal(n: nat): int {
    if n == 0 then 0 else KillsTotal(n - 1) + KillPoints(n)
  }

  /** The first kill of a hunting period is worth 200, each further kill
      twice the one before, and n kills 100 * (2^(n+1) - 2) in all. */
  lemma {:induction false} KillSeries(n: nat)
    ensures KillPoints(1) == 200
    ensures KillPoints(n + 1) == 2 * KillPoints(n)
    ensures KillsTotal(n) == 100 * (Pow2(n + 1) - 2)
  {
    if n > 0 {
      KillSeries(n - 1);
    }
  }

  /** The player–ghost rule (`onCollision(Player.class, Ghost.class, …)`)
      as a relation between the state before and after: a dead ghost does
      nothing; a chasing ghost (mode 0) kills the player; a frightened
      ghost dies, goes back to mode 0 and is reborn after 5000 ms, and
      the player counts one more kill and earns its points. */
  twostate predicate GhostRule(p: Player, g: Ghost, reborn: ScheduledTaskService<Command>)
    reads p, g, reborn
  {
    if !old(g.alive) then
      p.Fields() == old(p.Fields()) && g.Fields() == old(g.Fields()) && reborn.State() == old(reborn.State())
    else if old(g.gameMode) == 0 then
      p.Fields() == old(p.Fields()).(alive := false) && g.Fields() == old(g.Fields()) &&
      reborn.State() == old(reborn.State())
    else
      var kills := old(p.consecutiveKills) + 1;
      g.Fields() == old(g.Fields()).(alive := false, mode := 0) &&
      reborn.State() == Scheduled(old(reborn.State()), Reborn(g), 5000, true) &&
      p.Fields() == WithTally(old(p.Fields()).(kills := kills),
                              AddedPoints(TallyOf(old(p.Fields())), KillPoints(kills), p.extraLifeScore))
  }

  /** Which rule a collision of `mover` into `occupant` triggers. Only the
      player–ghost and the player–pellet pairs are declared; with a
      symmetric collision table a ghost moving into a player triggers the
      player–ghost rule too. */
  datatype Rule = NoRule | GhostRuleFor(p: Player, g: Ghost) | PelletRuleFor(p: Player)

  function RuleFor(mover: Unit, occupant: Unit, symmetric: bool): (r: Rule)
    requires IsMover(mover)
    ensures r.GhostRuleFor? <==>
      (mover.PlayerUnit? && occupant.GhostUnit?) || (symmetric && mover.GhostUnit? && occupant.PlayerUnit?)
    ensures r.GhostRuleFor? ==> PlayerUnit(r.p) in {mover, occupant} && GhostUnit(r.g) in {mover, occupant}
    ensures r.PelletRuleFor? <==> mover.PlayerUnit? && occupant.PelletUnit?
    ensures r.PelletRuleFor? ==> mover == PlayerUnit(r.p)
  {
    match (mover, occupant)
    case (PlayerUnit(p), GhostUnit(g)) => GhostRuleFor(p, g)
    case (GhostUnit(g), PlayerUnit(p)) => if symmetric then GhostRuleFor(p, g) else NoRule
    case (PlayerUnit(p), PelletUnit(_, _)) => PelletRuleFor(p)
    case _ => NoRule
  }

  /** Only these two pairs are declared: a player meeting a fruit, or two
      ghosts meeting, trigger nothing. */
  lemma NoFruitRule(p: Player, id: nat, f: Fruit, g: Ghost, h: Ghost, symmetric: bool)
    ensures RuleFor(PlayerUnit(p), FruitUnit(id, f), symmetric) == NoRule
    ensures RuleFor(GhostUnit(g), GhostUnit(h), symmetric) == NoRule
  {
  }

  // ----------------------------------------------------------------------
  // The game mode
  // ----------------------------------------------------------------------

  /** What `setGameMode(mode)` does to the exit-hunting service: mode 0
      cancels its task; mode 1 cancels it and arms a new one at once, for
      7000 ms while more than two power pellets remain and 5000 ms
      otherwise; any other mode leaves it. */
  function HuntingTimer(s: Service<Command>, mode: Byte, powerPellets: nat): (r: Service<Command>)
    ensures mode == 0 ==> !Armed(r) && r.remainingDelay == s.remainingDelay
    ensures mode == 1 ==> Armed(r) && r.futur.value == Timer(ExitHunting, if powerPellets > 2 then 7000 else 5000, false)
    ensures mode != 0 && mode != 1 ==> r == s
  {
    if mode == 0 then Cancelled(s)
    else if mode == 1 then Scheduled(Cancelled(s), ExitHunting, if powerPellets > 2 then 7000 else 5000, true)
    else s
  }

  /** A player after `setGameMode(mode)`: modes 0 and 1 reset its kills. */
  function PlayerAfterMode(f: PlayerFields, mode: Byte): PlayerFields {
    if mode == 0 || mode == 1 then f.(kills := 0) else f
  }

  /** A ghost after `setGameMode(mode)`: mode 1 revives it, frightened. */
  function GhostAfterMode(f: GhostFields, mode: Byte): GhostFields {
    if mode == 1 then f.(alive := true, mode := 1) else f
  }

  /** `stopHuntingMode`'s loop: every player's kill count goes to 0. */
  method ResetKills(players: set<Player>)
    modifies players
    ensures forall p :: p in players ==> p.Fields() == old(p.Fields()).(kills := 0)
  {
    var todo := players;
    while todo != {}
      invariant todo <= players
      invariant forall p :: p in players - todo ==> p.Fields() == old(p.Fields()).(kills := 0)
      invariant forall p :: p in todo ==> p.Fields() == old(p.Fields())
      decreases |todo|
    {
      var p :| p in todo;
      p.SetConsecutiveKills(0);
      todo := todo - {p};
    }
  }

  /** `startHuntingMode`'s loop: every ghost comes alive in mode 1. */
  method ReviveAll(ghosts: set<Ghost>)
    modifies ghosts
    ensures forall g :: g in ghosts ==> g.Fields() == old(g.Fields()).(alive := true, mode := 1)
  {
    var todo := ghosts;
    while todo != {}
      invariant todo <= ghosts
      invariant forall g :: g in ghosts - todo ==> g.Fields() == old(g.Fields()).(alive := true, mode := 1)
      invariant forall g :: g in todo ==> g.Fields() == old(g.Fields())
      decreases |todo|
    {
      var g :| g in todo;
      g.SetAlive(true);
      g.SetGameMode(1);
      todo := todo - {g};
    }
  }

  /** A unit the level knows: a ghost of the level, a registered player,
      a pellet or a fruit. */
  predicate IsKnown(u: Unit, ghosts: set<Ghost>, players: set<Player>) {
    (u.GhostUnit? ==> u.npc in ghosts) && (u.PlayerUnit? ==> u.player in players)
  }

  /** Every unit of the list is known. */
  predicate AllKnown(xs: seq<Unit>, ghosts: set<Ghost>, players: set<Player>) {
    forall i :: 0 <= i < |xs| ==> IsKnown(xs[i], ghosts, players)
  }

  /** Every unit listed on a square is known to the level. */
  predicate UnitsKnown(occupancy: map<Square, seq<Unit>>, ghosts: set<Ghost>, players: set<Player>) {
    forall s :: s in occupancy ==> AllKnown(occupancy[s], ghosts, players)
  }

  lemma AllKnownAfterRemoval(xs: seq<Unit>, u: Unit, ghosts: set<Ghost>, players: set<Player>)
    requires AllKnown(xs, ghosts, players)
    ensures AllKnown(RemoveFirst(xs, u), ghosts, players)
  {
    var r := RemoveFirst(xs, u);
    forall i | 0 <= i < |r|
      ensures IsKnown(r[i], ghosts, players)
    {
      RemoveSubset(xs, u, r[i]);
    }
  }

  lemma KnownAfterRemoval(occupancy: map<Square, seq<Unit>>, at: Square, u: Unit, ghosts: set<Ghost>, players: set<Player>)
    requires UnitsKnown(occupancy, ghosts, players)
    ensures UnitsKnown(occupancy[at := RemoveFirst(Occupants(occupancy, at), u)], ghosts, players)
  {
    AllKnownAfterRemoval(Occupants(occupancy, at), u, ghosts, players);
  }

  lemma KnownAfterOccupy(occupancy: map<Square, seq<Unit>>, u: Unit, from: Option<Square>, target: Square,
                         ghosts: set<Ghost>, players: set<Player>)
    requires UnitsKnown(occupancy, ghosts, players) && IsKnown(u, ghosts, players)
    ensures UnitsKnown(Occupied(occupancy, u, from, target), ghosts, players)
  {
    var left := if from.Some? then occupancy[from.value := RemoveFirst(Occupants(occupancy, from.value), u)] else occupancy;
    if from.Some? {
      KnownAfterRemoval(occupancy, from.value, u, ghosts, players);
    }
    var xs := Occupants(left, target);
    assert AllKnown(xs + [u], ghosts, players) by {
      forall i | 0 <= i < |xs| + 1
        ensures IsKnown((xs + [u])[i], ghosts, players)
      {
        if i < |xs| {
          assert (xs + [u])[i] == xs[i];
        }
      }
    }
  }

  lemma KnownToMore(occupancy: map<Square, seq<Unit>>, ghosts: set<Ghost>, players: set<Player>, players': set<Player>)
    requires UnitsKnown(occupancy, ghosts, players) && players <= players'
    ensures UnitsKnown(occupancy, ghosts, players')
  {
    forall s | s in occupancy
      ensures AllKnown(occupancy[s], ghosts, players')
    {
      assert AllKnown(occupancy[s], ghosts, players);
    }
  }

  /** The fields of the level that change, as one value. */
  datatype LevelFields = LevelFields(occupancy: map<Square, seq<Unit>>, inProgress: bool, gameMode: Byte,
                                     startSquareIndex: int, spawnFruit: bool,
                                     playerSchedules: map<Player, ScheduledTaskService<Command>>)

  /** Everything a move can change, as one value: the level's fields, the
      fields of each registered player and of each ghost, and the state of
      each scheduling service of the level. */
  datatype World = World(level: LevelFields, players: map<Player, PlayerFields>, ghosts: map<Ghost, GhostFields>,
                         services: map<ScheduledTaskService<Command>, Service<Command>>)

  /** The square a moving unit stands on in `w`. */
  function MoverSquare(w: World, unit: Unit): Option<Square> {
    match unit
    case PlayerUnit(p) => if p in w.players then w.players[p].square else None
    case GhostUnit(g) => if g in w.ghosts then w.ghosts[g].square else None
    case _ => None
  }

  /** The direction a moving unit faces in `w`. */
  function MoverFacing(w: World, unit: Unit): Option<Direction> {
    match unit
    case PlayerUnit(p) => if p in w.players then Some(w.players[p].direction) else None
    case GhostUnit(g) => if g in w.ghosts then Some(w.ghosts[g].direction) else None
    case _ => None
  }

  /** `unit.setDirection(d)` on `w`. */
  function Turned(w: World, unit: Unit, d: Direction): World {
    match unit
    case PlayerUnit(p) => if p in w.players then w.(players := w.players[p := w.players[p].(direction := d)]) else w
    case GhostUnit(g) => if g in w.ghosts then w.(ghosts := w.ghosts[g := w.ghosts[g].(direction := d)]) else w
    case _ => w
  }

  /** `unit.occupy(target)` on `w`: the unit leaves its square's list for
      the end of the target's, and records the target as its square. */
  function Arrived(w: World, unit: Unit, target: Square): World {
    var level := w.level.(occupancy := Occupied(w.level.occupancy, unit, MoverSquare(w, unit), target));
    match unit
    case PlayerUnit(p) =>
      if p in w.players then w.(level := level, players := w.players[p := w.players[p].(square := Some(target))]) else w.(level := level)
    case GhostUnit(g) =>
      if g in w.ghosts then w.(level := level, ghosts := w.ghosts[g := w.ghosts[g].(square := Some(target))]) else w.(level := level)
    case _ => w.(level := level)
  }

  /** `schedule(command, delay, true)` on the service `s` of `w`. */
  function Rearmed(w: World, s: ScheduledTaskService<Command>, command: Command, delay: int): World {
    if s in w.services then w.(services := w.services[s := Scheduled(w.services[s], command, delay, true)]) else w
  }

  /** The square `placeFruit` picks among `n` fruit squares for `draw`,
      the value `new Random().nextInt(n)` returns. */
  function FruitIndex(n: nat, draw: nat): (i: nat)
    requires n > 0
    ensures i < n
  {
    if n == 1 then 0 else draw % n
  }

  /** `placeFruit` as written: the fruit is put on its square and nothing
      else changes; in particular `spawnFruit` stays false. */
  function FruitPlacedAsWritten(f: LevelFields, fruit: Unit, at: Square): LevelFields {
    f.(occupancy := Occupied(f.occupancy, fruit, None, at))
  }

  /** `placeFruit` as the field `spawnFruit` documents it: the fruit is put
      on its square and `spawnFruit` records that a fruit was placed. */
  function FruitPlaced(f: LevelFields, fruit: Unit, at: Square): LevelFields {
    FruitPlacedAsWritten(f, fruit, at).(spawnFruit := true)
  }

  /** As written, placing the fruit does not change the pellet count and
      leaves `spawnFruit` false: the next report made before another
      pellet is eaten announces half the pellets eaten again, and a
      second fruit is placed. */
  lemma HalfEatenRepeats(g: Grid<Unit>, f: LevelFields, anyAlive: bool, nbPellets: nat, id: nat, fruit: Fruit, at: Square)
    requires PelletCount(g, f.occupancy, false) == nbPellets / 2 && !f.spawnFruit
    ensures HalfPelletsEaten in Reports(anyAlive, PelletCount(g, f.occupancy, false), nbPellets, f.spawnFruit)
    ensures var f' := FruitPlacedAsWritten(f, FruitUnit(id, fruit), at);
      HalfPelletsEaten in Reports(anyAlive, PelletCount(g, f'.occupancy, false), nbPellets, f'.spawnFruit)
  {
    OccupyKeepsPellets(g, f.occupancy, FruitUnit(id, fruit), None, at, false);
  }

  /** With `spawnFruit` set, the pellet count is still the one that
      triggered the report, but no report announces half the pellets
      eaten again. */
  lemma HalfEatenOnce(g: Grid<Unit>, f: LevelFields, anyAlive: bool, nbPellets: nat, id: nat, fruit: Fruit, at: Square)
    ensures var f' := FruitPlaced(f, FruitUnit(id, fruit), at);
      PelletCount(g, f'.occupancy, false) == PelletCount(g, f.occupancy, false) &&
      HalfPelletsEaten !in Reports(anyAlive, PelletCount(g, f'.occupancy, false), nbPellets, f'.spawnFruit)
  {
    OccupyKeepsPellets(g, f.occupancy, FruitUnit(id, fruit), None, at, false);
  }

  /** The start square index after k registrations of new players from
      index i among n start squares. */
  function Advance(i: int, k: nat, n: nat): int
    requires n > 0
  {
    if k == 0 then i else (Advance(i, k - 1, n) + 1) % n
  }

  /** Start squares are handed out round-robin: the k-th new player (from
      0) of a level starts on start square k mod n. */
  lemma {:induction false} RoundRobin(k: nat, n: nat)
    requires n > 0
    ensures Advance(0, k, n) == k % n
  {
    if k > 0 {
      var j := k - 1;
      RoundRobin(j, n);
      assert Advance(0, k, n) == (Advance(0, j, n) + 1) % n;
      ModSucc(j, n);
    }
  }

  // ----------------------------------------------------------------------
  // The level
  // ----------------------------------------------------------------------

  /** The loop of the level's constructor: every ghost gets a move service
      holding its move task with half its interval (for the draw
      `draws(g)`), not started, and an empty reborn service. A ghost with
      a negative interval variation makes `getInterval()` throw, and the
      loop with it. */
  method GhostServices(ghosts: seq<Ghost>, draws: Ghost -> nat)
      returns (r: Result<(map<Ghost, ScheduledTaskService<Command>>, map<Ghost, ScheduledTaskService<Command>>)>)
    ensures r.Err? <==> exists g :: g in ghosts && g.intervalVariation < 0
    ensures r.Err? ==> r.error == IllegalArgument
    ensures r.Ok? ==> r.value.0.Keys == r.value.1.Keys == set g | g in ghosts
    ensures r.Ok? ==> forall g :: g in r.value.0 ==>
      fresh(r.value.0[g]) && r.value.0[g].Valid() &&
      r.value.0[g].State() == Scheduled(Fresh(), GhostMove(g), JavaDiv(g.Interval(draws(g)).value, 2), false)
    ensures r.Ok? ==> forall g :: g in r.value.1 ==>
      fresh(r.value.1[g]) && r.value.1[g].Valid() && r.value.1[g].State() == Fresh()
  {
    var moves: map<Ghost, ScheduledTaskService<Command>> := map[];
    var reborns: map<Ghost, ScheduledTaskService<Command>> := map[];
    for i := 0 to |ghosts|
      invariant forall g :: g in ghosts[..i] ==> g.intervalVariation >= 0
      invariant forall g :: g in moves <==> g in ghosts[..i]
      invariant reborns.Keys == moves.Keys
      invariant forall g :: g in moves ==>
        fresh(moves[g]) && moves[g].State() == Scheduled(Fresh(), GhostMove(g), JavaDiv(g.Interval(draws(g)).value, 2), false)
      invariant forall g :: g in reborns ==> fresh(reborns[g]) && reborns[g].State() == Fresh()
    {
      var g := ghosts[i];
      var services := NewGhostServices(g, draws(g));
      if services.Err? {
        return Err(services.error);
      }
      moves := moves[g := services.value.0];
      reborns := reborns[g := services.value.1];
    }
    assert ghosts[..|ghosts|] == ghosts;
    r := Ok((moves, reborns));
  }

  /** The two services of one ghost, as the constructor's loop makes them:
      the move service is made before `getInterval()` is asked, which
      throws for a negative interval variation. */
  method NewGhostServices(g: Ghost, draw: nat)
      returns (r: Result<(ScheduledTaskService<Command>, ScheduledTaskService<Command>)>)
    ensures r.Err? <==> g.intervalVariation < 0
    ensures r.Err? ==> r.error == IllegalArgument
    ensures r.Ok? ==>
      fresh(r.value.0) && r.value.0.State() == Scheduled(Fresh(), GhostMove(g), JavaDiv(g.Interval(draw).value, 2), false)
    ensures r.Ok? ==> fresh(r.value.1) && r.value.1.State() == Fresh()
  {
    var move := new ScheduledTaskService<Command>();
    var interval := g.Interval(draw);
    if interval.Err? {
      return Err(interval.error);
    }
    move.Schedule(GhostMove(g), JavaDiv(interval.value, 2), false);
    var reborn := new ScheduledTaskService<Command>();
    r := Ok((move, reborn));
  }


  /** `new Level(...)`: the constructor's ghost loop asks every ghost's
      `getInterval()`, which throws for a negative interval variation;
      then no level is made. Otherwise the level is the constructor's. */
  method NewLevel(grid: Grid<Unit>, occupancy: map<Square, seq<Unit>>, ghosts: seq<Ghost>,
                  startPositions: seq<Square>, fruitPositions: seq<Square>, symmetricCollisions: bool, draws: Ghost -> nat)
      returns (r: Result<Level>)
    requires Boards.Valid(grid)
    requires UnitsKnown(occupancy, set g | g in ghosts, {})
    ensures r.Err? <==> exists g :: g in ghosts && g.intervalVariation < 0
    ensures r.Err? ==> r.error == IllegalArgument
    ensures r.Ok? ==>
      var level := r.value;
      fresh(level) && level.Valid() &&
      level.grid == grid && level.startSquares == startPositions && level.fruitSquares == fruitPositions &&
      level.symmetricCollisions == symmetricCollisions &&
      level.Fields() == LevelFields(occupancy, false, 0, 0, false, map[]) &&
      level.nbPellets == PelletCount(grid, occupancy, false) &&
      level.Ghosts() == (set g | g in ghosts) &&
      (forall g :: g in ghosts ==>
        level.moveSchedules[g].State() == Scheduled(Fresh(), GhostMove(g), JavaDiv(g.Interval(draws(g)).value, 2), false) &&
        level.rebornSchedules[g].State() == Fresh()) &&
      level.exitHuntingService.State() == Fresh()
  {
    if exists g :: g in ghosts && g.intervalVariation < 0 {
      return Err(IllegalArgument);
    }
    var level := new Level(grid, occupancy, ghosts, startPositions, fruitPositions, symmetricCollisions, draws);
    r := Ok(level);
  }

  /** A level. `grid` is the board; `symmetricCollisions` says whether the
      collision table also applies a declared rule when the two units
      meet the other way round. */
  class Level {
    const grid: Grid<Unit>
    var occupancy: map<Square, seq<Unit>>
    var inProgress: bool
    var gameMode: Byte
    var startSquareIndex: int
    const startSquares: seq<Square>
    const fruitSquares: seq<Square>
    var spawnFruit: bool
    const nbPellets: nat
    const moveSchedules: map<Ghost, ScheduledTaskService<Command>>
    const rebornSchedules: map<Ghost, ScheduledTaskService<Command>>
    var playerSchedules: map<Player, ScheduledTaskService<Command>>
    const exitHuntingService: ScheduledTaskService<Command>
    const symmetricCollisions: bool
    /** The move and reborn services of the ghosts, and the move services
        handed to players: the objects the scheduling state lives in. */
    ghost const ghostServices: set<ScheduledTaskService<Command>>
    ghost var playerServices: set<ScheduledTaskService<Command>>

    function Fields(): LevelFields
      reads this
    {
      LevelFields(occupancy, inProgress, gameMode, startSquareIndex, spawnFruit, playerSchedules)
    }

    /** `getGhosts()`. */
    function Ghosts(): set<Ghost>
    {
      moveSchedules.Keys
    }

    /** `getPlayers()`. */
    function Players(): set<Player>
      reads this`playerSchedules
    {
      playerSchedules.Keys
    }

    /** Every scheduling service of the level. */
    ghost function Services(): set<ScheduledTaskService<Command>>
      reads this`playerServices
    {
      ghostServices + playerServices + {exitHuntingService}
    }

    /** The services `start` resumes and `stop` suspends: the values of
        the three maps and the exit service. */
    function Schedules(): set<ScheduledTaskService<Command>>
      reads this`playerSchedules
    {
      moveSchedules.Values + rebornSchedules.Values + playerSchedules.Values + {exitHuntingService}
    }

    /** A unit the level knows. */
    predicate Known(u: Unit)
      reads this`playerSchedules
    {
      IsKnown(u, moveSchedules.Keys, playerSchedules.Keys)
    }

    /** Some registered player is alive. */
    ghost predicate AnyAlive()
      reads this`playerSchedules, Players()
    {
      exists p :: p in playerSchedules && p.alive
    }

    /** Every scheduling service of the level is consistent. */
    ghost predicate ServicesValid()
      reads this`playerServices, Services()
    {
      (forall s :: s in ghostServices ==> s.Valid()) &&
      (forall s :: s in playerServices ==> s.Valid()) &&
      exitHuntingService.Valid()
    }

    ghost predicate Valid()
      reads this`occupancy, this`startSquareIndex, this`playerSchedules, this`playerServices, Services()
    {
      Boards.Valid(grid) &&
      rebornSchedules.Keys == moveSchedules.Keys &&
      (forall g :: g in moveSchedules ==> moveSchedules[g] in ghostServices && rebornSchedules[g] in ghostServices) &&
      (forall p :: p in playerSchedules ==> playerSchedules[p] in playerServices) &&
      0 <= startSquareIndex && (startSquareIndex == 0 || startSquareIndex < |startSquares|) &&
      UnitsKnown(occupancy, moveSchedules.Keys, playerSchedules.Keys) &&
      ServicesValid()
    }

    /** The level's part of the world: its fields, its registered
        players' and its ghosts' fields, and its services' states. */
    ghost function Snapshot(): World
      reads this, Players(), Ghosts(), Services()
    {
      World(Fields(), PlayersView(), GhostsView(), ServicesView())
    }

    /** The registered players' fields. */
    ghost function PlayersView(): map<Player, PlayerFields>
      reads this`playerSchedules, Players()
    {
      map p | p in playerSchedules :: p.Fields()
    }

    /** The ghosts' fields. */
    ghost function GhostsView(): map<Ghost, GhostFields>
      reads Ghosts()
    {
      map g | g in moveSchedules :: g.Fields()
    }

    /** The services' states. */
    ghost function ServicesView(): map<ScheduledTaskService<Command>, Service<Command>>
      reads this`playerServices, Services()
    {
      map s | s in Services() :: s.State()
    }

    /** Changing one registered player changes only its entry of the view. */
    twostate lemma PlayerChanged(new p: Player)
      requires p in old(playerSchedules) && playerSchedules == old(playerSchedules)
      requires unchanged(Players() - {p})
      ensures PlayersView() == old(PlayersView())[p := p.Fields()]
    {
    }

    /** Changing one ghost changes only its entry of the view. */
    twostate lemma GhostChanged(new g: Ghost)
      requires g in moveSchedules && unchanged(Ghosts() - {g})
      ensures GhostsView() == old(GhostsView())[g := g.Fields()]
    {
    }

    /** Changing one service changes only its entry of the view. */
    twostate lemma ServiceChanged(new s: ScheduledTaskService<Command>)
      requires playerServices == old(playerServices) && s in Services()
      requires unchanged(Services() - {s})
      ensures ServicesView() == old(ServicesView())[s := s.State()]
    {
    }

    /** A new level, not in progress, in mode 0, with no player. Every
        ghost gets a move service holding its move task with half its
        interval (for the draw `draws(g)`), started on the first `start`,
        and an empty reborn service; `nbPellets` is the number of
        ordinary pellets on the board. */
    constructor(grid: Grid<Unit>, occupancy: map<Square, seq<Unit>>, ghosts: seq<Ghost>,
                startPositions: seq<Square>, fruitPositions: seq<Square>, symmetricCollisions: bool, draws: Ghost -> nat)
      requires Boards.Valid(grid)
      requires forall g :: g in ghosts ==> g.intervalVariation >= 0
      requires UnitsKnown(occupancy, set g | g in ghosts, {})
      ensures Valid()
      ensures this.grid == grid && startSquares == startPositions && fruitSquares == fruitPositions
      ensures this.symmetricCollisions == symmetricCollisions
      ensures Fields() == LevelFields(occupancy, false, 0, 0, false, map[])
      ensures nbPellets == PelletCount(grid, occupancy, false)
      ensures Ghosts() == set g | g in ghosts
      ensures forall g :: g in ghosts ==>
        moveSchedules[g].State() == Scheduled(Fresh(), GhostMove(g), JavaDiv(g.Interval(draws(g)).value, 2), false) &&
        rebornSchedules[g].State() == Fresh()
      ensures exitHuntingService.State() == Fresh()
    {
      var pellets := CountPellets(grid, occupancy, false);
      var exit := new ScheduledTaskService<Command>();
      var services := GhostServices(ghosts, draws);
      var moves, reborns := services.value.0, services.value.1;
      this.grid := grid;
      this.occupancy := occupancy;
      this.nbPellets := pellets;
      inProgress := false;
      gameMode := 0;
      moveSchedules := moves;
      rebornSchedules := reborns;
      playerSchedules := map[];
      startSquares := startPositions;
      startSquareIndex := 0;
      exitHuntingService := exit;
      ghostServices := moves.Values + reborns.Values;
      playerServices := {};
      fruitSquares := fruitPositions;
      spawnFruit := false;
      this.symmetricCollisions := symmetricCollisions;
    }

    /** `remainingPellets(power)`. */
    method RemainingPellets(power: bool) returns (pellets: nat)
      ensures pellets == PelletCount(grid, occupancy, power)
    {
      pellets := CountPellets(grid, occupancy, power);
    }

    /** `isAnyPlayerAlive()`: scans the registered players and stops at
        the first one alive. */
    method IsAnyPlayerAlive() returns (b: bool)
      ensures b <==> AnyAlive()
    {
      var todo := playerSchedules.Keys;
      while todo != {}
        invariant todo <= playerSchedules.Keys
        invariant forall p :: p in playerSchedules && p !in todo ==> !p.alive
        decreases |todo|
      {
        var p :| p in todo;
        if p.alive {
          return true;
        }
        todo := todo - {p};
      }
      return false;
    }

    /** A state in which no object of the level has changed has the same
        world. */
    twostate lemma SnapshotFramed()
      requires unchanged(this) && unchanged(Players()) && unchanged(Ghosts()) && unchanged(Services())
      ensures Snapshot() == old(Snapshot())
    {
      assert PlayersView() == old(PlayersView());
      assert GhostsView() == old(GhostsView());
      assert ServicesView() == old(ServicesView());
    }

    /** `updateObservers()`: the reports made to every observer. */
    method UpdateObservers() returns (events: seq<Event>)
      requires Valid()
      ensures Valid()
      ensures Snapshot() == old(Snapshot())
      ensures events == Reports(AnyAlive(), PelletCount(grid, occupancy, false), nbPellets, spawnFruit)
    {
      var alive := IsAnyPlayerAlive();
      var remaining := RemainingPellets(false);
      SnapshotFramed();
      events := [];
      if !alive {
        events := events + [LevelLost];
      }
      if remaining == 0 {
        events := events + [LevelWon];
      }
      if remaining == nbPellets / 2 && !spawnFruit {
        events := events + [HalfPelletsEaten];
      }
    }

    /** The effect of `setGameMode(newMode)` as a relation between the
        state before and after. */
    twostate predicate ModeSet(newMode: Byte)
      reads this, Ghosts(), Players(), exitHuntingService
    {
      Fields() == old(Fields()).(gameMode := newMode) &&
      exitHuntingService.State() == HuntingTimer(old(exitHuntingService.State()), newMode, PelletCount(grid, occupancy, true)) &&
      (forall p :: p in playerSchedules ==> p.Fields() == PlayerAfterMode(old(p.Fields()), newMode)) &&
      (forall g :: g in moveSchedules ==> g.Fields() == GhostAfterMode(old(g.Fields()), newMode))
    }

    /** `setGameMode(newMode)`: mode 0 stops hunting, mode 1 stops and
        starts it again, any mode is then stored. */
    method SetGameMode(newMode: Byte)
      requires Valid()
      modifies this`gameMode, Ghosts(), Players(), exitHuntingService
      ensures Valid() && ModeSet(newMode)
    {
      SwitchHunting(newMode);
      gameMode := newMode;
    }

    /** The hunting part of `setGameMode(newMode)`: mode 0 stops hunting,
        mode 1 stops and starts it again, any other mode changes nothing. */
    method SwitchHunting(newMode: Byte)
      requires Valid()
      modifies Ghosts(), Players(), exitHuntingService
      ensures Valid()
      ensures exitHuntingService.State() == HuntingTimer(old(exitHuntingService.State()), newMode, PelletCount(grid, occupancy, true))
      ensures forall p :: p in playerSchedules ==> p.Fields() == PlayerAfterMode(old(p.Fields()), newMode)
      ensures forall g :: g in moveSchedules ==> g.Fields() == GhostAfterMode(old(g.Fields()), newMode)
    {
      if newMode == 0 {
        StopHuntingMode();
      } else if newMode == 1 {
        RestartHuntingMode();
      }
    }

    /** What `setGameMode(1)` calls: hunting stops and starts again. */
    method RestartHuntingMode()
      requires Valid()
      modifies Ghosts(), Players(), exitHuntingService
      ensures Valid()
      ensures exitHuntingService.State() == HuntingTimer(old(exitHuntingService.State()), 1, PelletCount(grid, occupancy, true))
      ensures forall p :: p in playerSchedules ==> p.Fields() == PlayerAfterMode(old(p.Fields()), 1)
      ensures forall g :: g in moveSchedules ==> g.Fields() == GhostAfterMode(old(g.Fields()), 1)
    {
      StopHuntingMode();
      StartHuntingMode();
    }

    /** `stopHuntingMode()`: the exit task is cancelled and every player's
        kills go back to 0. */
    method StopHuntingMode()
      requires Valid()
      modifies Players(), exitHuntingService
      ensures Valid()
      ensures exitHuntingService.State() == Cancelled(old(exitHuntingService.State()))
      ensures forall p :: p in playerSchedules ==> p.Fields() == old(p.Fields()).(kills := 0)
    {
      exitHuntingService.CancelTask();
      ResetKills(Players());
    }

    /** `startHuntingMode()`: the exit task is armed at once, for 7000 ms
        while more than two power pellets remain and 5000 ms otherwise,
        and every ghost comes alive in mode 1. */
    method StartHuntingMode()
      requires Valid()
      modifies Ghosts(), exitHuntingService
      ensures Valid()
      ensures exitHuntingService.State() ==
        Scheduled(old(exitHuntingService.State()), ExitHunting,
                  if PelletCount(grid, occupancy, true) > 2 then 7000 else 5000, true)
      ensures forall g :: g in moveSchedules ==> g.Fields() == old(g.Fields()).(alive := true, mode := 1)
    {
      var power := RemainingPellets(true);
      if power > 2 {
        exitHuntingService.Schedule(ExitHunting, 7000, true);
      } else {
        exitHuntingService.Schedule(ExitHunting, 5000, true);
      }
      ReviveAll(Ghosts());
    }

    /** `registerPlayer(player)`: a player registered before is ignored;
        a new one gets a move service holding its move task with half its
        interval, started on the next `start`, stands on the current start
        square, and the start square index moves on round-robin. With no
        start squares the new player and its service are already in the
        level when reading the start square throws: the player stays off
        the board. */
    method RegisterPlayer(player: Player) returns (r: Result<()>)
      requires Valid()
      modifies this`playerSchedules, this`playerServices, this`occupancy, this`startSquareIndex, player
      ensures Valid()
      ensures r.Err? <==> !old(player in playerSchedules) && |startSquares| == 0
      ensures r.Err? ==> r.error == IndexOutOfBounds
      ensures old(player in playerSchedules) ==> unchanged(this, player)
      ensures !old(player in playerSchedules) ==>
        player in playerSchedules && fresh(playerSchedules[player]) &&
        playerSchedules[player].State() == Scheduled(Fresh(), PlayerMove(player), JavaDiv(player.moveInterval, 2), false)
      ensures !old(player in playerSchedules) && |startSquares| == 0 ==>
        Fields() == old(Fields()).(playerSchedules := old(playerSchedules)[player := playerSchedules[player]]) &&
        unchanged(player)
      ensures !old(player in playerSchedules) && |startSquares| > 0 ==>
        var start := startSquares[old(startSquareIndex)];
        Fields() == old(Fields()).(occupancy := Occupied(old(occupancy), PlayerUnit(player), old(player.square), start),
                                   startSquareIndex := (old(startSquareIndex) + 1) % |startSquares|,
                                   playerSchedules := old(playerSchedules)[player := playerSchedules[player]]) &&
        player.Fields() == old(player.Fields()).(square := Some(start))
    {
      if player in playerSchedules {
        return Ok(());
      }
      var service := new ScheduledTaskService<Command>();
      service.Schedule(PlayerMove(player), JavaDiv(player.moveInterval, 2), false);
      if |startSquares| == 0 {
        Admit(player, service);
        return Err(IndexOutOfBounds);
      }
      var square := startSquares[startSquareIndex];
      startSquareIndex := (startSquareIndex + 1) % |startSquares|;
      Enrol(player, service, square);
      r := Ok(());
    }

    /** The part of `registerPlayer` that puts a new player with its move
        service in the level and on `square`. */
    method Enrol(player: Player, service: ScheduledTaskService<Command>, square: Square)
      requires Valid() && player !in playerSchedules && service.Valid()
      modifies this`playerSchedules, this`playerServices, this`occupancy, player
      ensures Valid()
      ensures Fields() == old(Fields()).(occupancy := Occupied(old(occupancy), PlayerUnit(player), old(player.square), square),
                                         playerSchedules := old(playerSchedules)[player := service])
      ensures player.Fields() == old(player.Fields()).(square := Some(square))
    {
      Admit(player, service);
      OccupyKnown(PlayerUnit(player), square);
    }

    /** Adds the player and its move service to the level. */
    method Admit(player: Player, service: ScheduledTaskService<Command>)
      requires Valid() && player !in playerSchedules && service.Valid()
      modifies this`playerSchedules, this`playerServices
      ensures Valid() && Known(PlayerUnit(player))
      ensures playerSchedules == old(playerSchedules)[player := service]
    {
      KnownToMore(occupancy, moveSchedules.Keys, playerSchedules.Keys, playerSchedules.Keys + {player});
      playerSchedules := playerSchedules[player := service];
      playerServices := playerServices + {service};
    }

    /** `unit.occupy(target)` for a player or a ghost. */
    method Occupy(unit: Unit, target: Square)
      requires IsMover(unit)
      modifies this`occupancy, MoverObject(unit)
      ensures occupancy == Occupied(old(occupancy), unit, old(SquareOf(unit)), target)
      ensures unit.PlayerUnit? ==> unit.player.Fields() == old(unit.player.Fields()).(square := Some(target))
      ensures unit.GhostUnit? ==> unit.npc.Fields() == old(unit.npc.Fields()).(square := Some(target))
    {
      occupancy := Occupied(occupancy, unit, SquareOf(unit), target);
      if unit.PlayerUnit? {
        unit.player.square := Some(target);
      } else {
        unit.npc.square := Some(target);
      }
    }

    /** `unit.occupy(target)` for a unit of the level, onto a square of
        the board: the level stays valid. */
    method OccupyKnown(unit: Unit, target: Square)
      requires Valid() && IsMover(unit) && Known(unit)
      modifies this`occupancy, MoverObject(unit)
      ensures Valid()
      ensures Fields() == old(Fields()).(occupancy := Occupied(old(occupancy), unit, old(SquareOf(unit)), target))
      ensures unit.PlayerUnit? ==> unit.player.Fields() == old(unit.player.Fields()).(square := Some(target))
      ensures unit.GhostUnit? ==> unit.npc.Fields() == old(unit.npc.Fields()).(square := Some(target))
    {
      KnownAfterOccupy(occupancy, unit, SquareOf(unit), target, moveSchedules.Keys, playerSchedules.Keys);
      Occupy(unit, target);
      assert UnitsKnown(occupancy, moveSchedules.Keys, playerSchedules.Keys);
    }

    /** `scheduleReborn(ghost, delay)`: the ghost's reborn task is armed at
        once with the delay. */
    method ScheduleReborn(g: Ghost, delay: int)
      requires Valid() && g in rebornSchedules
      modifies rebornSchedules[g]
      ensures Valid()
      ensures rebornSchedules[g].State() == Scheduled(old(rebornSchedules[g].State()), Reborn(g), delay, true)
    {
      rebornSchedules[g].Schedule(Reborn(g), delay, true);
    }

    /** The ghost's move task is armed again with the delay. */
    method ScheduleMove(g: Ghost, delay: int)
      requires Valid() && g in moveSchedules
      modifies moveSchedules[g]
      ensures Valid()
      ensures moveSchedules[g].State() == Scheduled(old(moveSchedules[g].State()), GhostMove(g), delay, true)
      ensures Snapshot() == Rearmed(old(Snapshot()), moveSchedules[g], GhostMove(g), delay)
    {
      moveSchedules[g].Schedule(GhostMove(g), delay, true);
      ServiceChanged(moveSchedules[g]);
      assert Fields() == old(Fields());
      assert PlayersView() == old(PlayersView());
      assert GhostsView() == old(GhostsView());
    }

    /** The player's move task is armed again with the delay. */
    method SchedulePlayer(p: Player, delay: int)
      requires Valid() && p in playerSchedules
      modifies playerSchedules[p]
      ensures Valid()
      ensures playerSchedules[p].State() == Scheduled(old(playerSchedules[p].State()), PlayerMove(p), delay, true)
      ensures Snapshot() == Rearmed(old(Snapshot()), playerSchedules[p], PlayerMove(p), delay)
    {
      playerSchedules[p].Schedule(PlayerMove(p), delay, true);
      ServiceChanged(playerSchedules[p]);
      assert Fields() == old(Fields());
      assert PlayersView() == old(PlayersView());
      assert GhostsView() == old(GhostsView());
    }

    /** The player–ghost rule. */
    method PlayerMeetsGhost(p: Player, g: Ghost)
      requires Valid() && p in playerSchedules && g in moveSchedules
      modifies p, g, rebornSchedules[g]
      ensures Valid() && GhostRule(p, g, rebornSchedules[g])
      ensures unchanged(Ghosts() - {g}) && unchanged(Players() - {p}) && unchanged(Services() - {rebornSchedules[g]})
    {
      if g.alive {
        if g.gameMode == 0 {
          Kill(p);
        } else {
          SendHome(g);
          Reward(p);
        }
      }
    }

    /** The player–ghost rule, stated on the objects, is `AfterGhostRule`
        on the world. */
    twostate lemma GhostRuleSnapshot(new p: Player, new g: Ghost)
      requires p in old(playerSchedules) && g in moveSchedules && g in rebornSchedules
      requires unchanged(this)
      requires unchanged(Ghosts() - {g})
      requires unchanged(Players() - {p})
      requires unchanged(Services() - {rebornSchedules[g]})
      requires rebornSchedules[g] in Services()
      requires GhostRule(p, g, rebornSchedules[g])
      ensures Snapshot() == AfterGhostRule(old(Snapshot()), p, g)
    {
      PlayerChanged(p);
      GhostChanged(g);
      ServiceChanged(rebornSchedules[g]);
    }

    /** The ghost half of eating a ghost: it dies, leaves the hunted mode
        and its reborn task is armed for 5000 ms. */
    method SendHome(g: Ghost)
      requires Valid() && g in moveSchedules
      modifies g, rebornSchedules[g]
      ensures Valid()
      ensures g.Fields() == old(g.Fields()).(alive := false, mode := 0)
      ensures rebornSchedules[g].State() == Scheduled(old(rebornSchedules[g].State()), Reborn(g), 5000, true)
    {
      g.SetAlive(false);
      g.SetGameMode(0);
      ScheduleReborn(g, 5000);
    }

    /** The player half of meeting a ghost that hunts: the player dies. */
    method Kill(p: Player)
      requires Valid()
      modifies p
      ensures Valid()
      ensures p.Fields() == old(p.Fields()).(alive := false)
    {
      p.SetAlive(false);
    }

    /** The player half of eating a ghost: one more consecutive kill, and
        the points that kill is worth. */
    method Reward(p: Player)
      requires Valid()
      modifies p
      ensures Valid()
      ensures var kills := old(p.consecutiveKills) + 1;
        p.Fields() == WithTally(old(p.Fields()).(kills := kills),
                                AddedPoints(TallyOf(old(p.Fields())), KillPoints(kills), p.extraLifeScore))
    {
      p.SetConsecutiveKills(p.consecutiveKills + 1);
      p.AddPoints(KillPoints(p.consecutiveKills));
    }

    /** The player–pellet rule (`onCollision(Player.class, Pellet.class,
        …)`) as a relation between the state before and after: the pellet
        leaves the square `at`, the player earns its value, and a power
        pellet then sets the level to mode 1, which counts the power
        pellets without the one just eaten. */
    twostate predicate PelletRule(p: Player, u: Unit, at: Square)
      requires u.PelletUnit? && p in playerSchedules
      reads this, Ghosts(), Players(), exitHuntingService
    {
      var removed := old(occupancy)[at := RemoveFirst(Occupants(old(occupancy), at), u)];
      var scored := WithTally(old(p.Fields()), AddedPoints(TallyOf(old(p.Fields())), u.pellet.value, p.extraLifeScore));
      if !u.pellet.power then
        Fields() == old(Fields()).(occupancy := removed) &&
        p.Fields() == scored &&
        exitHuntingService.State() == old(exitHuntingService.State()) &&
        (forall q :: q in playerSchedules && q != p ==> q.Fields() == old(q.Fields())) &&
        (forall g :: g in moveSchedules ==> g.Fields() == old(g.Fields()))
      else
        Fields() == old(Fields()).(occupancy := removed, gameMode := 1) &&
        p.Fields() == PlayerAfterMode(scored, 1) &&
        exitHuntingService.State() == HuntingTimer(old(exitHuntingService.State()), 1, PelletCount(grid, removed, true)) &&
        (forall q :: q in playerSchedules && q != p ==> q.Fields() == PlayerAfterMode(old(q.Fields()), 1)) &&
        (forall g :: g in moveSchedules ==> g.Fields() == GhostAfterMode(old(g.Fields()), 1))
    }

    /** `unit.leaveSquare()` for a unit standing on `at`: the first
        occurrence of it leaves the occupant list of `at`. */
    method Remove(u: Unit, at: Square)
      requires Valid()
      modifies this`occupancy
      ensures Valid() && occupancy == old(occupancy)[at := RemoveFirst(Occupants(old(occupancy), at), u)]
    {
      KnownAfterRemoval(occupancy, at, u, moveSchedules.Keys, playerSchedules.Keys);
      occupancy := occupancy[at := RemoveFirst(Occupants(occupancy, at), u)];
    }

    /** The player–pellet rule. */
    method PlayerMeetsPellet(p: Player, u: Unit, at: Square)
      requires Valid() && p in playerSchedules && u.PelletUnit?
      modifies this`occupancy, this`gameMode, Ghosts(), Players(), exitHuntingService
      ensures Valid() && playerSchedules == old(playerSchedules) && PelletRule(p, u, at)
      ensures unchanged(Services() - {exitHuntingService})
    {
      if u.pellet.power {
        EatPowerPellet(p, u, at);
      } else {
        EatPellet(p, u, at);
      }
    }

    /** The player–pellet rule, stated on the objects, is
        `AfterPelletRule` on the world. */
    twostate lemma PelletRuleSnapshot(new p: Player, new u: Unit, at: Square)
      requires u.PelletUnit? && p in playerSchedules && playerSchedules == old(playerSchedules)
      requires playerServices == old(playerServices)
      requires unchanged(Services() - {exitHuntingService})
      requires PelletRule(p, u, at)
      ensures Snapshot() == AfterPelletRule(old(Snapshot()), p, u, at)
    {
      if u.pellet.power {
        PowerPelletSnapshot(p, u, at);
      } else {
        PlainPelletSnapshot(p, u, at);
      }
    }

    /** `PelletRuleSnapshot` for an ordinary pellet. */
    twostate lemma PlainPelletSnapshot(new p: Player, new u: Unit, at: Square)
      requires u.PelletUnit? && p in playerSchedules && playerSchedules == old(playerSchedules)
      requires playerServices == old(playerServices)
      requires unchanged(Services() - {exitHuntingService})
      requires PelletRule(p, u, at)
      requires !u.pellet.power
      ensures Snapshot() == AfterPelletRule(old(Snapshot()), p, u, at)
    {
      var w := old(Snapshot());
      var now := Snapshot();
      assert p in w.players && exitHuntingService in w.services;
      ServiceChanged(exitHuntingService);
      forall q | q in now.players && q != p ensures now.players[q] == w.players[q] {
        assert w.players[q] == old(q.Fields());
      }
      forall g | g in now.ghosts ensures now.ghosts[g] == w.ghosts[g] {
        assert w.ghosts[g] == old(g.Fields());
      }
      PlainPelletWorld(w, now, p, u, at);
    }

    /** An ordinary pellet's effect, put together from its effect on each
        part of the world. */
    lemma PlainPelletWorld(w: World, now: World, p: Player, u: Unit, at: Square)
      requires u.PelletUnit? && !u.pellet.power && p in w.players && exitHuntingService in w.services
      requires now.level == w.level.(occupancy := w.level.occupancy[at := RemoveFirst(Occupants(w.level.occupancy, at), u)])
      requires now.players.Keys == w.players.Keys && now.ghosts.Keys == w.ghosts.Keys
      requires now.players[p] == WithTally(w.players[p], AddedPoints(TallyOf(w.players[p]), u.pellet.value, p.extraLifeScore))
      requires forall q :: q in now.players && q != p ==> now.players[q] == w.players[q]
      requires forall g :: g in now.ghosts ==> now.ghosts[g] == w.ghosts[g]
      requires now.services == w.services
      ensures now == AfterPelletRule(w, p, u, at)
    {
      assert now.players == w.players[p := now.players[p]];
      assert now.ghosts == w.ghosts;
    }

    /** `PelletRuleSnapshot` for a power pellet. */
    twostate lemma PowerPelletSnapshot(new p: Player, new u: Unit, at: Square)
      requires u.PelletUnit? && p in playerSchedules && playerSchedules == old(playerSchedules)
      requires playerServices == old(playerServices)
      requires unchanged(Services() - {exitHuntingService})
      requires PelletRule(p, u, at)
      requires u.pellet.power
      ensures Snapshot() == AfterPelletRule(old(Snapshot()), p, u, at)
    {
      var w := old(Snapshot());
      var now := Snapshot();
      assert p in w.players && exitHuntingService in w.services;
      ServiceChanged(exitHuntingService);
      forall q | q in now.players && q != p ensures now.players[q] == PlayerAfterMode(w.players[q], 1) {
        assert w.players[q] == old(q.Fields());
      }
      forall g | g in now.ghosts ensures now.ghosts[g] == GhostAfterMode(w.ghosts[g], 1) {
        assert w.ghosts[g] == old(g.Fields());
      }
      PowerPelletWorld(w, now, p, u, at);
    }

    /** A power pellet's effect, put together from its effect on each part
        of the world. */
    lemma PowerPelletWorld(w: World, now: World, p: Player, u: Unit, at: Square)
      requires u.PelletUnit? && u.pellet.power && p in w.players && exitHuntingService in w.services
      requires now.level == w.level.(occupancy := w.level.occupancy[at := RemoveFirst(Occupants(w.level.occupancy, at), u)], gameMode := 1)
      requires now.players.Keys == w.players.Keys && now.ghosts.Keys == w.ghosts.Keys
      requires now.players[p] == PlayerAfterMode(WithTally(w.players[p], AddedPoints(TallyOf(w.players[p]), u.pellet.value, p.extraLifeScore)), 1)
      requires forall q :: q in now.players && q != p ==> now.players[q] == PlayerAfterMode(w.players[q], 1)
      requires forall g :: g in now.ghosts ==> now.ghosts[g] == GhostAfterMode(w.ghosts[g], 1)
      requires now.services == w.services[exitHuntingService := HuntingTimer(w.services[exitHuntingService], 1, PelletCount(grid, now.level.occupancy, true))]
      ensures now == AfterPelletRule(w, p, u, at)
    {
      var scored := WithTally(w.players[p], AddedPoints(TallyOf(w.players[p]), u.pellet.value, p.extraLifeScore));
      var players := w.players[p := scored];
      assert now.players == map q | q in players :: PlayerAfterMode(players[q], 1);
      assert now.ghosts == map g | g in w.ghosts :: GhostAfterMode(w.ghosts[g], 1);
    }

    /** The player–pellet rule for a power pellet. */
    method EatPowerPellet(p: Player, u: Unit, at: Square)
      requires Valid() && p in playerSchedules && u.PelletUnit? && u.pellet.power
      modifies this`occupancy, this`gameMode, Ghosts(), Players(), exitHuntingService
      ensures Valid() && PelletRule(p, u, at)
    {
      EatPellet(p, u, at);
      SetGameMode(1);
    }

    /** The first half of the player–pellet rule: the pellet leaves `at`
        and the player earns its value. */
    method EatPellet(p: Player, u: Unit, at: Square)
      requires Valid() && p in playerSchedules && u.PelletUnit?
      modifies this`occupancy, p
      ensures Valid()
      ensures occupancy == old(occupancy)[at := RemoveFirst(Occupants(old(occupancy), at), u)]
      ensures p.Fields() == WithTally(old(p.Fields()), AddedPoints(TallyOf(old(p.Fields())), u.pellet.value, p.extraLifeScore))
    {
      Remove(u, at);
      p.AddPoints(u.pellet.value);
    }

    /** The player–ghost rule on `w`: `GhostRule` as a change of value. */
    function AfterGhostRule(w: World, p: Player, g: Ghost): World {
      if p !in w.players || g !in w.ghosts || g !in rebornSchedules || rebornSchedules[g] !in w.services then w
      else
        var pf := w.players[p];
        var gf := w.ghosts[g];
        if !gf.alive then w
        else if gf.mode == 0 then w.(players := w.players[p := pf.(alive := false)])
        else
          var kills := pf.kills + 1;
          var reborn := rebornSchedules[g];
          w.(players := w.players[p := WithTally(pf.(kills := kills), AddedPoints(TallyOf(pf), KillPoints(kills), p.extraLifeScore))],
             ghosts := w.ghosts[g := gf.(alive := false, mode := 0)],
             services := w.services[reborn := Scheduled(w.services[reborn], Reborn(g), 5000, true)])
    }

    /** The player–pellet rule on `w` for the pellet `u` on `at`:
        `PelletRule` as a change of value. */
    function AfterPelletRule(w: World, p: Player, u: Unit, at: Square): World
      requires u.PelletUnit?
    {
      if p !in w.players || exitHuntingService !in w.services then w
      else
        var removed := w.level.occupancy[at := RemoveFirst(Occupants(w.level.occupancy, at), u)];
        var players := w.players[p := WithTally(w.players[p], AddedPoints(TallyOf(w.players[p]), u.pellet.value, p.extraLifeScore))];
        if !u.pellet.power then w.(level := w.level.(occupancy := removed), players := players)
        else
          w.(level := w.level.(occupancy := removed, gameMode := 1),
             players := map q | q in players :: PlayerAfterMode(players[q], 1),
             ghosts := map g | g in w.ghosts :: GhostAfterMode(w.ghosts[g], 1),
             services := w.services[exitHuntingService :=
                           HuntingTimer(w.services[exitHuntingService], 1, PelletCount(grid, removed, true))])
    }

    /** `collisions.collide(mover, occupant)` on `w`, for an occupant met
        on `at`. */
    function AfterCollision(w: World, mover: Unit, occupant: Unit, at: Square): World
      requires IsMover(mover)
    {
      match RuleFor(mover, occupant, symmetricCollisions)
      case NoRule => w
      case GhostRuleFor(p, g) => AfterGhostRule(w, p, g)
      case PelletRuleFor(p) => AfterPelletRule(w, p, occupant, at)
    }

    /** The collisions of `mover`, standing on `at`, with `occupants` in
        their order, on `w`. */
    function AfterCollisions(w: World, mover: Unit, occupants: seq<Unit>, at: Square): World
      requires IsMover(mover)
      decreases |occupants|
    {
      if occupants == [] then w
      else AfterCollision(AfterCollisions(w, mover, occupants[..|occupants| - 1], at), mover, occupants[|occupants| - 1], at)
    }

    /** The accessible case of `move` on `w`: the unit occupies
        `destination`, then collides with the units that stood there. */
    function AfterEntry(w: World, unit: Unit, destination: Square): World
      requires IsMover(unit)
    {
      AfterCollisions(Arrived(w, unit, destination), unit, Occupants(w.level.occupancy, destination), destination)
    }

    /** `move(unit, d)` on `w`: nothing while the level is stopped;
        otherwise the unit turns to `d` and, when it may enter the square
        that way, enters it. */
    function AfterMove(w: World, unit: Unit, d: Direction): World
      requires IsMover(unit)
    {
      if !w.level.inProgress || MoverSquare(w, unit).None? then w
      else
        var destination := Step(grid, MoverSquare(w, unit).value, d);
        var turned := Turned(w, unit, d);
        if grid.accessible(destination, unit) then AfterEntry(turned, unit, destination) else turned
    }

    /** What a collision leaves of the mover and the board, from `w` to
        `w'`: the mover stands and faces as before and stays among the
        units on `at`, the level stays in progress or stopped, and no
        pellet of either kind appears. */
    predicate KeepsMover(w: World, w': World, mover: Unit, at: Square) {
      MoverSquare(w', mover) == MoverSquare(w, mover) && MoverFacing(w', mover) == MoverFacing(w, mover) &&
      (mover in Occupants(w.level.occupancy, at) ==> mover in Occupants(w'.level.occupancy, at)) &&
      w'.level.inProgress == w.level.inProgress &&
      PelletCount(grid, w'.level.occupancy, false) <= PelletCount(grid, w.level.occupancy, false) &&
      PelletCount(grid, w'.level.occupancy, true) <= PelletCount(grid, w.level.occupancy, true)
    }

    /** The player–ghost rule moves no unit and touches no pellet. */
    lemma GhostRuleKeepsMover(w: World, p: Player, g: Ghost, mover: Unit, at: Square)
      requires mover == PlayerUnit(p) || mover == GhostUnit(g)
      ensures KeepsMover(w, AfterGhostRule(w, p, g), mover, at)
    {
    }

    /** The player–pellet rule takes only the pellet off the board: the
        player keeps its place and direction, and the pellet counts can
        only drop. */
    lemma PelletRuleKeepsMover(w: World, p: Player, u: Unit, at: Square)
      requires u.PelletUnit?
      ensures KeepsMover(w, AfterPelletRule(w, p, u, at), PlayerUnit(p), at)
    {
      var w' := AfterPelletRule(w, p, u, at);
      if p in w.players && exitHuntingService in w.services {
        var occupancy := w.level.occupancy;
        assert w'.level.occupancy == occupancy[at := RemoveFirst(Occupants(occupancy, at), u)];
        RemovalCount(grid, occupancy, at, u, false);
        RemovalCount(grid, occupancy, at, u, true);
        if PlayerUnit(p) in Occupants(occupancy, at) {
          RemoveKeeps(Occupants(occupancy, at), u, PlayerUnit(p));
        }
        assert p in w'.players && w'.players[p].square == w.players[p].square;
        assert w'.players[p].direction == w.players[p].direction;
      }
    }

    /** Whatever rule applies, a collision keeps the mover. */
    lemma CollisionKeepsMover(w: World, mover: Unit, occupant: Unit, at: Square)
      requires IsMover(mover)
      ensures KeepsMover(w, AfterCollision(w, mover, occupant, at), mover, at)
    {
      match RuleFor(mover, occupant, symmetricCollisions)
      case NoRule =>
      case GhostRuleFor(p, g) => GhostRuleKeepsMover(w, p, g, mover, at);
      case PelletRuleFor(p) => PelletRuleKeepsMover(w, p, occupant, at);
    }

    /** `CollisionKeepsMover` for the whole collision loop. */
    lemma {:induction false} CollisionsKeepMover(w: World, mover: Unit, occupants: seq<Unit>, at: Square)
      requires IsMover(mover)
      ensures KeepsMover(w, AfterCollisions(w, mover, occupants, at), mover, at)
      decreases |occupants|
    {
      if occupants != [] {
        var earlier := occupants[..|occupants| - 1];
        CollisionsKeepMover(w, mover, earlier, at);
        CollisionKeepsMover(AfterCollisions(w, mover, earlier, at), mover, occupants[|occupants| - 1], at);
      }
    }

    /** After entering, the unit stands on `destination`, among its
        occupants, and faces as before; no pellet has appeared. */
    lemma EntryPlacesUnit(w: World, unit: Unit, destination: Square)
      requires IsMover(unit) && MoverSquare(w, unit).Some?
      ensures var w' := AfterEntry(w, unit, destination);
        MoverSquare(w', unit) == Some(destination) && unit in Occupants(w'.level.occupancy, destination) &&
        MoverFacing(w', unit) == MoverFacing(w, unit) && w'.level.inProgress == w.level.inProgress &&
        PelletCount(grid, w'.level.occupancy, false) <= PelletCount(grid, w.level.occupancy, false) &&
        PelletCount(grid, w'.level.occupancy, true) <= PelletCount(grid, w.level.occupancy, true)
    {
      var arrived := Arrived(w, unit, destination);
      OccupyKeepsPellets(grid, w.level.occupancy, unit, MoverSquare(w, unit), destination, false);
      OccupyKeepsPellets(grid, w.level.occupancy, unit, MoverSquare(w, unit), destination, true);
      var xs := Occupants(arrived.level.occupancy, destination);
      assert unit in Occupants(arrived.level.occupancy, destination) by {
        assert xs[|xs| - 1] == unit;
      }
      CollisionsKeepMover(arrived, unit, Occupants(w.level.occupancy, destination), destination);
    }

    /** What `move` does to the unit and the board: a stopped level or a
        unit off the board changes nothing; otherwise the unit faces `d`,
        it stands on the square ahead, among its occupants, when it may
        enter that square, and otherwise stays where it was with the
        level's fields untouched; no pellet ever appears. */
    lemma MoveEffect(w: World, unit: Unit, d: Direction)
      requires IsMover(unit)
      ensures var w' := AfterMove(w, unit, d);
        PelletCount(grid, w'.level.occupancy, false) <= PelletCount(grid, w.level.occupancy, false) &&
        PelletCount(grid, w'.level.occupancy, true) <= PelletCount(grid, w.level.occupancy, true)
      ensures !w.level.inProgress || MoverSquare(w, unit).None? ==> AfterMove(w, unit, d) == w
      ensures w.level.inProgress && MoverSquare(w, unit).Some? ==>
        var w' := AfterMove(w, unit, d);
        var from := MoverSquare(w, unit).value;
        var dest := Step(grid, from, d);
        MoverFacing(w', unit) == Some(d) && w'.level.inProgress &&
        if grid.accessible(dest, unit) then
          MoverSquare(w', unit) == Some(dest) && unit in Occupants(w'.level.occupancy, dest)
        else
          MoverSquare(w', unit) == Some(from) && w'.level == w.level
    {
      if w.level.inProgress && MoverSquare(w, unit).Some? {
        var dest := Step(grid, MoverSquare(w, unit).value, d);
        var turned := Turned(w, unit, d);
        assert MoverSquare(turned, unit) == MoverSquare(w, unit) && MoverFacing(turned, unit) == Some(d);
        if grid.accessible(dest, unit) {
          EntryPlacesUnit(turned, unit, dest);
        }
      }
    }

    /** `collisions.collide(mover, occupant)` for an occupant met on `at`:
        the declared rule, if any, and nothing else. */
    method Collide(mover: Unit, occupant: Unit, at: Square)
      requires Valid() && IsMover(mover) && Known(mover) && Known(occupant)
      modifies this`occupancy, this`gameMode, Ghosts(), Players(), Services()
      ensures Valid()
      ensures playerServices == old(playerServices)
      ensures RuleFor(mover, occupant, symmetricCollisions).GhostRuleFor? ==>
        var r := RuleFor(mover, occupant, symmetricCollisions);
        r.g in rebornSchedules && GhostRule(r.p, r.g, rebornSchedules[r.g])
      ensures RuleFor(mover, occupant, symmetricCollisions).PelletRuleFor? ==>
        mover.player in playerSchedules && PelletRule(mover.player, occupant, at)
      ensures Snapshot() == AfterCollision(old(Snapshot()), mover, occupant, at)
    {
      var rule := RuleFor(mover, occupant, symmetricCollisions);
      if rule.GhostRuleFor? {
        PlayerMeetsGhost(rule.p, rule.g);
        GhostRuleSnapshot(rule.p, rule.g);
      } else if rule.PelletRuleFor? {
        PlayerMeetsPellet(rule.p, occupant, at);
        PelletRuleSnapshot(rule.p, occupant, at);
      }
    }

    /** `move(unit, direction)`. A stopped level changes nothing. Otherwise
        the unit turns to the direction; when it may enter the neighbour
        square in that direction it moves there and then collides with the
        units that stood there before it, in their order, and the
        observers get the level's reports. Moving never adds pellets. */
    method Move(unit: Unit, d: Direction) returns (events: seq<Event>, collided: seq<Unit>)
      requires Valid() && IsMover(unit) && Known(unit) && SquareOf(unit).Some?
      modifies this`occupancy, this`gameMode, Ghosts(), Players(), Services()
      ensures Valid()
      ensures Snapshot() == AfterMove(old(Snapshot()), unit, d)
      ensures !inProgress ==>
        unchanged(this) && unchanged(Ghosts()) && unchanged(Players()) && unchanged(Services()) &&
        events == [] && collided == []
      ensures inProgress ==>
        var dest := Step(grid, old(SquareOf(unit)).value, d);
        events == Reports(AnyAlive(), PelletCount(grid, occupancy, false), nbPellets, spawnFruit) &&
        collided == if grid.accessible(dest, unit) then old(Occupants(occupancy, dest)) else []
    {
      if !inProgress {
        MoveEffect(Snapshot(), unit, d);
        return [], [];
      }
      MoverSquareOf(unit);
      ghost var before := Snapshot();
      collided := TurnAndEnter(unit, d);
      assert Snapshot() == AfterMove(before, unit, d);
      events := UpdateObservers();
    }

    /** The part of `move` between the check that the level is in progress
        and the observers' reports. */
    method TurnAndEnter(unit: Unit, d: Direction) returns (collided: seq<Unit>)
      requires Valid() && IsMover(unit) && Known(unit) && SquareOf(unit).Some?
      modifies this`occupancy, this`gameMode, Ghosts(), Players(), Services()
      ensures Valid()
      ensures var turned := Turned(old(Snapshot()), unit, d);
        var dest := Step(grid, old(SquareOf(unit)).value, d);
        Snapshot() == if grid.accessible(dest, unit) then AfterEntry(turned, unit, dest) else turned
      ensures var dest := Step(grid, old(SquareOf(unit)).value, d);
        collided == if grid.accessible(dest, unit) then old(Occupants(occupancy, dest)) else []
    {
      Turn(unit, d);
      var location := SquareOf(unit).value;
      var destination := Step(grid, location, d);
      collided := [];
      if grid.accessible(destination, unit) {
        collided := Enter(unit, destination);
      }
    }

    /** `unit.setDirection(d)` for a player or a ghost. */
    method Turn(unit: Unit, d: Direction)
      requires Valid() && IsMover(unit) && Known(unit)
      modifies MoverObject(unit)
      ensures Valid()
      ensures playerSchedules == old(playerSchedules) && playerServices == old(playerServices)
      ensures unit.PlayerUnit? ==> unit.player.Fields() == old(unit.player.Fields()).(direction := d)
      ensures unit.GhostUnit? ==> unit.npc.Fields() == old(unit.npc.Fields()).(direction := d)
      ensures Snapshot() == Turned(old(Snapshot()), unit, d)
    {
      if unit.PlayerUnit? {
        TurnPlayer(unit.player, d);
      } else {
        TurnGhost(unit.npc, d);
      }
    }

    /** `Turn` for a registered player. */
    method TurnPlayer(p: Player, d: Direction)
      requires Valid() && p in playerSchedules
      modifies p
      ensures Valid()
      ensures p.Fields() == old(p.Fields()).(direction := d)
      ensures Snapshot() == Turned(old(Snapshot()), PlayerUnit(p), d)
    {
      p.SetDirection(d);
      PlayerChanged(p);
      assert Fields() == old(Fields());
      assert GhostsView() == old(GhostsView());
      assert ServicesView() == old(ServicesView());
      assert old(Snapshot()).players[p] == old(p.Fields());
    }

    /** `Turn` for a ghost of the level. */
    method TurnGhost(g: Ghost, d: Direction)
      requires Valid() && g in moveSchedules
      modifies g
      ensures Valid()
      ensures g.Fields() == old(g.Fields()).(direction := d)
      ensures Snapshot() == Turned(old(Snapshot()), GhostUnit(g), d)
    {
      g.SetDirection(d);
      GhostChanged(g);
      assert Fields() == old(Fields());
      assert PlayersView() == old(PlayersView());
      assert ServicesView() == old(ServicesView());
      assert old(Snapshot()).ghosts[g] == old(g.Fields());
    }

    /** The square a unit of the level stands on, read from the world. */
    lemma MoverSquareOf(unit: Unit)
      requires IsMover(unit) && Known(unit)
      ensures MoverSquare(Snapshot(), unit) == SquareOf(unit)
    {
    }

    /** The accessible case of `move`: the unit occupies `destination`,
        then collides with the units that stood there before it, in their
        order. No pellet is added on the way. */
    method Enter(unit: Unit, destination: Square) returns (collided: seq<Unit>)
      requires Valid() && IsMover(unit) && Known(unit)
      modifies this`occupancy, this`gameMode, Ghosts(), Players(), Services()
      ensures Valid()
      ensures collided == old(Occupants(occupancy, destination))
      ensures Snapshot() == AfterEntry(old(Snapshot()), unit, destination)
    {
      collided := Occupants(occupancy, destination);
      assert AllKnown(collided, moveSchedules.Keys, playerSchedules.Keys);
      Arrive(unit, destination);
      MeetAll(unit, collided, destination);
    }

    /** `unit.occupy(destination)` within `move`. */
    method Arrive(unit: Unit, destination: Square)
      requires Valid() && IsMover(unit) && Known(unit)
      modifies this`occupancy, MoverObject(unit)
      ensures Valid()
      ensures playerSchedules == old(playerSchedules) && playerServices == old(playerServices)
      ensures Snapshot() == Arrived(old(Snapshot()), unit, destination)
    {
      if unit.PlayerUnit? {
        PlayerArrive(unit.player, destination);
      } else {
        GhostArrive(unit.npc, destination);
      }
    }

    /** `Arrive` for a registered player. */
    method PlayerArrive(p: Player, destination: Square)
      requires Valid() && p in playerSchedules
      modifies this`occupancy, p
      ensures Valid()
      ensures Snapshot() == Arrived(old(Snapshot()), PlayerUnit(p), destination)
    {
      OccupyKnown(PlayerUnit(p), destination);
      PlayerArrivedSnapshot(p, destination, Fields());
    }

    /** `Arrive` for a ghost of the level. */
    method GhostArrive(g: Ghost, destination: Square)
      requires Valid() && g in moveSchedules
      modifies this`occupancy, g
      ensures Valid()
      ensures Snapshot() == Arrived(old(Snapshot()), GhostUnit(g), destination)
    {
      OccupyKnown(GhostUnit(g), destination);
      GhostArrivedSnapshot(g, destination, Fields());
    }

    /** `player.occupy(target)`, stated on the objects, is `Arrived` on
        the world; `level` is the level's new fields. */
    twostate lemma PlayerArrivedSnapshot(new p: Player, target: Square, new level: LevelFields)
      requires p in playerSchedules && playerSchedules == old(playerSchedules) && playerServices == old(playerServices)
      requires level == old(Fields()).(occupancy := Occupied(old(occupancy), PlayerUnit(p), old(p.square), target))
      requires Fields() == level
      requires p.Fields() == old(p.Fields()).(square := Some(target))
      requires unchanged(Players() - {p}) && unchanged(Ghosts()) && unchanged(Services())
      ensures Snapshot() == Arrived(old(Snapshot()), PlayerUnit(p), target)
    {
      PlayerChanged(p);
      ArrivedWorld(old(Snapshot()), Snapshot(), PlayerUnit(p), target, old(p.square), level);
    }

    /** `ghost.occupy(target)`, stated on the objects, is `Arrived` on the
        world; `level` is the level's new fields. */
    twostate lemma GhostArrivedSnapshot(new g: Ghost, target: Square, new level: LevelFields)
      requires g in moveSchedules && playerSchedules == old(playerSchedules) && playerServices == old(playerServices)
      requires level == old(Fields()).(occupancy := Occupied(old(occupancy), GhostUnit(g), old(g.square), target))
      requires Fields() == level
      requires g.Fields() == old(g.Fields()).(square := Some(target))
      requires unchanged(Players()) && unchanged(Ghosts() - {g}) && unchanged(Services())
      ensures Snapshot() == Arrived(old(Snapshot()), GhostUnit(g), target)
    {
      GhostChanged(g);
      ArrivedWorld(old(Snapshot()), Snapshot(), GhostUnit(g), target, old(g.square), level);
    }

    /** `Arrived`, put together from its effect on each part of the world. */
    lemma ArrivedWorld(w: World, now: World, unit: Unit, target: Square, from: Option<Square>, level: LevelFields)
      requires IsMover(unit) && MoverSquare(w, unit) == from
      requires level == w.level.(occupancy := Occupied(w.level.occupancy, unit, from, target))
      requires now.level == level && now.services == w.services
      requires unit.PlayerUnit? ==>
        unit.player in w.players && now.ghosts == w.ghosts &&
        now.players == w.players[unit.player := w.players[unit.player].(square := Some(target))]
      requires unit.GhostUnit? ==>
        unit.npc in w.ghosts && now.players == w.players &&
        now.ghosts == w.ghosts[unit.npc := w.ghosts[unit.npc].(square := Some(target))]
      ensures now == Arrived(w, unit, target)
    {
    }

    /** The collision loop of `move`: the unit standing on `at` collides
        with each unit of `occupants`, in order. */
    method MeetAll(unit: Unit, occupants: seq<Unit>, at: Square)
      requires Valid() && IsMover(unit) && Known(unit) && AllKnown(occupants, moveSchedules.Keys, playerSchedules.Keys)
      modifies this`occupancy, this`gameMode, Ghosts(), Players(), Services()
      ensures Valid()
      ensures Snapshot() == AfterCollisions(old(Snapshot()), unit, occupants, at)
    {
      for i := 0 to |occupants|
        invariant Valid()
        invariant Snapshot() == AfterCollisions(old(Snapshot()), unit, occupants[..i], at)
      {
        assert occupants[..i + 1][..i] == occupants[..i];
        Collide(unit, occupants[i], at);
      }
      assert occupants[..|occupants|] == occupants;
    }

    /** The services `start` and `stop` go through are services of the
        level, hence consistent. */
    lemma SchedulesAreServices()
      requires Valid()
      ensures forall s :: s in Schedules() ==> s in Services() && s.Valid()
    {
    }

    /** Every service `start` goes through has been resumed once since
        the old state. */
    twostate predicate SchedulesResumed()
      reads this`playerSchedules, Schedules()
    {
      forall s :: s in Schedules() ==> old(allocated(s)) && old(s.Valid()) && s.State() == Resumed(old(s.State()))
    }

    /** `start()`: a started level is left alone; otherwise every service
        resumes, the level is in progress and the observers get the
        level's reports. */
    method Start() returns (events: seq<Event>)
      requires Valid()
      modifies this`inProgress, Services()
      ensures Valid()
      ensures old(inProgress) ==> unchanged(this) && unchanged(Services()) && events == []
      ensures !old(inProgress) ==>
        Fields() == old(Fields()).(inProgress := true) &&
        SchedulesResumed() &&
        events == Reports(AnyAlive(), PelletCount(grid, occupancy, false), nbPellets, spawnFruit)
    {
      if inProgress {
        return [];
      }
      ResumeSchedules();
      inProgress := true;
      events := UpdateObservers();
    }

    /** `startNPCs()`, `startPlayers()` and the exit service's `resume()`:
        every service resumes once. */
    method ResumeSchedules()
      requires Valid()
      modifies Services()
      ensures Valid()
      ensures SchedulesResumed()
    {
      SchedulesAreServices();
      ResumeAll(Schedules());
    }

    /** Every service `stop` goes through has been suspended once since
        the old state, `observed(s)` being the delay its future still had. */
    twostate predicate SchedulesSuspended(observed: ScheduledTaskService<Command> -> int)
      reads this`playerSchedules, Schedules()
    {
      forall s :: s in Schedules() ==> old(allocated(s)) && s.State() == Suspended(old(s.State()), observed(s))
    }

    /** `stop()`: a stopped level is left alone; otherwise every service is
        suspended, `observed(s)` being the delay the future of `s` still
        has, and the level is no longer in progress. */
    method Stop(observed: ScheduledTaskService<Command> -> int)
      requires Valid()
      modifies this`inProgress, Services()
      ensures Valid()
      ensures !old(inProgress) ==> unchanged(this) && unchanged(Services())
      ensures old(inProgress) ==>
        Fields() == old(Fields()).(inProgress := false) &&
        SchedulesSuspended(observed)
    {
      if !inProgress {
        return;
      }
      SchedulesAreServices();
      SuspendAll(Schedules(), observed);
      inProgress := false;
    }

    /** `placeFruit()` with the fruit the factory makes and `draw` for the
        random index; an empty list of fruit squares makes `nextInt(0)`
        throw. As written, the fruit is put on the chosen square and
        `spawnFruit` is left as it was (see `HalfEatenRepeats`). */
    method PlaceFruit(fruit: Fruit, id: nat, draw: nat) returns (r: Result<Square>)
      requires Valid()
      modifies this`occupancy
      ensures Valid()
      ensures |fruitSquares| == 0 ==> r == Err(IllegalArgument) && unchanged(this)
      ensures |fruitSquares| > 0 ==>
        r == Ok(fruitSquares[FruitIndex(|fruitSquares|, draw)]) &&
        Fields() == FruitPlacedAsWritten(old(Fields()), FruitUnit(id, fruit), r.value)
    {
      if |fruitSquares| == 0 {
        return Err(IllegalArgument);
      }
      var at := fruitSquares[FruitIndex(|fruitSquares|, draw)];
      KnownAfterOccupy(occupancy, FruitUnit(id, fruit), None, at, moveSchedules.Keys, playerSchedules.Keys);
      occupancy := Occupied(occupancy, FruitUnit(id, fruit), None, at);
      r := Ok(at);
    }

    /** `placeFruit()` corrected: as `PlaceFruit`, and `spawnFruit`
        records that a fruit was placed, so that the half-eaten report
        and the fruit come once (see `HalfEatenOnce`). */
    method PlaceFruitIntended(fruit: Fruit, id: nat, draw: nat) returns (r: Result<Square>)
      requires Valid()
      modifies this`occupancy, this`spawnFruit
      ensures Valid()
      ensures |fruitSquares| == 0 ==> r == Err(IllegalArgument) && unchanged(this)
      ensures |fruitSquares| > 0 ==>
        r == Ok(fruitSquares[FruitIndex(|fruitSquares|, draw)]) &&
        Fields() == FruitPlaced(old(Fields()), FruitUnit(id, fruit), r.value)
    {
      r := PlaceFruit(fruit, id, draw);
      if r.Ok? {
        spawnFruit := true;
      }
    }
  }
}
