/** The tasks the level's services run (level/task/GhostMoveTask.java,
    level/task/PlayerMoveTask.java, level/task/ExitHuntingModeTask.java).
    A run is one atomic step on the level; the executor that calls it is
    not modelled. */
module Tasks {
  import opened Wrappers
  import opened Directions
  import opened Boards
  import opened Units
  import opened Scheduling
  import opened Levels
  import opened GhostAI

  /** `schedule(command, delay, true)` forgets what the service held:
      the command is armed at once with the delay. */
  lemma ScheduledNow<C>(s: Service<C>, command: C, delay: int)
    ensures Scheduled(s, command, delay, true) == Scheduled(Fresh(), command, delay, true)
    ensures Armed(Scheduled(s, command, delay, true))
  {
  }

  // ----------------------------------------------------------------------
  // GhostMoveTask
  // ----------------------------------------------------------------------

  /** `moveGhost()`: the ghost's `nextMove()` is asked and, when it answers
      a direction, the level moves the ghost that way. */
  method MoveGhost(level: Level, npc: Ghost, tuning: Tuning, draw: nat)
    returns (direction: Option<Direction>)
    requires level.Valid() && npc in level.moveSchedules
    requires npc.square.Some? && OnBoard(level.grid, npc.square.value)
    modifies level`occupancy, level`gameMode, level.Ghosts(), level.Players(), level.Services()
    ensures level.Valid()
    ensures direction == old(NextMoveOf(level.grid, level.occupancy, npc, tuning, draw))
    ensures direction.None? ==>
      unchanged(level) && unchanged(level.Ghosts()) && unchanged(level.Players()) && unchanged(level.Services())
    ensures direction.Some? ==>
      level.Snapshot() == level.AfterMove(old(level.Snapshot()), GhostUnit(npc), direction.value)
  {
    var ai;
    direction, ai := NextMove(level.grid, level.occupancy, npc, tuning, draw);
    if direction.Some? {
      level.SnapshotFramed();
      var events, collided := level.Move(GhostUnit(npc), direction.value);
    }
  }

  /** The world after a task's move: the move `direction` of `unit`, or
      nothing when no direction was answered. */
  function MovedBy(level: Level, w: World, unit: Unit, direction: Option<Direction>): World
    requires IsMover(unit)
  {
    if direction.Some? then level.AfterMove(w, unit, direction.value) else w
  }

  /** `GhostMoveTask.run()`. An alive ghost moves, then its task is armed
      again with the ghost's interval; a dead ghost away from its initial
      square moves, then the task is armed with `deadMoveInterval`
      (`DEAD_MOVE_INTERVAL`); a dead ghost on its initial square does not
      move and the task is armed with its interval. The interval is read
      after the move, whose collisions may have changed the ghost's mode;
      `intervalDraw` is the random part of it, and a negative interval
      variation makes `nextInt` throw before anything is armed. */
  method RunGhostMove(level: Level, npc: Ghost, tuning: Tuning, draw: nat, intervalDraw: nat, deadMoveInterval: int)
    returns (direction: Option<Direction>, delay: Result<int>)
    requires level.Valid() && npc in level.moveSchedules
    requires npc.square.Some? && OnBoard(level.grid, npc.square.value)
    modifies level`occupancy, level`gameMode, level.Ghosts(), level.Players(), level.Services()
    ensures level.Valid()
    ensures old(npc.alive) || old(npc.square) != Some(npc.initialPosition) ==>
      direction == old(NextMoveOf(level.grid, level.occupancy, npc, tuning, draw))
    ensures !old(npc.alive) && old(npc.square) == Some(npc.initialPosition) ==> direction.None?
    ensures old(npc.alive) || old(npc.square) == Some(npc.initialPosition) ==>
      delay == GhostInterval(npc.moveInterval, npc.gameMode, npc.intervalVariation, intervalDraw)
    ensures !old(npc.alive) && old(npc.square) != Some(npc.initialPosition) ==> delay == Ok(deadMoveInterval)
    ensures var moved := MovedBy(level, old(level.Snapshot()), GhostUnit(npc), direction);
      level.Snapshot() == if delay.Ok? then Rearmed(moved, level.moveSchedules[npc], GhostMove(npc), delay.value) else moved
    ensures delay.Ok? ==>
      level.moveSchedules[npc].State() == Scheduled(Fresh(), GhostMove(npc), delay.value, true)
  {
    if npc.alive {
      direction := MoveGhost(level, npc, tuning, draw);
      delay := npc.Interval(intervalDraw);
    } else if npc.square != Some(npc.initialPosition) {
      direction := MoveGhost(level, npc, tuning, draw);
      delay := Ok(deadMoveInterval);
    } else {
      direction := None;
      delay := npc.Interval(intervalDraw);
    }
    if delay.Ok? {
      level.ScheduleMove(npc, delay.value);
    }
  }

  // ----------------------------------------------------------------------
  // PlayerMoveTask
  // ----------------------------------------------------------------------

  /** `PlayerMoveTask.run()`: the player's `nextMove()` is asked (a
      computed strategy answers `strategyMove`); when it answers a
      direction the level moves the player that way; then the task is
      armed again, at once, with the player's fixed `MOVE_INTERVAL`. A
      player with no strategy, or a strategy that throws, makes
      `nextMove()` throw: nothing moves and the task is not armed again. */
  method RunPlayerMove(level: Level, p: Player, strategyMove: Result<Option<Direction>>)
    returns (direction: Result<Option<Direction>>)
    requires level.Valid() && p in level.playerSchedules && p.square.Some?
    modifies level`occupancy, level`gameMode, level.Ghosts(), level.Players(), level.Services()
    ensures level.Valid()
    ensures direction == old(p.NextMove(strategyMove))
    ensures direction.Err? ==>
      unchanged(level) && unchanged(level.Ghosts()) && unchanged(level.Players()) && unchanged(level.Services())
    ensures direction.Ok? ==>
      level.Snapshot() ==
        Rearmed(MovedBy(level, old(level.Snapshot()), PlayerUnit(p), direction.value),
                level.playerSchedules[p], PlayerMove(p), p.moveInterval)
    ensures direction.Ok? ==>
      level.playerSchedules[p].State() == Scheduled(Fresh(), PlayerMove(p), p.moveInterval, true)
  {
    direction := p.NextMove(strategyMove);
    if direction.Err? {
      return;
    }
    if direction.value.Some? {
      var events, collided := level.Move(PlayerUnit(p), direction.value.value);
    }
    level.SchedulePlayer(p, p.moveInterval);
  }

  // ----------------------------------------------------------------------
  // ExitHuntingModeTask
  // ----------------------------------------------------------------------

  /** A ghost after the exit task moved the level to mode `b`: it takes
      the new mode only when it is alive and in the mode before `b`,
      `(b + 2) % 3`. */
  function Propagated(f: GhostFields, b: Byte): GhostFields {
    if f.alive && f.mode == JavaRem(b + 2, 3) then f.(mode := b) else f
  }

  /** The two runs of the exit task, 1 to 2 and 2 to 0, bring every alive
      ghost that was frightened (mode 1 or 2) back to chasing, and touch
      no other ghost. */
  lemma ExitCycle(f: GhostFields)
    ensures Propagated(Propagated(f, 2), 0) ==
      if f.alive && (f.mode == 1 || f.mode == 2) then f.(mode := 0) else f
  {
  }

  /** The task's `setGameMode(b)`: the level's `setGameMode(b)`, then every
      ghost of the level follows as `Propagated` says. */
  method PropagateMode(level: Level, b: Byte)
    requires level.Valid()
    modifies level`gameMode, level.Ghosts(), level.Players(), level.exitHuntingService
    ensures level.Valid()
    ensures level.Fields() == old(level.Fields()).(gameMode := b)
    ensures level.exitHuntingService.State() ==
      HuntingTimer(old(level.exitHuntingService.State()), b, PelletCount(level.grid, level.occupancy, true))
    ensures forall p :: p in level.playerSchedules ==> p.Fields() == PlayerAfterMode(old(p.Fields()), b)
    ensures forall g :: g in level.moveSchedules ==> g.Fields() == Propagated(GhostAfterMode(old(g.Fields()), b), b)
  {
    level.SetGameMode(b);
    FollowMode(level.Ghosts(), b);
  }

  /** The loop of the task's `setGameMode(b)` over the ghosts. */
  method FollowMode(ghosts: set<Ghost>, b: Byte)
    modifies ghosts
    ensures forall g :: g in ghosts ==> g.Fields() == Propagated(old(g.Fields()), b)
  {
    var todo := ghosts;
    while todo != {}
      invariant todo <= ghosts
      invariant forall g :: g in ghosts - todo ==> g.Fields() == Propagated(old(g.Fields()), b)
      invariant forall g :: g in todo ==> g.Fields() == old(g.Fields())
      decreases |todo|
    {
      var g :| g in todo;
      if g.alive && g.gameMode == JavaRem(b + 2, 3) {
        g.SetGameMode(b);
      }
      todo := todo - {g};
    }
  }

  /** `ExitHuntingModeTask.run()`: in mode 1 the level goes to mode 2 and
      the task is armed again for 2000 ms; in mode 2 the level goes back
      to mode 0, which cancels the task and resets every kill count; in
      any other mode nothing happens. */
  method RunExitHunting(level: Level)
    requires level.Valid()
    modifies level`gameMode, level.Ghosts(), level.Players(), level.exitHuntingService
    ensures level.Valid()
    ensures old(level.gameMode) == 1 ==>
      level.Fields() == old(level.Fields()).(gameMode := 2) &&
      level.exitHuntingService.State() == Scheduled(Fresh(), ExitHunting, 2000, true) &&
      (forall p :: p in level.playerSchedules ==> p.Fields() == old(p.Fields())) &&
      (forall g :: g in level.moveSchedules ==> g.Fields() == Propagated(old(g.Fields()), 2))
    ensures old(level.gameMode) == 2 ==>
      level.Fields() == old(level.Fields()).(gameMode := 0) &&
      level.exitHuntingService.State() == Cancelled(old(level.exitHuntingService.State())) &&
      (forall p :: p in level.playerSchedules ==> p.Fields() == old(p.Fields()).(kills := 0)) &&
      (forall g :: g in level.moveSchedules ==> g.Fields() == Propagated(old(g.Fields()), 0))
    ensures old(level.gameMode) != 1 && old(level.gameMode) != 2 ==>
      unchanged(level) && unchanged(level.Ghosts()) && unchanged(level.Players()) && unchanged(level.exitHuntingService)
  {
    if level.gameMode == 1 {
      PropagateMode(level, 2);
      level.exitHuntingService.Schedule(ExitHunting, 2000, true);
    } else if level.gameMode == 2 {
      PropagateMode(level, 0);
    }
  }
}
