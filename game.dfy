/** A game (game/Game.java): a flag saying whether it is in progress and
    the level it plays. The game observes its level and stops when the
    level is won or lost. The player list and the strategy selection of
    the concrete games are not part of this model. */
module Games {
  import opened Wrappers
  import opened Directions
  import opened Units
  import opened Scheduling
  import opened Levels

  class Game {
    var inProgress: bool
    const level: Level

    /** The level is consistent and is in progress exactly when the game
        is: only the game starts and stops it. */
    ghost predicate Valid()
      reads this, level, level.Services()
    {
      level.Valid() && inProgress == level.inProgress
    }

    /** A new game is not in progress; `level` is the stopped level it
        plays. */
    constructor(level: Level)
      requires level.Valid() && !level.inProgress
      ensures Valid() && !inProgress && this.level == level
    {
      inProgress := false;
      this.level := level;
    }

    /** `start()`: a game in progress is left alone; otherwise the game and
        its level start only when some player is alive and an ordinary
        pellet remains, and the level's reports at that moment are never
        a won or lost level. */
    method Start() returns (events: seq<Event>)
      requires Valid()
      modifies this, level`inProgress, level.Services()
      ensures Valid()
      ensures old(inProgress) || !(level.AnyAlive() && PelletCount(level.grid, level.occupancy, false) > 0) ==>
        unchanged(this) && unchanged(level) && unchanged(level.Services()) && events == []
      ensures !old(inProgress) && level.AnyAlive() && PelletCount(level.grid, level.occupancy, false) > 0 ==>
        inProgress && level.Fields() == old(level.Fields()).(inProgress := true) &&
        level.SchedulesResumed() &&
        LevelWon !in events && LevelLost !in events
    {
      if inProgress {
        return [];
      }
      var ready := Ready();
      if !ready {
        return [];
      }
      assert unchanged(level.Schedules());
      events := Launch();
    }

    /** The guard of `start()`: some player is alive and an ordinary pellet
        remains. */
    method Ready() returns (ready: bool)
      requires Valid()
      ensures ready <==> level.AnyAlive() && PelletCount(level.grid, level.occupancy, false) > 0
      ensures unchanged(level.Schedules())
    {
      var alive := level.IsAnyPlayerAlive();
      var pellets := level.RemainingPellets(false);
      ready := alive && pellets > 0;
    }

    /** The guarded part of `start()`: the game is in progress and its
        level starts. */
    method Launch() returns (events: seq<Event>)
      requires Valid() && !inProgress
      modifies this, level`inProgress, level.Services()
      ensures Valid() && inProgress
      ensures level.Fields() == old(level.Fields()).(inProgress := true) && level.SchedulesResumed()
      ensures events == Reports(level.AnyAlive(), PelletCount(level.grid, level.occupancy, false), level.nbPellets, level.spawnFruit)
    {
      inProgress := true;
      events := level.Start();
    }

    /** `stop()`: a game not in progress is left alone; otherwise the game
        and its level stop, `observed(s)` being the delay the future of
        service `s` still has. */
    method Stop(observed: ScheduledTaskService<Command> -> int)
      requires Valid()
      modifies this, level`inProgress, level.Services()
      ensures Valid()
      ensures !old(inProgress) ==> unchanged(this) && unchanged(level) && unchanged(level.Services())
      ensures old(inProgress) ==>
        !inProgress && level.Fields() == old(level.Fields()).(inProgress := false) &&
        level.SchedulesSuspended(observed)
    {
      if !inProgress {
        return;
      }
      inProgress := false;
      level.Stop(observed);
    }

    /** `setPlayerDirection(player, direction)`: the player turns only
        while the game is in progress. */
    method SetPlayerDirection(player: Player, direction: Direction)
      modifies player
      ensures inProgress ==> player.Fields() == old(player.Fields()).(direction := direction)
      ensures !inProgress ==> unchanged(player)
    {
      if inProgress {
        player.SetDirection(direction);
      }
    }

    /** The game as an observer of its level: `levelWon()` and
        `levelLost()` both stop the game; a half-eaten report is for the
        concrete game, which is not part of this model. */
    method Notify(event: Event, observed: ScheduledTaskService<Command> -> int)
      requires Valid()
      modifies this, level`inProgress, level.Services()
      ensures Valid()
      ensures event.HalfPelletsEaten? || !old(inProgress) ==>
        unchanged(this) && unchanged(level) && unchanged(level.Services())
      ensures !event.HalfPelletsEaten? && old(inProgress) ==>
        !inProgress && level.Fields() == old(level.Fields()).(inProgress := false) &&
        level.SchedulesSuspended(observed)
    {
      match event
      case LevelWon => Stop(observed);
      case LevelLost => Stop(observed);
      case HalfPelletsEaten =>
    }
  }
}
