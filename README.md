# jpacman game rules in Dafny

A model of the rules engine of jpacman, a Pac-Man game written in Java.
The model covers these parts:

- **Board**: four directions and their algebra. The board is a grid whose squares link to their neighbours. A unit may or may not enter a square.
- **Navigation**: the breadth-first `shortestPath` over `Node` chains, `getNextDirection`, and `findNearest`. `findNearest` searches outward from a square for the closest unit of a kind and answers the first one its queue reaches.
- **Units**: players with score, lives, the one extra life, kill counts and strategy. Ghosts with mode, liveness and move interval.
- **Scheduling**: `ScheduledTaskService`, which holds one command, one future and one remaining delay. It can be scheduled, suspended, resumed and cancelled.
- **Level**: occupant lists, pellet counts, the game mode and the hunting timer. Registering players round-robin on start squares. Moving with its collisions (player meets ghost, player eats pellet). The start/stop cycle, the won/lost/half-eaten reports, and placing the fruit.
- **Tasks**: the ghost move task, the player move task and the task that leaves hunting mode.
- **Ghost AI**: the common `Ghost.nextMove`, random moves, Clyde's shyness and Inky's target. Other ghosts have no AI.
- **Game** start/stop, and the **level factory**'s ghost cycle and pellets.
- **Automatic player**: the `PacManAI` helpers and the `PriorityToScoreStrategy` decision.

How the model is built:

- Pure computations are functions with lemmas.
- Objects whose fields the game updates (players, ghosts, services, the level, the game, the factory) are classes.
- Each class method states its whole new state through a `Fields()` value of the object.
- Every loop of the source is a method with a `while` or `for` loop, proved against a specification function.
- A Java exception that the code can reach is an `Err` value of `Wrappers.Result`: `NullPointer`, `IndexOutOfBounds`, `IllegalArgument` and `DivisionByZero`. A loop that never ends is `Err(Diverges)`.

Java `assert` statements are taken as disabled, which is the JVM default. The exception is an `assert` that checks a unit is on a square before its square is used. That one becomes a precondition.

Where the code and the documentation differ, the model follows the code. Examples:

- A dead ghost walks home with its own accessibility rules, since the code passes the ghost itself to the search.
- `Collections.shuffle`, the random draws, the iteration order of `HashMap`s and of the level's ghost set are inputs of the operation that uses them.

Two behaviours of the automatic player are modelled as written:

- **The "dangerous" paths are the safe paths.** `PriorityToScoreStrategy.nextMove` builds its "dangerous" paths by keeping the possible paths whose key is in the safe paths. So they are the safe paths again, as `DangerousIsSafe` proves, and `getWorthPaths` is asked about safe paths only.
- **The chase uses a path computed in advance.** When the nearest ghost is frightened, the strategy chases it along a shortest path that it computes before it checks the ghost's mode.

## Model

| member | source | states |
|---|---|---|
| Wrappers.JavaDiv | src/main/java/nl/tudelft/jpacman/level/Level.java:137 | Java's `/` on a positive divisor truncates toward zero: the remainder has the sign of the dividend and is smaller than the divisor |
| Wrappers.JavaRem | src/main/java/nl/tudelft/jpacman/level/LevelFactory.java:90 | Java's `%` is non-negative on a non-negative dividend and agrees with the mathematical remainder there; on a negative dividend it lies in (-divisor, 0] |
| Directions.Values | src/main/java/nl/tudelft/jpacman/board/Direction.java:13-28 | `values()` has the four directions, none twice, in declaration order |
| Directions.ValuesComplete | src/main/java/nl/tudelft/jpacman/board/Direction.java:13-28 | every direction is among `values()` |
| Directions.UnitStep | src/main/java/nl/tudelft/jpacman/board/Direction.java:13-28 | every direction moves exactly one square along exactly one axis |
| Directions.DeltaInjective | src/main/java/nl/tudelft/jpacman/board/Direction.java:82-92 | two directions with the same deltas are the same direction |
| Directions.Opposite | src/main/java/nl/tudelft/jpacman/board/Direction.java:97-99 | the opposite direction negates both deltas |
| Directions.Clockwise | src/main/java/nl/tudelft/jpacman/board/Direction.java:104-106 | the clockwise direction is the quarter turn (dx, dy) to (-dy, dx) |
| Directions.OppositeClockwise | src/main/java/nl/tudelft/jpacman/board/Direction.java:111-113 | the anticlockwise direction is the quarter turn (dx, dy) to (dy, -dx) |
| Directions.OppositeIsInvolution | src/main/java/nl/tudelft/jpacman/board/Direction.java:97-99 | the opposite of the opposite is the direction itself, and no direction is its own opposite |
| Directions.ClockwiseAlgebra | src/main/java/nl/tudelft/jpacman/board/Direction.java:104-106 | two clockwise turns give the opposite, four give the direction back, and a turn is perpendicular |
| Directions.OppositeClockwiseIsInverse | src/main/java/nl/tudelft/jpacman/board/Direction.java:111-113 | the anticlockwise turn undoes the clockwise turn both ways and equals the opposite of the clockwise turn |
| Boards.AccessibleDirectionsSpec | src/main/java/nl/tudelft/jpacman/strategies/PacManAI.java:140-149 | a direction is listed exactly when the unit may enter the neighbour that way, and the list keeps the order of `values()` |
| Nodes.GetPath | src/main/java/nl/tudelft/jpacman/strategies/Node.java:75-82 | the path of a node has one direction per ancestor |
| Nodes.LinkedPath | src/main/java/nl/tudelft/jpacman/strategies/Node.java:75-82 | the path of a node built by the search leads from the start to the node's square, and the traveller may enter every square along it |
| Navigation.NewTargetsSpec | src/main/java/nl/tudelft/jpacman/strategies/Navigation.java:56-63 | the new nodes are children of the node, one per direction, on unvisited enterable neighbours, and every such neighbour gets one |
| Navigation.AddNewTargets | src/main/java/nl/tudelft/jpacman/strategies/Navigation.java:56-63 | the loop appends exactly those children, in the order of `values()` |
| Navigation.BfsPathSound | src/main/java/nl/tudelft/jpacman/strategies/Navigation.java:36-54 | the search answers a path exactly when the destination is reachable, and that path leads there through enterable squares |
| Navigation.BfsPathMinimal | src/main/java/nl/tudelft/jpacman/strategies/Navigation.java:36-54 | no path the traveller may take to the destination is shorter than the one the search answers |
| Navigation.ShortestPath | src/main/java/nl/tudelft/jpacman/strategies/Navigation.java:36-54 | the breadth-first loop over the target queue answers the search's path, or none |
| Navigation.NextDirectionSpec | src/main/java/nl/tudelft/jpacman/strategies/Navigation.java:75-81 | there is no next direction exactly when the traveller is already there or cannot get there; otherwise it is the first step of a shortest path |
| Navigation.FirstOfType | src/main/java/nl/tudelft/jpacman/strategies/Navigation.java:149-157 | the answer is the first occupant of the kind, and none exactly when no occupant is of the kind |
| Navigation.FindUnit | src/main/java/nl/tudelft/jpacman/strategies/Navigation.java:149-157 | the loop over the occupants answers that first occupant |
| Navigation.FindUnitInBoard | src/main/java/nl/tudelft/jpacman/strategies/Navigation.java:126-137 | the scan answers a unit of the kind from the first square in row-major order that holds one, and none exactly when no square does |
| Navigation.FindNearest | src/main/java/nl/tudelft/jpacman/strategies/Navigation.java:93-115 | the queue loop answers `NearestSquare`: the first square, in the order the de-duplicating queue visits them with neighbours queued in `Direction.values()` order, that holds a unit of the kind, and that square's first such unit |
| Navigation.NearestScanSound | src/main/java/nl/tudelft/jpacman/strategies/Navigation.java:93-115 | from any state of the queue loop's invariant, the scan answers a square that holds a unit of the kind at the end of a walk no shorter walk of which meets one, or none when no walk meets one |
| Navigation.NearestSquareSpec | src/main/java/nl/tudelft/jpacman/strategies/Navigation.java:93-115 | the square `findNearest` stops on is a nearest one and on the board; there is none exactly when no walk from the start meets a unit of the kind |
| Units.AddedPoints | src/main/java/nl/tudelft/jpacman/level/unit/Player.java:221-227 | adding points raises the score by them; the extra life is granted once the score reaches the threshold, and only the first time |
| Units.ExtraLifeOnce | src/main/java/nl/tudelft/jpacman/level/unit/Player.java:221-235 | over any series of gains the score is the sum; at most one life is ever added, and one is added exactly when some running total reached the threshold |
| Units.Player.constructor | src/main/java/nl/tudelft/jpacman/level/unit/Player.java:91-100 | a new player is alive with score 0, no kills, the configured lives, no extra life yet, no strategy and no square |
| Units.Player.SetConsecutiveKills | src/main/java/nl/tudelft/jpacman/level/unit/Player.java:125-127 | only the kill count changes |
| Units.Player.SetAlive | src/main/java/nl/tudelft/jpacman/level/unit/Player.java:134-142 | only the liveness changes |
| Units.Player.AddPoints | src/main/java/nl/tudelft/jpacman/level/unit/Player.java:221-227 | score, extra-life flag and lives change as `AddedPoints` says, nothing else |
| Units.Player.GainExtraLife | src/main/java/nl/tudelft/jpacman/level/unit/Player.java:232-235 | one more life and the extra-life flag set, nothing else |
| Units.Player.LoseLife | src/main/java/nl/tudelft/jpacman/level/unit/Player.java:240-247 | one life fewer; observers are told exactly when lives remain, otherwise the player dies |
| Units.Player.SetStrategy | src/main/java/nl/tudelft/jpacman/level/unit/Player.java:211-213 | only the strategy changes |
| Units.Player.NextMove | src/main/java/nl/tudelft/jpacman/level/unit/Player.java:254-260 | without a strategy the call throws a null dereference; a human player keeps its direction; an automatic one passes on its strategy's answer, a direction, none or the exception it throws; it fails exactly in those two throwing cases |
| Units.GhostInterval | src/main/java/nl/tudelft/jpacman/npc/Ghost.java:153-164 | a negative variation throws; otherwise the interval lies in [base, base + variation), the base doubled when the ghost is not chasing |
| Units.GhostIntervalCovers | src/main/java/nl/tudelft/jpacman/npc/Ghost.java:153-164 | every interval in that range is the answer for some random draw |
| Units.Ghost.constructor | src/main/java/nl/tudelft/jpacman/npc/Ghost.java:83-90 | a new ghost is alive, chasing (mode 0), with its kind, intervals and initial position, and no square |
| Units.Ghost.SetAlive | src/main/java/nl/tudelft/jpacman/npc/Ghost.java:135-137 | only the liveness changes |
| Units.Ghost.SetGameMode | src/main/java/nl/tudelft/jpacman/npc/Ghost.java:108-110 | only the mode changes |
| Scheduling.Scheduled | src/main/java/nl/tudelft/jpacman/level/task/ScheduledTaskService.java:29-37 | scheduling records the command; started now, a future with the delay is armed and no delay remains; deferred, the future is kept and the delay remains |
| Scheduling.Suspended | src/main/java/nl/tudelft/jpacman/level/task/ScheduledTaskService.java:42-47 | suspending disarms the service, keeps the command, and does nothing without a future |
| Scheduling.Resumed | src/main/java/nl/tudelft/jpacman/level/task/ScheduledTaskService.java:52-56 | resuming arms a future with the remaining delay when one remains and otherwise changes nothing |
| Scheduling.Cancelled | src/main/java/nl/tudelft/jpacman/level/task/ScheduledTaskService.java:61-66 | cancelling drops the future and keeps the remaining delay and the command |
| Scheduling.PauseResume | src/main/java/nl/tudelft/jpacman/level/task/ScheduledTaskService.java:42-56 | suspend then resume re-arms the same command with the delay observed at suspension, unless that delay was 0 |
| Scheduling.DueTimerDropped | src/main/java/nl/tudelft/jpacman/level/task/ScheduledTaskService.java:42-56 | a future suspended when it was due is not re-armed by resume |
| Scheduling.DeferredStart | src/main/java/nl/tudelft/jpacman/level/task/ScheduledTaskService.java:29-56 | a deferred schedule on an idle service starts on the next resume exactly when its delay is not 0 |
| Scheduling.CancelThenResume | src/main/java/nl/tudelft/jpacman/level/task/ScheduledTaskService.java:52-66 | after a cancel, resume re-arms the task exactly when a delay was left over |
| Scheduling.ResumeIdempotent | src/main/java/nl/tudelft/jpacman/level/task/ScheduledTaskService.java:52-56 | resuming twice is resuming once |
| Scheduling.ScheduledTaskService.constructor | src/main/java/nl/tudelft/jpacman/level/task/ScheduledTaskService.java:18-20 | a new service holds nothing |
| Scheduling.ScheduledTaskService.Schedule | src/main/java/nl/tudelft/jpacman/level/task/ScheduledTaskService.java:29-37 | the new state is `Scheduled` of the old |
| Scheduling.ScheduledTaskService.Suspend | src/main/java/nl/tudelft/jpacman/level/task/ScheduledTaskService.java:42-47 | the new state is `Suspended` of the old, with the delay still to run |
| Scheduling.ScheduledTaskService.Resume | src/main/java/nl/tudelft/jpacman/level/task/ScheduledTaskService.java:52-56 | the new state is `Resumed` of the old |
| Scheduling.ScheduledTaskService.CancelTask | src/main/java/nl/tudelft/jpacman/level/task/ScheduledTaskService.java:61-66 | the new state is `Cancelled` of the old |
| Scheduling.ResumeAll | src/main/java/nl/tudelft/jpacman/level/Level.java:328-331 | the loop resumes every service of the set and each stays consistent |
| Scheduling.SuspendAll | src/main/java/nl/tudelft/jpacman/level/Level.java:336-339 | the loop suspends every service of the set and each stays consistent |
| Levels.CountPellets | src/main/java/nl/tudelft/jpacman/level/Level.java:437-452 | the nested loop over columns and rows counts the pellets of the given kind on the board |
| Levels.PelletCountUpdate | src/main/java/nl/tudelft/jpacman/level/Level.java:437-452 | replacing one square's occupants changes the board count by the change on that square alone |
| Lists.IndexOf | src/main/java/nl/tudelft/jpacman/strategies/PacManAI.java:135 | the position found holds the element and no earlier position does |
| Lists.RemoveFirst | src/main/java/nl/tudelft/jpacman/level/DefaultPlayerInteractionMap.java:58 | `List.remove` takes out the first occurrence and keeps the others in order; a list without the element is unchanged; one copy leaves the multiset |
| Lists.RemoveKeeps | src/main/java/nl/tudelft/jpacman/strategies/PacManAI.java:135 | every other element stays in the list |
| Lists.RemoveSubset | src/main/java/nl/tudelft/jpacman/strategies/PacManAI.java:135 | nothing new enters the list |
| Lists.RemoveDistinct | src/main/java/nl/tudelft/jpacman/strategies/PacManAI.java:135 | in a list without repeats, none of the removed element is left |
| Levels.PelletsRemoved | src/main/java/nl/tudelft/jpacman/level/DefaultPlayerInteractionMap.java:56-63 | removing a unit lowers the count of a pellet kind by one exactly when the unit was such a pellet on the list |
| Levels.Occupied | src/main/java/nl/tudelft/jpacman/level/Level.java:273-292 | occupying puts the unit last on the target, takes it off its old square, and leaves every other square alone |
| Levels.OccupyKeepsPellets | src/main/java/nl/tudelft/jpacman/level/Level.java:273-292 | moving a unit that is not a pellet of a kind leaves that kind's count unchanged |
| Levels.RemovalCount | src/main/java/nl/tudelft/jpacman/level/DefaultPlayerInteractionMap.java:56-63 | eating a pellet lowers the board's count of its kind by exactly one |
| Levels.Reports | src/main/java/nl/tudelft/jpacman/level/Level.java:396-413 | lost is reported exactly when no player lives, won exactly when no pellet remains, half-eaten exactly at half the pellets with no fruit spawned; each at most once, lost first |
| Levels.KillSeries | src/main/java/nl/tudelft/jpacman/level/DefaultPlayerInteractionMap.java:50-51 | the first kill of a hunt is worth 200, each next one twice the last, and n kills total 100 * (2^(n+1) - 2) |
| Levels.RuleFor | src/main/java/nl/tudelft/jpacman/level/DefaultPlayerInteractionMap.java:27-30 | the ghost rule applies exactly to a player meeting a ghost (both ways when collisions are symmetric), the pellet rule exactly to a player moving onto a pellet |
| Levels.NoFruitRule | src/main/java/nl/tudelft/jpacman/level/DefaultPlayerInteractionMap.java:38-65 | a player meeting a fruit and a ghost meeting a ghost have no rule |
| Levels.HuntingTimer | src/main/java/nl/tudelft/jpacman/level/Level.java:189-223 | mode 0 disarms the exit timer; mode 1 arms it for 7000 ms with more than two power pellets left, else 5000 ms; other modes leave it |
| Levels.ResetKills | src/main/java/nl/tudelft/jpacman/level/Level.java:202-207 | every player's kill count becomes 0 and nothing else changes |
| Levels.ReviveAll | src/main/java/nl/tudelft/jpacman/level/Level.java:213-223 | every ghost becomes alive and frightened (mode 1) |
| Levels.FruitIndex | src/main/java/nl/tudelft/jpacman/level/Level.java:454-457 | the random fruit square index is within the list |
| Levels.HalfEatenRepeats | src/main/java/nl/tudelft/jpacman/level/Level.java:454-457 | as written, placing the fruit changes no pellet count and leaves `spawnFruit` false, so the next report announces half the pellets eaten again |
| Levels.HalfEatenOnce | src/main/java/nl/tudelft/jpacman/level/Level.java:408 | with `spawnFruit` set on placement, the half-eaten report is not repeated |
| Levels.RoundRobin | src/main/java/nl/tudelft/jpacman/level/Level.java:242-245 | the k-th registered player starts on start square k mod n |
| Levels.GhostServices | src/main/java/nl/tudelft/jpacman/level/Level.java:124-150 | every ghost gets a fresh move service with a deferred move task at half its interval, and a fresh idle reborn service; the loop fails with an illegal-argument error exactly when some ghost's interval variation is negative |
| Levels.NewGhostServices | src/main/java/nl/tudelft/jpacman/level/Level.java:124-150 | the two services made for one ghost; an illegal-argument error exactly when its interval variation is negative |
| Levels.Level.constructor | src/main/java/nl/tudelft/jpacman/level/Level.java:124-150 | a new level is stopped in mode 0 with no players; it counts its ordinary pellets and holds one move and one reborn service per ghost, and an idle exit-hunting service |
| Levels.NewLevel | src/main/java/nl/tudelft/jpacman/level/Level.java:124-150 | fails with an illegal-argument error exactly when some ghost's interval variation is negative; otherwise a fresh level as the constructor makes it |
| Levels.Level.RemainingPellets | src/main/java/nl/tudelft/jpacman/level/Level.java:437-452 | answers the board's count of pellets of the kind |
| Levels.Level.IsAnyPlayerAlive | src/main/java/nl/tudelft/jpacman/level/Level.java:422-429 | true exactly when a registered player is alive |
| Levels.Level.UpdateObservers | src/main/java/nl/tudelft/jpacman/level/Level.java:396-413 | the reports are `Reports` of the current state, and the world is unchanged |
| Levels.Level.SetGameMode | src/main/java/nl/tudelft/jpacman/level/Level.java:189-197 | mode 0 stops hunting, mode 1 restarts it, and the mode is stored; players, ghosts and the timer change as that says |
| Levels.Level.SwitchHunting | src/main/java/nl/tudelft/jpacman/level/Level.java:190-196 | the hunting timer, the players and the ghosts change by the mode as `HuntingTimer`, `PlayerAfterMode` and `GhostAfterMode` say; nothing else changes |
| Levels.Level.RestartHuntingMode | src/main/java/nl/tudelft/jpacman/level/Level.java:189-197 | stop then start: kills reset, ghosts revived frightened, timer armed for the power pellets left |
| Levels.Level.StopHuntingMode | src/main/java/nl/tudelft/jpacman/level/Level.java:202-207 | cancels the exit timer and resets every player's kills |
| Levels.Level.StartHuntingMode | src/main/java/nl/tudelft/jpacman/level/Level.java:213-223 | arms the exit timer for 7000 or 5000 ms and revives every ghost frightened |
| Levels.Level.RegisterPlayer | src/main/java/nl/tudelft/jpacman/level/Level.java:232-246 | a known player changes nothing; a new one gets a deferred move service at half its interval and occupies the next start square, and the index moves on modulo the number of start squares; with no start squares the call fails with an index error after the player and its service are added, and the player stays off the board; it fails in that case only |
| Levels.Level.Enrol | src/main/java/nl/tudelft/jpacman/level/Level.java:232-246 | the new player is added with its service and occupies its square |
| Levels.Level.Admit | src/main/java/nl/tudelft/jpacman/level/Level.java:232-246 | the new player is added with its service |
| Levels.Level.Occupy | src/main/java/nl/tudelft/jpacman/level/Level.java:273-292 | the occupant lists change as `Occupied` says and the unit's square becomes the target |
| Levels.Level.OccupyKnown | src/main/java/nl/tudelft/jpacman/level/Level.java:273-292 | the same for a unit of the level, which stays consistent |
| Levels.Level.ScheduleReborn | src/main/java/nl/tudelft/jpacman/level/Level.java:379-381 | the ghost's reborn service is scheduled at once with the delay |
| Levels.Level.ScheduleMove | src/main/java/nl/tudelft/jpacman/level/task/GhostMoveTask.java:32-38 | the ghost's move service is scheduled again at once with the delay (`Rearmed`), and nothing else of the world changes |
| Levels.Level.SchedulePlayer | src/main/java/nl/tudelft/jpacman/level/task/PlayerMoveTask.java:31-32 | the player's move service is scheduled again at once with the delay (`Rearmed`), and nothing else of the world changes |
| Levels.Level.PlayerMeetsGhost | src/main/java/nl/tudelft/jpacman/level/DefaultPlayerInteractionMap.java:41-54 | a dead ghost changes nothing; a chasing ghost kills the player; a frightened ghost dies, is reborn after 5000 ms, and the player scores 100 * 2^kills for one more kill |
| Levels.Level.SendHome | src/main/java/nl/tudelft/jpacman/level/DefaultPlayerInteractionMap.java:47-49 | the ghost dies in mode 0 and its reborn service is armed for 5000 ms |
| Levels.Level.Kill | src/main/java/nl/tudelft/jpacman/level/DefaultPlayerInteractionMap.java:43-44 | a ghost that chases kills the player and nothing else of the player changes |
| Levels.Level.Reward | src/main/java/nl/tudelft/jpacman/level/DefaultPlayerInteractionMap.java:50-51 | one more kill, and the player gains its points |
| Levels.Level.Remove | src/main/java/nl/tudelft/jpacman/level/DefaultPlayerInteractionMap.java:58 | the unit leaves the square's occupant list |
| Levels.Level.PlayerMeetsPellet | src/main/java/nl/tudelft/jpacman/level/DefaultPlayerInteractionMap.java:56-63 | the pellet leaves its square and the player gains its value; a power pellet also sets mode 1 |
| Levels.Level.EatPowerPellet | src/main/java/nl/tudelft/jpacman/level/DefaultPlayerInteractionMap.java:56-63 | the power-pellet case of the rule |
| Levels.Level.EatPellet | src/main/java/nl/tudelft/jpacman/level/DefaultPlayerInteractionMap.java:58-59 | the pellet leaves its square and the player gains its value |
| Levels.Level.Collide | src/main/java/nl/tudelft/jpacman/level/DefaultPlayerInteractionMap.java:27-30 | the world after the collision is `AfterCollision`: the rule `RuleFor` picks is applied to the player, the ghost or pellet, the level and the services, and no rule changes nothing |
| Levels.Level.Move | src/main/java/nl/tudelft/jpacman/level/Level.java:273-292 | the world after the move is `AfterMove`: a stopped level changes nothing; otherwise the unit faces the direction, enters the square ahead when it may and collides with its earlier occupants in order; the reports follow |
| Levels.Level.TurnAndEnter | src/main/java/nl/tudelft/jpacman/level/Level.java:280-289 | the world is `Turned`, then `AfterEntry` when the unit may enter the square ahead; the earlier occupants are answered only then |
| Levels.Level.Turn | src/main/java/nl/tudelft/jpacman/level/Level.java:273-292 | the world is `Turned`: only the unit's direction changes |
| Levels.Level.Enter | src/main/java/nl/tudelft/jpacman/level/Level.java:273-292 | the world is `AfterEntry`: the unit occupies the destination, then collides with each previous occupant in order |
| Levels.Level.Arrive | src/main/java/nl/tudelft/jpacman/level/Level.java:273-292 | the world is `Arrived`: the unit occupies the destination and nothing else changes |
| Levels.Level.MeetAll | src/main/java/nl/tudelft/jpacman/level/Level.java:286-288 | the loop leaves the world `AfterCollisions`, the collisions with each occupant in turn |
| Levels.Level.Start | src/main/java/nl/tudelft/jpacman/level/Level.java:297-308 | a started level changes nothing; otherwise it is in progress, every service is resumed, and the reports follow |
| Levels.Level.ResumeSchedules | src/main/java/nl/tudelft/jpacman/level/Level.java:297-308 | every service of the level is resumed |
| Levels.Level.Stop | src/main/java/nl/tudelft/jpacman/level/Level.java:313-323 | a stopped level changes nothing; otherwise it stops and every service is suspended |
| Levels.Level.PlaceFruit | src/main/java/nl/tudelft/jpacman/level/Level.java:454-457 | as written: no fruit squares throws and changes nothing; otherwise the fruit occupies a randomly drawn fruit square and `spawnFruit` is left as it was |
| Levels.Level.PlaceFruitIntended | src/main/java/nl/tudelft/jpacman/level/Level.java:454-457 | corrected: placing the fruit also sets `spawnFruit` |
| Levels.Level.CollisionKeepsMover | src/main/java/nl/tudelft/jpacman/level/DefaultPlayerInteractionMap.java:27-63 | no collision rule moves or turns the mover, takes it off its square, starts or stops the level, or adds a pellet |
| Levels.Level.CollisionsKeepMover | src/main/java/nl/tudelft/jpacman/level/Level.java:286-288 | the same over the whole collision loop |
| Levels.Level.PelletRuleKeepsMover | src/main/java/nl/tudelft/jpacman/level/DefaultPlayerInteractionMap.java:56-63 | eating a pellet leaves the player where and as it was and can only lower the pellet counts |
| Levels.Level.EntryPlacesUnit | src/main/java/nl/tudelft/jpacman/level/Level.java:283-289 | after entering and colliding, the unit stands on the destination, among its occupants, facing as before, and no pellet has appeared |
| Levels.Level.MoveEffect | src/main/java/nl/tudelft/jpacman/level/Level.java:273-292 | a move of a stopped level, or of a unit off the board, changes nothing; otherwise the unit faces the direction and stands on the square ahead when it may enter it, else stays with the level's fields untouched; no pellet ever appears |
| GhostAI.RandomPick | src/main/java/nl/tudelft/jpacman/npc/Ghost.java:172-185 | no pick exactly from an empty list; a pick is from the list |
| GhostAI.RandomPickCovers | src/main/java/nl/tudelft/jpacman/npc/Ghost.java:172-185 | every listed direction is picked for some draw |
| GhostAI.RandomMoveSpec | src/main/java/nl/tudelft/jpacman/npc/Ghost.java:172-185 | the random move is a direction the ghost may take, none exactly when it may take none, and every such direction is possible |
| GhostAI.RandomMove | src/main/java/nl/tudelft/jpacman/npc/Ghost.java:172-185 | the random pick among the ghost's accessible directions |
| GhostAI.Nearest | src/main/java/nl/tudelft/jpacman/strategies/Navigation.java:93-115 | the square `findNearest` stops on, `NearestSquare` |
| GhostAI.OppositesTable | src/main/java/nl/tudelft/jpacman/npc/ghost/Clyde.java:61-67 | Clyde's table maps every direction to its opposite |
| GhostAI.ShyStepSpec | src/main/java/nl/tudelft/jpacman/npc/ghost/Clyde.java:93-112 | no step without a non-empty path; within shyness distance Clyde turns away, farther he follows the path |
| GhostAI.ClydeNextAiMove | src/main/java/nl/tudelft/jpacman/npc/ghost/Clyde.java:93-112 | Clyde's answer is the shy step on his path to the nearest player, none without a player |
| GhostAI.FollowSteps | src/main/java/nl/tudelft/jpacman/npc/ghost/Inky.java:113-121 | the loop ends on the square the directions lead to |
| GhostAI.InkyTargetSpec | src/main/java/nl/tudelft/jpacman/npc/ghost/Inky.java:88-110 | Inky targets the square twice as far from Blinky as the square ahead of the player, along Blinky's path; none when the square ahead is unreachable |
| GhostAI.InkyNextAiMove | src/main/java/nl/tudelft/jpacman/npc/ghost/Inky.java:88-110 | Inky's answer from the nearest Blinky and player |
| GhostAI.NextAiMove | src/main/java/nl/tudelft/jpacman/npc/Ghost.java:73 | the kind dispatch: a random ghost has no AI, Clyde and Inky as above, Blinky and Pinky the given chase move |
| GhostAI.NextMove | src/main/java/nl/tudelft/jpacman/npc/Ghost.java:57-65 | the answer is `NextMoveOf`: a dead ghost heads home or moves at random; a frightened one moves at random; a chasing one follows its AI, else at random; the AI answer is the kind's `AiMove` exactly for an alive chasing ghost |
| GhostAI.DeadGhostGoesHome | src/main/java/nl/tudelft/jpacman/npc/Ghost.java:57-65 | a dead ghost away from a reachable home takes the first step of a shortest path home |
| Tasks.ScheduledNow | src/main/java/nl/tudelft/jpacman/level/task/ScheduledTaskService.java:29-37 | a schedule started now forgets the old state and arms the command |
| Tasks.MoveGhost | src/main/java/nl/tudelft/jpacman/level/task/GhostMoveTask.java:43-48 | the direction is the ghost's `NextMoveOf`; with a direction the world becomes `AfterMove` of it, without one nothing changes |
| Tasks.RunGhostMove | src/main/java/nl/tudelft/jpacman/level/task/GhostMoveTask.java:29-41 | an alive ghost, or a dead one away from home, moves in its `NextMoveOf` direction; a dead ghost at home does not move; the delay is the ghost's interval or `DEAD_MOVE_INTERVAL` as the case says; the world is the move, then the task `Rearmed` with that delay |
| Tasks.RunPlayerMove | src/main/java/nl/tudelft/jpacman/level/task/PlayerMoveTask.java:26-33 | the direction is the player's next move; the world is the move, then the task `Rearmed` with the player's interval; no strategy, or a strategy that throws, changes nothing and leaves the task unarmed |
| Tasks.ExitCycle | src/main/java/nl/tudelft/jpacman/level/task/ExitHuntingModeTask.java:22-38 | the two runs bring every alive frightened ghost back to chasing and touch no other |
| Tasks.PropagateMode | src/main/java/nl/tudelft/jpacman/level/task/ExitHuntingModeTask.java:31-38 | the level's mode change, then every alive ghost in the previous mode follows |
| Tasks.FollowMode | src/main/java/nl/tudelft/jpacman/level/task/ExitHuntingModeTask.java:33-37 | the loop over the ghosts applies `Propagated` to each |
| Tasks.RunExitHunting | src/main/java/nl/tudelft/jpacman/level/task/ExitHuntingModeTask.java:22-29 | mode 1 goes to 2 and re-arms for 2000 ms; mode 2 goes to 0, cancelling the timer and resetting kills; other modes change nothing |
| Games.Game.constructor | src/main/java/nl/tudelft/jpacman/game/Game.java:31-33 | a new game is not in progress |
| Games.Game.Ready | src/main/java/nl/tudelft/jpacman/game/Game.java:43 | the level may start exactly when a player lives and ordinary pellets remain; no service changes |
| Games.Game.Start | src/main/java/nl/tudelft/jpacman/game/Game.java:38-49 | starts the game and level only when not running, a player lives and pellets remain; no won or lost report then |
| Games.Game.Launch | src/main/java/nl/tudelft/jpacman/game/Game.java:38-49 | the game and its level are in progress and the services resumed |
| Games.Game.Stop | src/main/java/nl/tudelft/jpacman/game/Game.java:54-62 | a running game and its level stop and the services are suspended; otherwise nothing changes |
| Games.Game.SetPlayerDirection | src/main/java/nl/tudelft/jpacman/game/Game.java:96-100 | the player turns only while the game is in progress |
| Games.Game.Notify | src/main/java/nl/tudelft/jpacman/game/Game.java:103-110 | a won or lost level stops the game |
| LevelFactories.GhostCycle | src/main/java/nl/tudelft/jpacman/level/LevelFactory.java:88-90 | the n-th created ghost uses index n mod GHOSTS |
| LevelFactories.FirstGhosts | src/main/java/nl/tudelft/jpacman/level/LevelFactory.java:88-103 | the first ghost is Blinky, then Inky, Pinky and Clyde when there are four kinds |
| LevelFactories.LevelFactory.constructor | src/main/java/nl/tudelft/jpacman/level/LevelFactory.java:63-68 | the ghost index starts at -1 |
| LevelFactories.LevelFactory.CreateGhost | src/main/java/nl/tudelft/jpacman/level/LevelFactory.java:88-103 | the index moves on modulo GHOSTS (throwing for 0 kinds) and a fresh ghost of that kind and its timing is made |
| LevelFactories.LevelFactory.CreatePellet | src/main/java/nl/tudelft/jpacman/level/LevelFactory.java:110-112 | an ordinary pellet worth `PELLET_VALUE` |
| LevelFactories.LevelFactory.CreatePowerPellet | src/main/java/nl/tudelft/jpacman/level/LevelFactory.java:119-121 | a power pellet worth `POWER_PELLET_VALUE` |
| PacManAI.IntersectionSpec | src/main/java/nl/tudelft/jpacman/strategies/PacManAI.java:24-28 | a square is an intersection exactly when the unit may turn sideways there; otherwise it can only go on or back |
| PacManAI.PossibleDirections | src/main/java/nl/tudelft/jpacman/strategies/PacManAI.java:140-149 | the loop lists the player's accessible directions |
| PacManAI.LiveGhostsOnly | src/main/java/nl/tudelft/jpacman/strategies/PacManAI.java:38-39 | each square answers its first ghost when that ghost is alive and nothing otherwise |
| PacManAI.FindNearestGhost | src/main/java/nl/tudelft/jpacman/strategies/PacManAI.java:30-53 | the ghost on `NearestGhostSquare`, the first square of the queue order holding an alive ghost first; it is on a square reached by a shortest walk to an alive ghost, and none exactly when no walk meets one |
| PacManAI.NextIntersectionSpec | src/main/java/nl/tudelft/jpacman/strategies/PacManAI.java:80-87 | the first intersection straight ahead, or `Diverges` exactly when none is ever met |
| PacManAI.FindNextIntersection | src/main/java/nl/tudelft/jpacman/strategies/PacManAI.java:80-87 | the walking loop answers that intersection |
| PacManAI.IntersectionsAheadSpec | src/main/java/nl/tudelft/jpacman/strategies/PacManAI.java:55-70 | one next intersection per direction, or `Diverges` exactly when one direction has none |
| PacManAI.PathsToSpec | src/main/java/nl/tudelft/jpacman/strategies/PacManAI.java:55-70 | a target is kept with its shortest path exactly when that path starts in a possible direction; an unreachable target throws |
| PacManAI.NextIntersectionPathsSpec | src/main/java/nl/tudelft/jpacman/strategies/PacManAI.java:55-70 | every kept path is a shortest enterable path to a next intersection, starting in a possible direction |
| PacManAI.PathsToNextIntersections | src/main/java/nl/tudelft/jpacman/strategies/PacManAI.java:55-70 | the loops build that map |
| PacManAI.NoGhostInPath | src/main/java/nl/tudelft/jpacman/strategies/PacManAI.java:107-118 | clear exactly when no square the path passes holds a ghost |
| PacManAI.HunterSquares | src/main/java/nl/tudelft/jpacman/strategies/PacManAI.java:90-92 | the ghosts' squares, in order |
| PacManAI.UnblockedPathsSpec | src/main/java/nl/tudelft/jpacman/strategies/PacManAI.java:89-97 | a path is kept unchanged exactly when no ghost stands on it |
| PacManAI.SafePathsSpec | src/main/java/nl/tudelft/jpacman/strategies/PacManAI.java:211-221 | a path is kept unchanged exactly when every ghost needs strictly more steps to its destination |
| PacManAI.PelletPathCounts | src/main/java/nl/tudelft/jpacman/strategies/PacManAI.java:265-276 | a path passes a pellet exactly when its pellet count is positive, and the count is at most its length |
| PacManAI.IsPelletPath | src/main/java/nl/tudelft/jpacman/strategies/PacManAI.java:265-276 | the loop answers whether the path passes a pellet |
| PacManAI.CountPellets | src/main/java/nl/tudelft/jpacman/strategies/PacManAI.java:184-192 | the loop counts the squares with a pellet along the path |
| PacManAI.DistancesSpec | src/main/java/nl/tudelft/jpacman/strategies/PacManAI.java:253-263 | each ghost's shortest distance to the player, throwing exactly when some ghost cannot reach the player |
| PacManAI.PassesSpec | src/main/java/nl/tudelft/jpacman/strategies/PacManAI.java:223-251 | the inner loop says yes exactly when each ghost so far is nearer the player than the destination or slower to it than the player; it throws only `NullPointer`, and only when some ghost cannot reach the destination |
| PacManAI.WorthPathsOfSpec | src/main/java/nl/tudelft/jpacman/strategies/PacManAI.java:223-251 | the outer loop keeps, in order, exactly the paths of the entries that every ghost lets through; it throws only `NullPointer` |
| PacManAI.GetWorthPathsSpec | src/main/java/nl/tudelft/jpacman/strategies/PacManAI.java:223-251 | `getWorthPaths` keeps, in the map's order, exactly the paths of the entries that every ghost lets through, throwing only `NullPointer` |
| PacManAI.WorthPaths | src/main/java/nl/tudelft/jpacman/strategies/PacManAI.java:223-251 | the loops answer `GetWorthPaths` |
| PacManAI.CanTakePath | src/main/java/nl/tudelft/jpacman/strategies/PacManAI.java:232-243 | the inner loop answers `Passes` |
| PacManAI.FirstMaxIndex | src/main/java/nl/tudelft/jpacman/strategies/PacManAI.java:183-198 | the index is in range, and a non-zero index has a positive count |
| PacManAI.FirstMaxSpec | src/main/java/nl/tudelft/jpacman/strategies/PacManAI.java:183-198 | the index holds the maximum and is the first that does |
| PacManAI.Counts | src/main/java/nl/tudelft/jpacman/strategies/PacManAI.java:183-192 | one pellet count per path |
| PacManAI.FirstStepMatch | src/main/java/nl/tudelft/jpacman/strategies/PacManAI.java:200-205 | the answer is the fallback or some path's first step |
| PacManAI.FirstStepMatchSpec | src/main/java/nl/tudelft/jpacman/strategies/PacManAI.java:200-205 | the target when some path starts with it, else the fallback |
| PacManAI.PelletChoiceBest | src/main/java/nl/tudelft/jpacman/strategies/PacManAI.java:179-209 | with a pellet on some path, the first step of the first path with the most pellets |
| PacManAI.PelletChoiceFallback | src/main/java/nl/tudelft/jpacman/strategies/PacManAI.java:200-206 | with no pellet on any path, the first step toward the nearest pellet when a path starts with it, else the first path's first step |
| PacManAI.FruitChoiceSpec | src/main/java/nl/tudelft/jpacman/strategies/PacManAI.java:163-177 | the first step toward the fruit when a path starts with it, else the first path's first step |
| PacManAI.PelletChoiceAmongFirstSteps | src/main/java/nl/tudelft/jpacman/strategies/PacManAI.java:179-209 | any direction `maximizePellets` answers is the first step of one of the paths |
| PacManAI.FruitChoiceAmongFirstSteps | src/main/java/nl/tudelft/jpacman/strategies/PacManAI.java:163-177 | any direction `maximizeFruits` answers is the first step of one of the paths |
| PacManAI.MaximizePellets | src/main/java/nl/tudelft/jpacman/strategies/PacManAI.java:179-209 | the loops answer `PelletChoice` |
| PacManAI.MostPellets | src/main/java/nl/tudelft/jpacman/strategies/PacManAI.java:180-198 | the loop ends with the greatest pellet count and the first step of the first path that reaches it |
| PacManAI.MaximizePoints | src/main/java/nl/tudelft/jpacman/strategies/PacManAI.java:151-161 | the fruit choice when a fruit is on the board, else the pellet choice for the nearest pellet |
| PacManAI.MaximizeFruits | src/main/java/nl/tudelft/jpacman/strategies/PacManAI.java:163-177 | the loop answers `FruitChoice` |
| PacManAI.EscapeSpec | src/main/java/nl/tudelft/jpacman/strategies/PacManAI.java:120-138 | the answer is a possible direction; it is the ghost's own first step exactly when that is possible, and, when the possible directions are distinct, never the direction opposite the ghost's first step |
| PacManAI.FleeNearestGhost | src/main/java/nl/tudelft/jpacman/strategies/PacManAI.java:120-138 | without a ghost the first possible direction; otherwise `Escape` on the ghost's shortest path to the player |
| PriorityToScore.Entries | src/main/java/nl/tudelft/jpacman/strategies/PriorityToScoreStrategy.java:67 | the entries are pairs of the map, and every key in the iteration order appears |
| PriorityToScore.Listing | src/main/java/nl/tudelft/jpacman/strategies/PriorityToScoreStrategy.java:66 | every listed path is a value of the map, and the value of every key the order visits is listed |
| PriorityToScore.DangerousIsSafe | src/main/java/nl/tudelft/jpacman/strategies/PriorityToScoreStrategy.java:61-64 | the "dangerous" paths equal the safe paths |
| PriorityToScore.FirstStepAccessible | src/main/java/nl/tudelft/jpacman/strategies/PriorityToScoreStrategy.java:41-46 | the first step of a path the player may take is an accessible direction |
| PriorityToScore.HuntersOf | src/main/java/nl/tudelft/jpacman/strategies/PacManAI.java:90-92 | the loop answers `Hunters`: each ghost with its square, in order |
| PriorityToScore.Hunters | src/main/java/nl/tudelft/jpacman/strategies/PacManAI.java:90-92 | one hunter per ghost, each ghost with its own square, in order |
| PriorityToScore.KeepGoing | src/main/java/nl/tudelft/jpacman/strategies/PriorityToScoreStrategy.java:33-35 | away from an intersection with two ways out, going on is one of them |
| PriorityToScore.PriorityToScoreStrategy.constructor | src/main/java/nl/tudelft/jpacman/strategies/PriorityToScoreStrategy.java:18-22 | the strategy holds the game, the player and the level's ghosts |
| PriorityToScore.PriorityToScoreStrategy.NextMove | src/main/java/nl/tudelft/jpacman/strategies/PriorityToScoreStrategy.java:25-76 | the answer and branch are `Decision`: one way out is taken; away from an intersection the player goes on; at one, the chase, then the unblocked paths, safe and worth paths, flight and points decide; no move exactly when no path is left; any move is accessible |
| PriorityToScore.PriorityToScoreStrategy.AtIntersection | src/main/java/nl/tudelft/jpacman/strategies/PriorityToScoreStrategy.java:37-76 | the answer is `IntersectionDecision`: the chase when it decides, else `Towards`; the move is one of the shuffled directions, or the chase of a frightened ghost |
| PriorityToScore.PriorityToScoreStrategy.ChaseNearestGhost | src/main/java/nl/tudelft/jpacman/strategies/PriorityToScoreStrategy.java:39-48 | the answer is `Chased` on `NearestGhostSquare`: the chase starts exactly at an alive ghost whose mode is not 0 and that the player does not stand on, along the first step of its shortest path to it, or throws without a path |
| PriorityToScore.PriorityToScoreStrategy.TowardsIntersections | src/main/java/nl/tudelft/jpacman/strategies/PriorityToScoreStrategy.java:50-59 | the answer is `Towards`: no unblocked path to a next intersection gives no move; one gives its first step; more go on to `CandidatePaths` and `Choice` |
| PriorityToScore.PriorityToScoreStrategy.Candidates | src/main/java/nl/tudelft/jpacman/strategies/PriorityToScoreStrategy.java:61-67 | the candidates are `CandidatePaths`, the safe paths then the worth paths; the answer is their `Choice`; any move is a shuffled direction |
| PriorityToScore.PriorityToScoreStrategy.Choose | src/main/java/nl/tudelft/jpacman/strategies/PriorityToScoreStrategy.java:69-75 | the answer is `Choice`: no candidate is the `Flight` from the nearest ghost, one is taken, more are `PointsChoice` |

## Left out

- Threads, the executor, real time and the Swing user interface are not modelled. A task run is one atomic step, and a service's future is a slot that holds a timer.
- `Collections.shuffle` and every random draw are inputs. This covers the random move, the ghost interval and the fruit square.
- The iteration order of the `HashMap`s built by the strategy and of the level's ghost set are inputs. One key order serves every map of one decision.
- The kill reward `Math.pow(2, kills) * 100` is computed exactly as 100 * 2^kills. Double rounding and the `int` cast are not modelled.
- Observers are not modelled. The methods that notify them return the reports in order, and the game's reaction is `Game.Notify`.
- Sprites, animations, the configuration loader, the ghost and fruit factories, the single-player game classes, the legacy move task and `PlayerDeadTask` are not part of this model. Configured values are parameters.
- The AI of Blinky and Pinky is not part of this model: their answer is an input. So is the square ahead of the player that Inky uses.
- PacManAI.FleeNearestGhost: `List.remove` is in place in the source; the model returns the shortened list instead of mutating the caller's.
- LevelFactories.LevelFactory.CreateGhost: the overflow of `ghostIndex` past the `int` range is not modelled.
- Units.GhostInterval: the `long` and `int` overflows of the interval arithmetic are not modelled.
- Units.Player.AddPoints: the `int` overflow of `score` is not modelled, nor that of `consecutiveKills` (raised by `Levels.Level.Reward`). Past 2^31-1 the source's score wraps negative and the extra-life test sees the wrapped value.
- Units.AddedPoints and Units.ExtraLifeOnce: the score is the unbounded sum of the points, for the same reason.
- Levels.Level.constructor requires every ghost's interval variation to be non-negative, because a Dafny constructor cannot fail. With a negative one the source's constructor throws `IllegalArgumentException` from `getInterval()`. `Levels.NewLevel`, `Levels.GhostServices` and `Levels.NewGhostServices` model that throw as an illegal-argument error.
- PacManAI.FindNextIntersection: where the source loops forever (a straight corridor that never meets an intersection), the model answers `Err(Diverges)`.
- PriorityToScore.PriorityToScoreStrategy.NextMove requires every ghost to stand on a board square. It chases the ghost found on the square the search reached, which is the ghost's own square when the level's occupant lists and the units' squares agree.
- Levels.Level.Move requires the unit to have a square; the source asserts this.
- Games.Game.Notify: the half-eaten report is for the concrete single-player game, which is not part of this model; here it changes nothing.
- Games.Game.constructor does not register the game as an observer of its level; the reports are handed to `Game.Notify` instead.

## Findings

| source | as written | input that shows it | evidently intended | confidence | as-written member | corrected member |
|---|---|---|---|---|---|---|
| src/main/java/nl/tudelft/jpacman/level/Level.java:454-457 | `placeFruit` occupies a fruit square but never sets `spawnFruit` (declared at line 81, tested at line 408) | a level with 10 pellets after the fifth is eaten: the report says half eaten and a fruit is placed; the next report, made on the next move before another pellet is eaten, says half eaten again and places a second fruit | placing the fruit sets `spawnFruit`, so the half-eaten report and the fruit come once per level | not executed | Levels.HalfEatenRepeats | Levels.HalfEatenOnce |
