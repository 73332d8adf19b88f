/** The parts of level/LevelFactory.java that decide what is created: the
    counter that cycles through the ghost kinds and the two pellet kinds.
    Sprites and the ghost factory's sprite loading are not part of this
    model. */
module LevelFactories {
  import opened Wrappers
  import opened Directions
  import opened Boards
  import opened Units

  /** The ghost kind of a cycling index: `BLINKY` 0, `INKY` 1, `PINKY` 2,
      `CLYDE` 3, and a random ghost for any other index. */
  function KindAt(index: int): GhostKind {
    if index == 0 then Blinky
    else if index == 1 then Inky
    else if index == 2 then Pinky
    else if index == 3 then Clyde
    else RandomGhost
  }

  /** The configured interval and interval variation of each ghost kind. */
  datatype Timing = Timing(moveInterval: int, intervalVariation: int)

  /** `ghostIndex` after `n` calls of `createGhost`, starting from -1,
      with `ghostTypes` kinds (`GHOSTS`). */
  function IndexAfter(n: nat, ghostTypes: int): int
    requires ghostTypes != 0
  {
    if n == 0 then -1 else JavaRem(IndexAfter(n - 1, ghostTypes) + 1, ghostTypes)
  }

  /** The ghost made by the call numbered `n` (from 0) of `createGhost`
      uses index `n mod GHOSTS`: the first one is a Blinky and the kinds
      come round again after `GHOSTS` calls. */
  lemma {:induction false} GhostCycle(n: nat, ghostTypes: int)
    requires ghostTypes > 0
    ensures IndexAfter(n + 1, ghostTypes) == n % ghostTypes
  {
    if n > 0 {
      GhostCycle(n - 1, ghostTypes);
      ModSucc(n - 1, ghostTypes);
    }
  }

  /** The first ghost is a Blinky; with four kinds or more, the first four
      are Blinky, Inky, Pinky and Clyde. */
  lemma FirstGhosts(ghostTypes: int)
    requires ghostTypes > 0
    ensures KindAt(IndexAfter(1, ghostTypes)) == Blinky
    ensures ghostTypes >= 4 ==>
      KindAt(IndexAfter(2, ghostTypes)) == Inky &&
      KindAt(IndexAfter(3, ghostTypes)) == Pinky &&
      KindAt(IndexAfter(4, ghostTypes)) == Clyde
  {
    GhostCycle(0, ghostTypes);
    if ghostTypes >= 4 {
      GhostCycle(1, ghostTypes);
      ModUnique(1, ghostTypes, 0, 1);
      GhostCycle(2, ghostTypes);
      ModUnique(2, ghostTypes, 0, 2);
      GhostCycle(3, ghostTypes);
      ModUnique(3, ghostTypes, 0, 3);
    }
  }

  /** A level factory. `ghostTypes`, `pelletValue` and `powerPelletValue`
      are the configured `GHOSTS`, `PELLET_VALUE` and `POWER_PELLET_VALUE`;
      `timing` gives each ghost kind its configured intervals and
      `facing` is the direction a new unit faces. */
  class LevelFactory {
    var ghostIndex: int
    var created: nat
    const ghostTypes: int
    const pelletValue: int
    const powerPelletValue: int
    const timing: GhostKind -> Timing
    const facing: Direction

    /** With at least one kind, the index is the one after `created`
        successful calls. */
    ghost predicate Valid()
      reads this
    {
      ghostTypes > 0 ==> ghostIndex == IndexAfter(created, ghostTypes)
    }

    constructor(ghostTypes: int, pelletValue: int, powerPelletValue: int, timing: GhostKind -> Timing, facing: Direction)
      ensures Valid() && ghostIndex == -1 && created == 0
      ensures this.ghostTypes == ghostTypes && this.pelletValue == pelletValue
      ensures this.powerPelletValue == powerPelletValue && this.timing == timing && this.facing == facing
    {
      ghostIndex := -1;
      created := 0;
      this.ghostTypes := ghostTypes;
      this.pelletValue := pelletValue;
      this.powerPelletValue := powerPelletValue;
      this.timing := timing;
      this.facing := facing;
    }

    /** `createGhost(position)`: the index moves on and wraps at `GHOSTS`
        (Java's `%`, which throws for `GHOSTS == 0` after the increment);
        the new ghost has the kind of the index and that kind's timing. */
    method CreateGhost(position: Square) returns (r: Result<Ghost>)
      requires Valid()
      modifies this
      ensures Valid()
      ensures ghostTypes == 0 ==> r == Err(DivisionByZero) && ghostIndex == old(ghostIndex) + 1
      ensures ghostTypes != 0 ==>
        ghostIndex == JavaRem(old(ghostIndex) + 1, ghostTypes) && r.Ok? && fresh(r.value) &&
        r.value.kind == KindAt(ghostIndex) &&
        r.value.moveInterval == timing(r.value.kind).moveInterval &&
        r.value.intervalVariation == timing(r.value.kind).intervalVariation &&
        r.value.initialPosition == position &&
        r.value.Fields() == GhostFields(true, 0, facing, None)
      ensures ghostTypes > 0 ==> created == old(created) + 1
    {
      ghostIndex := ghostIndex + 1;
      if ghostTypes == 0 {
        return Err(DivisionByZero);
      }
      ghostIndex := JavaRem(ghostIndex, ghostTypes);
      created := created + 1;
      var kind := KindAt(ghostIndex);
      var npc := new Ghost(kind, timing(kind).moveInterval, timing(kind).intervalVariation, position, facing);
      r := Ok(npc);
    }

    /** `createPellet()`: an ordinary pellet worth `PELLET_VALUE`. */
    function CreatePellet(): (p: Pellet)
      ensures !p.power && p.value == pelletValue
    {
      Pellet(false, pelletValue)
    }

    /** `createPowerPellet()`: a power pellet worth `POWER_PELLET_VALUE`. */
    function CreatePowerPellet(): (p: Pellet)
      ensures p.power && p.value == powerPelletValue
    {
      Pellet(true, powerPelletValue)
    }
  }
}
