/** The four directions of the grid (board/Direction.java), their unit
    steps and the three turning tables. */
module Directions {

  datatype Direction = North | South | West | East

  /** `Direction.values()`: the declaration order, which is also the order
      in which every search of the game expands neighbours. */
  function Values(): (ds: seq<Direction>)
    ensures |ds| == 4
    ensures forall i, j :: 0 <= i < j < |ds| ==> ds[i] != ds[j]
  {
    [North, South, West, East]
  }

  /** Every direction is listed by `Values()`. */
  lemma ValuesComplete(d: Direction)
    ensures d in Values()
  {
    match d
    case North => assert Values()[0] == d;
    case South => assert Values()[1] == d;
    case West => assert Values()[2] == d;
    case East => assert Values()[3] == d;
  }

  /** Horizontal step, with (0, 0) the top-left square. */
  function DeltaX(d: Direction): int {
    match d
    case North => 0
    case South => 0
    case West => -1
    case East => 1
  }

  /** Vertical step, with (0, 0) the top-left square (y grows downwards). */
  function DeltaY(d: Direction): int {
    match d
    case North => -1
    case South => 1
    case West => 0
    case East => 0
  }

  /** The step of a direction; two directions with the same step are equal. */
  function Delta(d: Direction): (int, int) {
    (DeltaX(d), DeltaY(d))
  }

  lemma DeltaInjective(d: Direction, e: Direction)
    requires Delta(d) == Delta(e)
    ensures d == e
  {
  }

  /** `getOpposite`: the step reversed. */
  function Opposite(d: Direction): (r: Direction)
    ensures DeltaX(r) == -DeltaX(d) && DeltaY(r) == -DeltaY(d)
  {
    match d
    case North => South
    case South => North
    case West => East
    case East => West
  }

  /** `getClockwise`: a quarter turn clockwise on screen, (dx, dy) to (-dy, dx). */
  function Clockwise(d: Direction): (r: Direction)
    ensures DeltaX(r) == -DeltaY(d) && DeltaY(r) == DeltaX(d)
  {
    match d
    case North => East
    case South => West
    case West => North
    case East => South
  }

  /** `getOppositeClockwise`: a quarter turn counter-clockwise, (dx, dy) to (dy, -dx). */
  function OppositeClockwise(d: Direction): (r: Direction)
    ensures DeltaX(r) == DeltaY(d) && DeltaY(r) == -DeltaX(d)
  {
    match d
    case North => West
    case South => East
    case West => South
    case East => North
  }

  /** Every step moves exactly one square along exactly one axis. */
  lemma UnitStep(d: Direction)
    ensures (DeltaX(d) == 0) != (DeltaY(d) == 0)
    ensures -1 <= DeltaX(d) <= 1 && -1 <= DeltaY(d) <= 1
  {
  }

  lemma OppositeIsInvolution(d: Direction)
    ensures Opposite(Opposite(d)) == d
    ensures Opposite(d) != d
  {
  }

  /** Two clockwise quarter turns reverse a direction, four restore it,
      and a quarter turn is perpendicular to the original step. */
  lemma ClockwiseAlgebra(d: Direction)
    ensures Clockwise(Clockwise(d)) == Opposite(d)
    ensures Clockwise(Clockwise(Clockwise(Clockwise(d)))) == d
    ensures DeltaX(d) * DeltaX(Clockwise(d)) + DeltaY(d) * DeltaY(Clockwise(d)) == 0
  {
  }

  lemma OppositeClockwiseIsInverse(d: Direction)
    ensures OppositeClockwise(Clockwise(d)) == d
    ensures Clockwise(OppositeClockwise(d)) == d
    ensures OppositeClockwise(d) == Opposite(Clockwise(d))
  {
  }
}
