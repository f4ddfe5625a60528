/** The four movement directions of cubeMaze.py:109-119 and their unit steps (cubeMaze.py:212). */
module Directions {

  /** Direction(Enum) with UP = 0, RIGHT = 1, DOWN = 2, LEFT = 3. */
  datatype Direction = Up | Right | Down | Left

  /** Every direction, in the order `for d in Direction` visits them. */
  const AllDirections: seq<Direction> := [Up, Right, Down, Left]

  /** The enum's integer value. */
  function Value(d: Direction): nat
  {
    match d
    case Up => 0
    case Right => 1
    case Down => 2
    case Left => 3
  }

  /** Direction(v), defined for the four enum values. */
  function OfValue(v: nat): Direction
    requires v < 4
  {
    if v == 0 then Up else if v == 1 then Right else if v == 2 then Down else Left
  }

  /** Direction.opposite: the values below 2 move up by two, the others down by two. */
  function Opposite(d: Direction): Direction
  {
    if Value(d) < 2 then OfValue(Value(d) + 2) else OfValue(Value(d) - 2)
  }

  /** direction_values of next_cell, indexed by the enum value; y grows downwards. */
  const DirectionValues: seq<(int, int)> := [(0, -1), (1, 0), (0, 1), (-1, 0)]

  function Unit(d: Direction): (int, int)
  {
    DirectionValues[Value(d)]
  }

  /** A direction is vertical when its enum value is even (the test of has_front_diagonal_neighbors). */
  predicate IsVertical(d: Direction)
  {
    Value(d) % 2 == 0
  }

  /** opposite is an involution without fixed points, keeps the axis, and negates the unit step. */
  lemma OppositeInvolution(d: Direction)
    ensures Opposite(Opposite(d)) == d && Opposite(d) != d
    ensures IsVertical(Opposite(d)) == IsVertical(d)
    ensures Unit(Opposite(d)) == (-Unit(d).0, -Unit(d).1)
  {
    match d
    case Up =>
    case Right =>
    case Down =>
    case Left =>
  }
}
