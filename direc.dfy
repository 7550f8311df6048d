/** The direction enum of base/direc.py. */
module Directions {
  import opened Common

  datatype Direc = UP | DOWN | LEFT | RIGHT | NONE

  /** The enum's integer value. */
  function Value(d: Direc): nat
  {
    match d
    case UP => 0
    case DOWN => 1
    case LEFT => 2
    case RIGHT => 3
    case NONE => 4
  }

  /** The dictionary that `Direc.opposite` looks its argument up in. */
  const OPPOSITES: map<Direc, Direc> :=
    map[UP := DOWN, DOWN := UP, LEFT := RIGHT, RIGHT := LEFT, NONE := NONE]

  /**
   * `Direc.opposite` on an arbitrary argument: `opposites.get(direction, NONE)`,
   * so anything that is not a key of the dictionary yields NONE.
   */
  function OppositeOf(direction: Dyn<Direc>): Direc
  {
    if direction.Instance? && direction.value in OPPOSITES then OPPOSITES[direction.value] else NONE
  }

  /** `Direc.opposite` on a direction. */
  function Opposite(d: Direc): Direc
  {
    OppositeOf(Instance(d))
  }

  /** A direction that moves: one of the four other than NONE. */
  predicate IsMove(d: Direc)
  {
    d != NONE
  }

  /** Two moves are perpendicular when one is horizontal and the other vertical. */
  predicate IsHorizontal(d: Direc)
  {
    d == LEFT || d == RIGHT
  }

  predicate IsVertical(d: Direc)
  {
    d == UP || d == DOWN
  }

  lemma OppositeSwaps()
    ensures Opposite(UP) == DOWN && Opposite(DOWN) == UP
    ensures Opposite(LEFT) == RIGHT && Opposite(RIGHT) == LEFT
  {
  }

  lemma OppositeOfNone()
    ensures Opposite(NONE) == NONE
    ensures OppositeOf(Foreign) == NONE
  {
  }

  lemma OppositeInvolution(d: Direc)
    ensures Opposite(Opposite(d)) == d
  {
  }

  lemma OppositeNoFixedPoint(d: Direc)
    ensures Opposite(d) == d <==> d == NONE
  {
  }

  /** Opposite keeps a move horizontal or vertical. */
  lemma OppositeKeepsAxis(d: Direc)
    ensures IsHorizontal(Opposite(d)) <==> IsHorizontal(d)
    ensures IsVertical(Opposite(d)) <==> IsVertical(d)
  {
  }

  lemma ValuesDistinct(a: Direc, b: Direc)
    ensures Value(a) == Value(b) <==> a == b
    ensures Value(a) <= 4
  {
  }
}
