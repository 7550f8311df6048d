/**
 * Board coordinates and direction bit masks of the C tracker (scanner/superSnake_v2.h):
 * a 15 x 17 board of (row, col) cells, north decreasing the row, and one bit per
 * direction in an unsigned move mask.
 */
module Coords {

  const ROWS := 15
  const COLS := 17

  datatype Coord = Coord(row: int, col: int)

  /** The direction bits. */
  const DIR_NORTH: bv32 := 8
  const DIR_SOUTH: bv32 := 4
  const DIR_EAST: bv32 := 2
  const DIR_WEST: bv32 := 1

  /** The mask with every direction. */
  const ALL_MOVES: bv32 := 15

  function North(c: Coord): Coord
  {
    Coord(c.row - 1, c.col)
  }

  function South(c: Coord): Coord
  {
    Coord(c.row + 1, c.col)
  }

  function East(c: Coord): Coord
  {
    Coord(c.row, c.col + 1)
  }

  function West(c: Coord): Coord
  {
    Coord(c.row, c.col - 1)
  }

  function Abs(n: int): nat
  {
    if n < 0 then -n else n
  }

  function Distance(a: Coord, b: Coord): nat
  {
    Abs(a.row - b.row) + Abs(a.col - b.col)
  }

  /**
   * The four neighbours are one step away, pairwise distinct, and north/south and
   * east/west undo each other.
   */
  lemma NeighboursOfCoord(c: Coord)
    ensures Distance(c, North(c)) == 1 && Distance(c, South(c)) == 1
    ensures Distance(c, East(c)) == 1 && Distance(c, West(c)) == 1
    ensures North(c) != South(c) && North(c) != East(c) && North(c) != West(c)
    ensures South(c) != East(c) && South(c) != West(c) && East(c) != West(c)
    ensures South(North(c)) == c && North(South(c)) == c && West(East(c)) == c && East(West(c)) == c
  {
  }

  /** The cells the board array can be indexed at. */
  predicate OnBoard(c: Coord)
  {
    0 <= c.row < ROWS && 0 <= c.col < COLS
  }

  /**
   * `coord_in_board` as written: it joins the four bounds with `||`, so every
   * coordinate passes.
   */
  predicate CoordInBoard(c: Coord)
  {
    c.row >= 0 || c.row < ROWS || c.col >= 0 || c.col < COLS
  }

  /** The check never filters anything, even a coordinate off the board. */
  lemma CoordInBoardVacuous(c: Coord)
    ensures CoordInBoard(c)
    ensures CoordInBoard(Coord(-1, -1)) && !OnBoard(Coord(-1, -1))
  {
  }

  /** `move_is_single`: the mask is exactly one of the four direction bits. */
  function MoveIsSingle(m: bv32): (r: bool)
    ensures r <==> m == DIR_NORTH || m == DIR_SOUTH || m == DIR_EAST || m == DIR_WEST
  {
    (m == 1 && m != 2 && m != 4 && m != 8)
    || (m != 1 && m == 2 && m != 4 && m != 8)
    || (m != 1 && m != 2 && m == 4 && m != 8)
    || (m != 1 && m != 2 && m != 4 && m == 8)
  }

  /** The neighbour a single-direction move leads to. */
  function Step(c: Coord, m: bv32): (n: Coord)
    requires MoveIsSingle(m)
    ensures Distance(c, n) == 1
  {
    if m == DIR_NORTH then North(c)
    else if m == DIR_SOUTH then South(c)
    else if m == DIR_EAST then East(c)
    else West(c)
  }
}
