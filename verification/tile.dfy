/** Tile codes shared by the logic grid and the display grid.
    0..8 are neighbour counts; the rest are display-only states (and BOMB,
    which is also the logic value of a mined cell). */
module Tile {
  const EMPTY: int := 0
  const EIGHT: int := 8
  const HIDDEN: int := 9
  const PRESSED: int := 10
  const FLAG: int := 11
  const BOMB: int := 12
  const BOMB_CROSSED: int := 13
  const BOMB_EXPLODED: int := 14

  /** A code that has a tile image: 0..14. */
  predicate IsTile(v: int) {
    EMPTY <= v <= BOMB_EXPLODED
  }

  /** A neighbour count, 0..8. */
  predicate IsNumber(v: int) {
    EMPTY <= v <= EIGHT
  }

  /** A value the logic grid can hold: a count or BOMB. */
  predicate IsLogicValue(v: int) {
    IsNumber(v) || v == BOMB
  }
}
