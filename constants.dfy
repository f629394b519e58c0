/** Board dimensions and the C++ integer conversion the movement checks rely on. */
module Constants {

  /** Columns and rows of the board (GAME_WIDTH and GAME_HEIGHT, both `unsigned int`). */
  const GameWidth: int := 10
  const GameHeight: int := 18

  /** Cells in every tetromino (BLOCKS_IN_TETROMINO). */
  const BlocksInTetromino: int := 4

  const TwoTo32: int := 0x1_0000_0000

  /** The value a 32-bit `int` takes when C++ converts it to `unsigned int` because the other
      operand of a comparison is unsigned: negative values wrap around to huge ones. */
  function AsUnsigned(x: int): (u: int)
    ensures 0 <= u < TwoTo32
    ensures 0 <= x < TwoTo32 ==> u == x
    ensures -0x8000_0000 <= x < 0 ==> u == x + TwoTo32
  {
    x % TwoTo32
  }
}
