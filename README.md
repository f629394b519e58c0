# 3D-Tetris game logic in Dafny

This project models the sequential core of a small falling-block game. The core has three parts:

- **Tetromino geometry** (`tetromino.dfy`, module `Tetrominoes`):
  - the constant rotation table (six shapes, four layouts of four cells each);
  - the constructor that spawns a piece at the top centre of the 10 x 18 board;
  - the all-or-nothing one-step translations left, right and down;
  - the two rotations, which re-derive the cells from the table and the top-left anchor of the
    piece's 4 x 4 box and then run a per-cell wall kick.

  The `Tetromino` class keeps the four cells in a fixed `array` and overwrites them in place, as
  the original does. Every method is proved against a pure function on the `Piece` value it
  holds (`Value() == TranslatedLeft(old(Value()))` and so on). Each method also keeps the object
  invariant: the cells are the layout of the current rotation state placed at the anchor.
- **Bounded input queue** (`input_queue.dfy`, module `Input`):
  - the key callback pushes every non-zero key at the front of a deque and drops the back (the
    oldest key) once 19 keys are pending;
  - `fetch` pops the back, or returns GLFW_KEY_UNKNOWN when the deque is empty.

  The `InputQueue` class holds the deque as a `seq<int>` whose index 0 is the front.
- **Game tick** (`game.dfy`, module `Games`):
  - a landed piece is replaced by a new one;
  - at most one key is fetched and dispatched;
  - SPACE hard-drops the piece and ESCAPE ends the game; both end the tick early;
  - on every other path the game-over scan over the landed pieces runs, then the piece takes one
    translate_down step.

  The module also models `add_landed` and `check_collision`. The `Game` class is proved against
  the pure function `Ticked` on a `World` value.

`constants.dfy` (module `Constants`) holds the board size. It also holds `AsUnsigned`, the C++
conversion of a 32-bit `int` to `unsigned int`. That conversion happens whenever a coordinate is
compared with the `unsigned` constants GAME_WIDTH - 2, GAME_HEIGHT - 2 or GAME_WIDTH - 1.

The `Tetromino` and `Game` classes split some source functions into smaller methods. None of
these splits changes the order of the statements:

- each translation is a bounds check (`LeftWallReached`, `RightWallReached`, `FloorReached`)
  followed by the shared `Shift`;
- both rotations end in `RederiveAndKick`, which is `Rederive` followed by `Kick`;
- the tick is `Respawn`, then the fetch, then `React`;
- `React` is `HandleInput` (the key switch with `HardDrop`), then `ScanLanded` and the final
  translate_down.

Several members that `Source/Game.cpp` calls are not defined in the Tetromino sources:
`get_state`, `highest_block`, `tetromino_overlaps`, `get_top_left_point`, and the two-argument
constructor. The model fills them in as follows:

- A piece is MOVING or LANDED.
- `translate_down` marks the piece LANDED when its floor check refuses the move.
- Two pieces overlap when they share a cell.
- `highest_block` is the smallest row of the piece's cells; rows grow downward.
- The anchor is `top_left_point`.

Without the landing rule, the hard-drop loop of the tick could not end.

## Model

| member | source | states |
|---|---|---|
| Constants.AsUnsigned | Source/Tetromino.cpp:114 | The converted value is in 0..2^32-1. It equals the input for non-negative 32-bit values, and the input plus 2^32 for negative ones, so a negative coordinate compares as huge. |
| Tetrominoes.TypeFromIndex | Source/Tetromino.h:17-24 | `static_cast` of an index 0..5 gives the enumerator whose value is that index. |
| Tetrominoes.Rotations | Source/Tetromino.cpp:18-77 | definition: the rotation table, four layouts of four cells per type, copied entry by entry. |
| Tetrominoes.Layout | Source/Tetromino.cpp:82 | definition: the entry of the table for a type and a rotation state 0..3 (the lookup `tetromino_rotations.find(type)->second[rotation_state]`). |
| Tetrominoes.LayoutInBox | Source/Tetromino.cpp:18-77 | Every layout has four cells, all inside the box [0,3] x [0,3]. Its first cell is in box column 2 or less, and some cell is in box row 0 or 1. |
| Tetrominoes.LayoutDistinct | Source/Tetromino.cpp:18-77 | The four cells of every layout are pairwise distinct. |
| Tetrominoes.LayoutPeriods | Source/Tetromino.cpp:21-76 | LINE, STAIR and REVERSE_STAIR repeat layouts 0 and 1 in slots 2 and 3. BLOCK has the same layout in all four slots. |
| Tetrominoes.CellsNearAnchor | Source/Tetromino.cpp:85-92 | The cells of a piece that keeps the invariant lie in the 4x4 box at its anchor. Its first cell is at most two columns right of the anchor, and some cell is in the first two rows of the box. |
| Tetrominoes.Spawn | Source/Tetromino.cpp:79-93 | A new piece has rotation state 0 and anchor (GAME_WIDTH / 2, 0) = (5, 0). It is MOVING, keeps the invariant, and all its cells are on the board. |
| Tetrominoes.BlockedLeft | Source/Tetromino.cpp:97-102 | definition: some cell is in a column below 1 (the signed test of translate_left). |
| Tetrominoes.BlockedRight | Source/Tetromino.cpp:113-118 | definition: some cell's column, converted to unsigned, is above GAME_WIDTH - 2 (the test of translate_right). |
| Tetrominoes.BlockedDown | Source/Tetromino.cpp:129-134 | definition: some cell's row, converted to unsigned, is above GAME_HEIGHT - 2 (the test of translate_down). |
| Tetrominoes.TranslatedLeft | Source/Tetromino.cpp:95-109 | If some cell is in column 0 or further left, nothing changes. Otherwise the anchor and every cell move exactly one column left, rows unchanged, and no cell ends left of column 0. |
| Tetrominoes.TranslatedRight | Source/Tetromino.cpp:111-125 | If some cell, read as unsigned, is beyond column GAME_WIDTH - 2, nothing changes. Otherwise the anchor and every cell move exactly one column right, rows unchanged. |
| Tetrominoes.TranslatedDown | Source/Tetromino.cpp:127-141 | If some row, read as unsigned, is beyond GAME_HEIGHT - 2, the piece only becomes LANDED. Otherwise the anchor and every cell move exactly one row down, columns and state unchanged. |
| Tetrominoes.TranslationsPreserveWellFormed | Source/Tetromino.cpp:95-141 | All three translations keep the invariant: the cells are the current layout placed at the anchor, and the anchor stays within the range the moves can reach. |
| Tetrominoes.TranslatedRightMovesIff | Source/Tetromino.cpp:114 | translate_right moves a piece if and only if every cell is in columns 0..GAME_WIDTH-2. Because of the unsigned comparison, a cell left of the board also blocks it. |
| Tetrominoes.TranslatedDownMovesIff | Source/Tetromino.cpp:127-141 | translate_down moves the cells if and only if every cell is in rows up to GAME_HEIGHT-2. A moving piece keeps its cells exactly when it lands. |
| Tetrominoes.RotationStatesCycle | Source/Tetromino.cpp:143-169 | The rotation-state updates of rotate_right (+1 mod 4) and rotate_left (-1 mod 4) stay in 0..3 and undo each other. Four rotate_right updates return to the start. |
| Tetrominoes.NextRotation | Source/Tetromino.cpp:169 | definition: the rotation-state update of rotate_right, `r < 3 ? r + 1 : 0`. |
| Tetrominoes.PreviousRotation | Source/Tetromino.cpp:145 | definition: the rotation-state update of rotate_left, `r > 0 ? r - 1 : 3`. |
| Tetrominoes.Rederived | Source/Tetromino.cpp:172-179 | definition: the piece in rotation state r with its cells replaced by the layout of that state placed at the unchanged anchor. |
| Tetrominoes.KickedOnce | Source/Tetromino.cpp:182-187 | definition: one pass of the kick loop: translate_right for a probe cell with x < 0, else translate_left for one whose x, converted to unsigned, is above GAME_WIDTH - 1, else nothing. |
| Tetrominoes.RotatedTo | Source/Tetromino.cpp:172-188 | definition: re-derive the cells at rotation state r, then kick against those un-kicked cells. |
| Tetrominoes.Kicked | Source/Tetromino.cpp:157-164 | The wall kick only translates: type, rotation state and landed state are kept, and the piece still has four cells. |
| Tetrominoes.RotatedRight | Source/Tetromino.cpp:167-189 | rotate_right keeps the type and the state, and sets the rotation state to the next one mod 4. |
| Tetrominoes.RotatedLeft | Source/Tetromino.cpp:143-165 | rotate_left keeps the type and the state, and sets the rotation state to the previous one mod 4. |
| Tetrominoes.KickedPreservesWellFormed | Source/Tetromino.cpp:157-164 | A kick over any sequence of probe cells keeps the invariant. |
| Tetrominoes.RotationsPreserveWellFormed | Source/Tetromino.cpp:143-189 | Both rotations keep the invariant. |
| Tetrominoes.KickIdleWithinWalls | Source/Tetromino.cpp:181-188 | When every probe cell is within the board's columns, the kick does nothing. |
| Tetrominoes.KickShiftsLeftPerOverhangingCell | Source/Tetromino.cpp:181-188 | With no probe cell left of the board, the kick shifts the piece one column left per probe CELL right of the board, not per overhanging column. |
| Tetrominoes.KickRefusedWhileLeftOverhang | Source/Tetromino.cpp:181-188 | While some cell of the piece is left of the board, every translate_right the kick issues is refused (unsigned comparison) and every translate_left too (`x < 1`), so the kick does nothing, whatever the probe. |
| Tetrominoes.CountRightOverhangZero | Source/Tetromino.cpp:185 | With no probe cell right of the board, no cell is counted as overhanging. |
| Tetrominoes.CellsClearOfOverhang | Source/Tetromino.cpp:181-188 | For a well-formed piece with no cell left of the board, every cell is at least as far right as the number of cells right of the board, so no translate_left of the kick is refused. |
| Tetrominoes.KickedInPlaceWhenLeftOverhang | Source/Tetromino.cpp:181-188 | A well-formed piece with a cell left of the board is not moved by the kick against its own cells. |
| Tetrominoes.KickedLeftPerRightOverhang | Source/Tetromino.cpp:181-188 | A well-formed piece with no cell left of the board is moved by the kick against its own cells exactly one column left per cell right of the board. |
| Tetrominoes.RotatedToPlacement | Source/Tetromino.cpp:172-188 | For any well-formed piece and state r: if a re-derived cell is left of the board, the result is the re-derived piece, unmoved; otherwise it is the re-derived piece moved one column left per re-derived cell right of the board. |
| Tetrominoes.RotatedRightPlacement | Source/Tetromino.cpp:167-189 | rotate_right of any well-formed piece leaves the re-derived piece unmoved when one of its cells is left of the board, and otherwise moves it one column left per cell right of the board. |
| Tetrominoes.RotatedLeftPlacement | Source/Tetromino.cpp:143-165 | rotate_left of any well-formed piece leaves the re-derived piece unmoved when one of its cells is left of the board, and otherwise moves it one column left per cell right of the board. |
| Tetrominoes.RotateRoundTrip | Source/Tetromino.cpp:143-189 | Take a piece within the side walls whose re-derived rotated cells are also within them. Then rotate_left undoes rotate_right, and rotate_right undoes rotate_left. |
| Tetrominoes.BlockRotationKeepsCells | Source/Tetromino.cpp:68-76 | Rotating a BLOCK in either direction never changes its cells, wherever it stands left of the right wall. |
| Tetrominoes.TranslatedLeftTimesShifts | Source/Tetromino.cpp:95-109 | While every cell stays in column n or right of it, n translate_left calls shift the piece exactly n columns. |
| Tetrominoes.LineReachesLeftWall | Source/Tetromino.cpp:167-189 | A spawned LINE reaches the left wall, upright, by one rotate_right and seven translate_left. |
| Tetrominoes.LeftWallKickRefused | Source/Tetromino.cpp:181-188 | The upright LINE at the left wall starts on the board. After rotate_right, its cells are (-2,1), (-1,1), (0,1), (1,1), so two cells are left off the board. |
| Tetrominoes.RightWallKickOverShifts | Source/Tetromino.cpp:181-188 | Take an L flush against the right wall, starting on the board. After rotate_right it is kicked two columns, ending one column short of the wall, although a shift of one column would fit. |
| Tetrominoes.RotationIgnoresFloor | Source/Tetromino.cpp:167-189 | A horizontal LINE on the board's floor, turned upright by rotate_right, has two cells below the board. |
| Tetrominoes.Tetromino.constructor | Source/Tetromino.cpp:79-93 | The new object holds `Spawn(t)` in a fresh four-cell array. |
| Tetrominoes.Tetromino.TranslateLeft | Source/Tetromino.cpp:95-109 | The new state is `TranslatedLeft` of the old one, and the invariant holds. |
| Tetrominoes.Tetromino.TranslateRight | Source/Tetromino.cpp:111-125 | The new state is `TranslatedRight` of the old one, and the invariant holds. |
| Tetrominoes.Tetromino.TranslateDown | Source/Tetromino.cpp:127-141 | The new state is `TranslatedDown` of the old one, and the invariant holds. |
| Tetrominoes.Tetromino.LeftWallReached | Source/Tetromino.cpp:97-102 | The scan over the array returns true if and only if some cell is in column 0 or further left. |
| Tetrominoes.Tetromino.RightWallReached | Source/Tetromino.cpp:113-118 | The scan returns true if and only if some cell, read as unsigned, is beyond column GAME_WIDTH - 2. |
| Tetrominoes.Tetromino.FloorReached | Source/Tetromino.cpp:129-134 | The scan returns true if and only if some row, read as unsigned, is beyond GAME_HEIGHT - 2. |
| Tetrominoes.Tetromino.Shift | Source/Tetromino.cpp:104-108 | Every cell of the array and the anchor move by the given offset; nothing else changes. |
| Tetrominoes.Tetromino.RotateLeft | Source/Tetromino.cpp:143-165 | The new state is `RotatedLeft` of the old one, and the invariant holds. |
| Tetrominoes.Tetromino.RotateRight | Source/Tetromino.cpp:167-189 | The new state is `RotatedRight` of the old one, and the invariant holds. |
| Tetrominoes.Tetromino.RederiveAndKick | Source/Tetromino.cpp:172-188 | From the already updated rotation state, the piece re-derives its cells and kicks, giving the rotated piece. |
| Tetrominoes.Tetromino.Rederive | Source/Tetromino.cpp:172-179 | The array holds the layout of the current rotation state placed at the anchor. The same cells are returned to drive the kick. |
| Tetrominoes.Tetromino.Kick | Source/Tetromino.cpp:181-188 | The loop of translations leaves `Kicked` of the old piece against the given probe cells, and keeps the invariant. |
| Input.Pushed | Source/InputQueue.cpp:9-21 | Key 0 leaves the deque unchanged. Any other key becomes the new front, after the rest of the deque. When 19 or more keys are pending, the back is dropped first. The bound of 19 keys is kept. |
| Input.Fetched | Source/InputQueue.cpp:34-42 | An empty deque yields GLFW_KEY_UNKNOWN and stays empty. Otherwise the back key is returned, and the deque loses exactly that key, the others keeping their order. |
| Input.DrainedPushFront | Source/InputQueue.cpp:20 | A key pushed at the front is fetched after every key already pending. |
| Input.FetchOrderIsArrivalOrder | Source/InputQueue.cpp:9-42 | Without overflow, keys pushed by the callback are fetched in the order they arrived, after the keys already pending. |
| Input.OverflowDropsOldest | Source/InputQueue.cpp:16-20 | On overflow the oldest pending key is lost and the new key is fetched last. |
| Input.InputQueue.constructor | Source/InputQueue.cpp:23-32 | A new queue is empty. |
| Input.InputQueue.KeyCallback | Source/InputQueue.cpp:9-21 | The deque becomes `Pushed` of the old one, whatever the scancode, action and modifiers, and the 19-key bound is kept. |
| Input.InputQueue.Fetch | Source/InputQueue.cpp:34-42 | The returned key and the new deque are `Fetched` of the old deque. |
| Games.Overlaps | Source/Game.cpp:127 | definition (assumed `tetromino_overlaps`): the two pieces share a cell. |
| Games.Collides | Source/Game.cpp:125-133 | The front-to-back search is true if and only if some landed piece shares a cell with the candidate. |
| Games.HighestBlock | Source/Game.cpp:120 | definition (assumed `highest_block`): the smallest row among the piece's cells. |
| Games.TopReached | Source/Game.cpp:108-112 | definition: some landed piece has its anchor in row 0 or 1. |
| Games.GameOverTestsCompared | Source/Game.cpp:107-122 | If add_landed's game-over test (topmost cell in row 0 or 1) fires, the tick's test (anchor in row 0 or 1) fires too. When the anchor is in row 0 or 1, the topmost cell is at most one row below it. |
| Games.BlockedDownIffLowest | Source/Tetromino.cpp:127-134 | translate_down's floor check refuses a piece exactly when its lowest cell is beyond row GAME_HEIGHT - 2. |
| Games.FallRoom | Source/Game.cpp:91-93 | The rows a piece can still fall are zero exactly when translate_down refuses. |
| Games.DropMeasureDecreases | Source/Game.cpp:91-93 | Each translate_down of a moving piece keeps the invariant and lowers the termination measure. When the piece moves, one row less is left to fall. |
| Games.HardDropped | Source/Game.cpp:87-94 | The hard drop leaves a LANDED piece that keeps the invariant. A moving piece ends exactly FallRoom rows lower with nothing else changed; a landed piece is unchanged. |
| Games.HardDropReachesFloor | Source/Game.cpp:87-94 | A moving piece within the board's rows ends, after the hard drop, with its lowest cell on the bottom row, every cell in the same column. |
| Games.Dispatched | Source/Game.cpp:62-105 | The key switch keeps the invariant, the type and the state of the piece. |
| Games.Ticked | Source/Game.cpp:54-115 | definition: replace a LANDED piece by a spawn of the rolled type, fetch one key from the deque, then apply `Reacted` to the piece, the landed pieces and the game-over flag. |
| Games.Reacted | Source/Game.cpp:62-114 | definition: SPACE gives the hard-dropped piece and the old flag; ESCAPE gives the piece unchanged and game over; any other key gives one translate_down of the dispatched piece and the flag set by the scan over the landed pieces. |
| Games.TickedEffects | Source/Game.cpp:54-115 | A tick consumes exactly the fetched key and leaves the landed pieces untouched. Game over is never cleared, and it is set only by ESCAPE or by the scan over the landed pieces. |
| Games.TickedPiece | Source/Game.cpp:55-105 | After a tick the piece keeps the invariant. A landed piece was replaced by one of the rolled type; a moving one keeps its type. A key outside the six handled keys, or no key, only takes one translate_down step, which on the floor lands the piece without moving it. |
| Games.Game.constructor | Source/Game.cpp:11-19 | A new game has an empty queue, no landed pieces, no game over, and a spawned piece of the rolled type. |
| Games.Game.Tick | Source/Game.cpp:54-115 | The new world (piece, deque, landed pieces, game-over flag) is `Ticked` of the old one, and the object invariants hold. |
| Games.Game.Respawn | Source/Game.cpp:55-58 | A LANDED piece is replaced by a fresh spawned piece of the rolled type; a moving piece is kept as it is. |
| Games.Game.React | Source/Game.cpp:62-114 | The piece and the game-over flag become what `Reacted` gives for the fetched key. |
| Games.Game.HandleInput | Source/Game.cpp:62-105 | The tick ends early exactly for SPACE and ESCAPE. SPACE hard-drops, ESCAPE leaves the piece alone, and the other keys dispatch. Game over is set exactly by ESCAPE. |
| Games.Game.HardDrop | Source/Game.cpp:91-93 | The loop leaves `HardDropped` of the old piece. |
| Games.Game.ScanLanded | Source/Game.cpp:108-112 | Game over becomes true exactly when it already was or some landed piece has its anchor in row 0 or 1. |
| Games.Game.AddLanded | Source/Game.cpp:117-123 | The piece is appended after the earlier landed pieces, which are unchanged. Game over is set when its topmost cell is in row 0 or 1, and never cleared. |
| Games.Game.CheckCollision | Source/Game.cpp:125-133 | True if and only if some landed piece shares a cell with the candidate, so false when nothing has landed. It reads the game and changes nothing. |

## Left out

- `Game::begin` is not modelled: it is a real-time loop over `double` clock values, a lag accumulator, rendering and buffer swaps. A game is advanced by calling `Tick` directly.
- Games.Game.constructor: the view set-up from the two shader paths and the hand-over of its window to the input queue (Source/Game.cpp:13-14) are not modelled. The constructor builds the first piece twice from two rolls (Source/Game.cpp:15, 18) and keeps only the second, so the model takes a single `roll`.
- Rendering, fonts and sound (the view, font and sound components) are not modelled.
- The random number component is a parameter. Each call that spawns a piece takes a `roll` in 0..5 from its caller.
- The GLFW callback and user-pointer registration in the `InputQueue` constructor are not modelled. `KeyCallback` is called directly on the queue object.
- The debug output to `std::cerr` in the tick is not modelled.
- The piece state, the landing rule, `highest_block`, `tetromino_overlaps` and `get_top_left_point` are assumptions, described above. They are not defined in `Source/Tetromino.h` or `Source/Tetromino.cpp`. The `Game` pointer passed to the two-argument constructor is not modelled, since nothing in this snapshot uses it.
- Row clearing and scoring are not modelled. They are only declared (`handle_row_clearing`, `block_field`).
- `Game::tick` (Source/Game.cpp:54-115) never calls `add_landed` or `check_collision`. `AddLanded` and `CheckCollision` are therefore modelled as separate operations, and `Ticked` never adds a landed piece. Moves and rotations are not checked against landed pieces, just as in the original code.
- Games.Game.Tick: a landed piece is replaced by a new `Tetromino` object rather than copy-assigned in place. Only the piece's value is compared.
- Coordinates are unbounded integers. The only 32-bit effect modelled is the signed-to-unsigned conversion in the comparisons. Every coordinate of a piece that keeps the invariant stays small, so no other overflow can occur.
- Tetrominoes.Kicked: its own contract states only what a kick keeps. The shift it performs is stated by `KickIdleWithinWalls`, `KickShiftsLeftPerOverhangingCell` and `KickRefusedWhileLeftOverhang`, and, for every rotation of a well-formed piece, by `RotatedRightPlacement` and `RotatedLeftPlacement`.
- Tetrominoes.RotateRoundTrip: states the round trip only when no cell overhangs a side wall before or after the rotation. With a kick the round trip does not hold in general.
- Games.Dispatched: its contract states only what the switch keeps. What each key does is its body, a case analysis over the key codes, which `TickedPiece` and `HandleInput` use.
