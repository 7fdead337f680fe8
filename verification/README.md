# Falling-block game engine — Dafny model

This project models the game engine of a SwiftUI Tetris clone (`TetrisModel.swift`):

- the shape and wall-kick tables of the seven tetrominoes;
- the falling piece value (`tetroBlock`);
- the column-major board `gboard[col][row]`, where row 0 is the bottom row;
- the engine tick and the player's moves.

Everything is pure. The game is the record `Game(board, active, running)`. The Swift timer becomes the `running` flag. The random shape drawn at spawn is a parameter.

Modules:

- `Wrappers`: `Option`.
- `Tables`: shapes, orientation offsets, kick tables, and the non-negative orientation index.
- `Pieces`: `Piece`, `MoveBy`, `Rotate`, `GetKicks` and `MakeNewBlock`.
- `Boards`: `CheckBlock`, locking a piece (`Place`) and line clearing. `ClearLines` is a method that follows the nested loops of `clearLines`. It is proved equal to the reference `Compact`/`AnyFull`, and the engine uses that reference.
- `Engine`: `BlockMove`, `BlockFall`, `BlockRotation`, `BlockPlaced`, `Shade`, `GameEngine` and `Tick`, plus the state invariant and the lemmas about them.

Behaviour of the code that the model keeps, though a reader might expect otherwise:

- After game over, the code stops only the timer. The player's moves still act on the stranded piece. `Tick` is a no-op once `running` is false, but `BlockMove`, `BlockRotation` and `BlockFall` do not look at `running`.
- At game over the invalid spawned piece stays as the active piece. So the invariant "a falling piece is always validly placed" is stated only for running games (`Engine.Inv`).
- The J/L/S/T/Z kick table is taken exactly as written, even where it differs from the usual SRS values. For example, it has row 0, column −2 where SRS has two rows down. Only the I table is checked against a concrete case (`Engine.IRotationUsesIKicks`).
- The spawn row uses `max(0, highest row offset)`. Every orientation 0 has a cell in row 0, so this equals the highest offset (`Pieces.SpawnTouchesTop`).
- The kicks tried on a turn are those of the orientation being left, not the one being entered (`Pieces.KicksOfDepartedOrientation`).
- A hard drop (`blockFall`) does not lock the piece. The next tick locks it (`Engine.HardDropThenTickLocks`).

## Model

| member | source | states |
|---|---|---|
| Tables.Orientation | TetrisGame/TetrisGame/GameFiles/TetrisModel.swift:226-261 | each tabled orientation, for every shape and valid index, is four pairwise distinct offsets within two cells of the origin |
| Tables.AllBlocks | TetrisGame/TetrisGame/GameFiles/TetrisModel.swift:226-261 | O has one orientation and every other shape has four, and every one is a four-cell footprint |
| Tables.Kicks | TetrisGame/TetrisGame/GameFiles/TetrisModel.swift:285-302 | every kick list starts with the zero kick (0,0); O has only that kick, and the other shapes have five |
| Tables.AllWallKicks | TetrisGame/TetrisGame/GameFiles/TetrisModel.swift:285-302 | there is one kick list per orientation, and every list starts with (0,0) |
| Tables.SwiftRem | TetrisGame/TetrisGame/GameFiles/TetrisModel.swift:219 | Swift's truncating `%`: the remainder is below the divisor in magnitude and has the sign of the dividend |
| Tables.RotationIndex | TetrisGame/TetrisGame/GameFiles/TetrisModel.swift:219-220 | truncated remainder plus the count when negative always gives a valid index, and it equals the Euclidean remainder (−1 ↦ 3) |
| Tables.GetBlocks | TetrisGame/TetrisGame/GameFiles/TetrisModel.swift:216-223 | any integer rotation selects a four-cell footprint, namely the tabled orientation whose index is the rotation modulo the orientation count (Euclidean, so −1 selects the last) |
| Tables.NegateAll | TetrisGame/TetrisGame/GameFiles/TetrisModel.swift:276-280 | the counter-kick loop yields a list of the same length with every kick negated component-wise, in order |
| Tables.GetWallKicks | TetrisGame/TetrisGame/GameFiles/TetrisModel.swift:268-283 | the clockwise list is the tabled kick list of the orientation whose index is the rotation modulo the count; both directions start with (0,0) and have one kick for O and five otherwise |
| Tables.GetBlocksPeriodic | TetrisGame/TetrisGame/GameFiles/TetrisModel.swift:216-223 | rotations r and r + count select the same offsets, and −1 selects the last orientation |
| Tables.RotationIndexPeriodic | TetrisGame/TetrisGame/GameFiles/TetrisModel.swift:219-220 | the normalised index is periodic in the rotation counter, and −1 maps to the last index |
| Tables.CounterKicksNegateClockwise | TetrisGame/TetrisGame/GameFiles/TetrisModel.swift:268-283 | counter-clockwise kicks are the clockwise kicks negated, position by position |
| Tables.IKicksDiffer | TetrisGame/TetrisGame/GameFiles/TetrisModel.swift:289-300 | for every orientation, the I kick list differs from the list shared by J, L, S, Z and T |
| Tables.OrientationsDiffer | TetrisGame/TetrisGame/GameFiles/TetrisModel.swift:226-261 | the orientations of one shape are pairwise different, so the offsets shown determine the orientation index |
| Pieces.Blocks | TetrisGame/TetrisGame/GameFiles/TetrisModel.swift:191-193 | a piece's offsets are always a well-formed four-cell footprint |
| Pieces.Cells | TetrisGame/TetrisGame/GameFiles/TetrisModel.swift:99-104 | origin plus offsets always gives exactly four distinct grid cells |
| Pieces.CellsAreTranslatedBlocks | TetrisGame/TetrisGame/GameFiles/TetrisModel.swift:99-104 | covered cell j is the origin shifted by offset j, the cell `checkBlock` tests |
| Pieces.MoveBy | TetrisGame/TetrisGame/GameFiles/TetrisModel.swift:211-214 | moving keeps shape and rotation, and shifts each covered cell by the same row and column amounts |
| Pieces.Rotate | TetrisGame/TetrisGame/GameFiles/TetrisModel.swift:207-209 | rotating keeps origin and shape and steps the rotation counter by +1 clockwise and −1 counter-clockwise |
| Pieces.GetKicks | TetrisGame/TetrisGame/GameFiles/TetrisModel.swift:263-265 | a piece's kick list is non-empty and starts with the zero kick (0,0) |
| Pieces.OrientationIndexOf | TetrisGame/TetrisGame/GameFiles/TetrisModel.swift:216-223 | a piece showing tabled orientation k has rotation counter congruent to k modulo the orientation count |
| Pieces.KicksOfDepartedOrientation | TetrisGame/TetrisGame/GameFiles/TetrisModel.swift:263-283 | a piece showing orientation k is turned with the kick list of orientation k, the one being left: as tabled clockwise, negated counter-clockwise |
| Pieces.RotateStepsOrientation | TetrisGame/TetrisGame/GameFiles/TetrisModel.swift:207-223 | from orientation k a clockwise turn shows orientation k+1 and a counter-clockwise turn orientation k−1, both modulo the count |
| Pieces.MaxRow | TetrisGame/TetrisGame/GameFiles/TetrisModel.swift:198-201 | the `rMax` loop gives an upper bound of its seed and of every offset row, and that bound is attained |
| Pieces.MakeNewBlock | TetrisGame/TetrisGame/GameFiles/TetrisModel.swift:195-205 | a spawned piece has the given shape, rotation 0, and the centre column (numCol−1)/2, rounding left on an even width; its row is pinned by `Pieces.SpawnTouchesTop` |
| Pieces.SpawnOrientationReachesRowZero | TetrisGame/TetrisGame/GameFiles/TetrisModel.swift:229-256 | orientation 0 of every shape has a cell in the origin's row |
| Pieces.MaxRowAttained | TetrisGame/TetrisGame/GameFiles/TetrisModel.swift:198-201 | when some offset lies in row 0, the `rMax` loop seeded with 0 ends on the row of an actual offset |
| Pieces.SpawnMaxAttained | TetrisGame/TetrisGame/GameFiles/TetrisModel.swift:198-201 | for orientation 0 of every shape, `rMax` is the row of one of its offsets |
| Pieces.SpawnTouchesTop | TetrisGame/TetrisGame/GameFiles/TetrisModel.swift:198-203 | every cell of a spawned piece is at or below the top row, and some cell is in it |
| Pieces.MoveByInverse | TetrisGame/TetrisGame/GameFiles/TetrisModel.swift:211-214 | moving by (−row, −column) undoes a move |
| Pieces.RotateRoundTrip | TetrisGame/TetrisGame/GameFiles/TetrisModel.swift:207-209 | rotating one way and then back restores the piece |
| Pieces.RotateCycle | TetrisGame/TetrisGame/GameFiles/TetrisModel.swift:207-223 | four clockwise turns restore the covered cells; for O, one turn does |
| Boards.EmptyBoard | TetrisGame/TetrisGame/GameFiles/TetrisModel.swift:19-23 | the initial grid is well formed with the given dimensions, and every cell is empty |
| Boards.CheckFrom | TetrisGame/TetrisGame/GameFiles/TetrisModel.swift:99-108 | the early-exit loop is true exactly when every remaining cell is on the board and empty |
| Boards.CheckBlock | TetrisGame/TetrisGame/GameFiles/TetrisModel.swift:98-109 | true exactly when every covered cell has column in [0,numCol), row in [0,numRow), and an empty board cell: bounds and overlap in one predicate |
| Boards.Write | TetrisGame/TetrisGame/GameFiles/TetrisModel.swift:118-124 | an in-bounds cell takes the shape, an off-board position is skipped, and every other cell is unchanged |
| Boards.PlaceFrom | TetrisGame/TetrisGame/GameFiles/TetrisModel.swift:117-125 | after the placement loop, a cell holds the shape exactly when it is one of the remaining covered cells; otherwise it is unchanged |
| Boards.Place | TetrisGame/TetrisGame/GameFiles/TetrisModel.swift:112-128 | locking writes the shape into exactly the piece's in-bounds cells and leaves every other cell unchanged |
| Boards.KeptRows | TetrisGame/TetrisGame/GameFiles/TetrisModel.swift:135-146 | the surviving rows below n are at most n indices, all below n |
| Boards.KeptRowsExact | TetrisGame/TetrisGame/GameFiles/TetrisModel.swift:135-146 | the surviving rows are exactly the non-full rows below n, in strictly ascending order |
| Boards.Compact | TetrisGame/TetrisGame/GameFiles/TetrisModel.swift:130-154 | the compacted grid keeps the board's dimensions and stays well formed; its packing is stated by `Boards.CompactPacksKeptRows` |
| Boards.RowIsFull | TetrisGame/TetrisGame/GameFiles/TetrisModel.swift:136-139 | the inner loop's flag is true exactly when every column holds a block in that row |
| Boards.CopyRow | TetrisGame/TetrisGame/GameFiles/TetrisModel.swift:142-144 | row `newRow` of the new grid receives row `row` of the board in every column; all other cells are unchanged |
| Boards.ClearLines | TetrisGame/TetrisGame/GameFiles/TetrisModel.swift:130-154 | reports true exactly when some row is full; then the grid is replaced by the compacted one, and otherwise it is unchanged |
| Boards.CompactPacksKeptRows | TetrisGame/TetrisGame/GameFiles/TetrisModel.swift:130-154 | the cleared grid holds the non-full rows, in ascending original order, packed from row 0, with the remaining top rows empty |
| Boards.CompactLeavesNoFullRow | TetrisGame/TetrisGame/GameFiles/TetrisModel.swift:130-154 | after a clear no row is full, so a second `clearLines` returns false |
| Boards.KeptRowsAllWhenNoneFull | TetrisGame/TetrisGame/GameFiles/TetrisModel.swift:135-146 | with no full row, every row is kept in place |
| Boards.CompactIdentityWhenNoneFull | TetrisGame/TetrisGame/GameFiles/TetrisModel.swift:150-153 | with no full row the reference clear is the identity, which agrees with the unchanged grid |
| Engine.NewGame | TetrisGame/TetrisGame/GameFiles/TetrisModel.swift:19-26 | a new game is running, has no piece, no full row and an empty grid, and satisfies the invariant |
| Engine.BlockMove | TetrisGame/TetrisGame/GameFiles/TetrisModel.swift:66-76 | false with no piece; succeeds exactly when the moved piece passes `checkBlock`, and then adopts it; on failure the state is unchanged; the board and timer are never touched |
| Engine.BlockMoveL | TetrisGame/TetrisGame/GameFiles/TetrisModel.swift:51-53 | a left move succeeds exactly when the piece shifted one column left passes `checkBlock`; then every covered cell is one column further left; a failed one changes nothing; board and timer are untouched |
| Engine.BlockMoveR | TetrisGame/TetrisGame/GameFiles/TetrisModel.swift:56-58 | a right move succeeds exactly when the piece shifted one column right passes `checkBlock`; then every covered cell is one column further right; a failed one changes nothing; board and timer are untouched |
| Engine.BlockMoveD | TetrisGame/TetrisGame/GameFiles/TetrisModel.swift:61-63 | a down move succeeds exactly when the piece one row lower passes `checkBlock`; then every covered cell is one row lower (gravity is row −1); a failed one changes nothing |
| Engine.ValidOriginRow | TetrisGame/TetrisGame/GameFiles/TetrisModel.swift:103-104 | a piece passing `checkBlock` has origin row at least −2, because no offset lies more than two rows above the origin (this bounds the drop loops) |
| Engine.Fall | TetrisGame/TetrisGame/GameFiles/TetrisModel.swift:79-81 | the drop loop ends with the piece lowered by some k ≥ 0 rows; every intermediate position passed `checkBlock`, and one more row down fails |
| Engine.BlockFall | TetrisGame/TetrisGame/GameFiles/TetrisModel.swift:79-81 | a hard drop lowers the piece k ≥ 0 rows, every row passed on the way fits, and the next row down does not, so it stops at the first blocked row; it keeps the piece unlocked and leaves board and timer alone |
| Engine.ShadeFrom | TetrisGame/TetrisGame/GameFiles/TetrisModel.swift:29-36 | the shade loop returns the drop-loop landing from any valid position, and the last valid position otherwise |
| Engine.Shade | TetrisGame/TetrisGame/GameFiles/TetrisModel.swift:28-37 | nil exactly without a piece; for a valid piece, the same piece lowered k ≥ 0 rows through positions that all fit, with one row lower invalid; an invalid piece is its own shade |
| Engine.KickFits | TetrisGame/TetrisGame/GameFiles/TetrisModel.swift:89-91 | entry j tells whether the rotated piece shifted by kick j passes `checkBlock`, one entry per kick |
| Engine.FirstFit | TetrisGame/TetrisGame/GameFiles/TetrisModel.swift:89-95 | the loop stops at the first passing candidate in list order, and reports none only when every candidate fails |
| Engine.BlockRotation | TetrisGame/TetrisGame/GameFiles/TetrisModel.swift:83-96 | the new piece is the rotated piece shifted by the first fitting kick; if none fits, nothing changes; the board and timer are untouched |
| Engine.BlockPlaced | TetrisGame/TetrisGame/GameFiles/TetrisModel.swift:112-128 | does nothing without a piece; otherwise exactly the piece's in-bounds cells take its shape, the rest of the grid is unchanged, and the piece becomes nil |
| Engine.GameEngine | TetrisGame/TetrisGame/GameFiles/TetrisModel.swift:158-181 | each tick does exactly one of: clear full rows; spawn (stop the timer if the spawned piece fails `checkBlock`); move down one row; lock the piece |
| Engine.Tick | TetrisGame/TetrisGame/GameFiles/TetrisModel.swift:40-48 | a running game takes one engine step; once stopped the game is frozen and never resumes; a tick stops the game exactly when the freshly spawned piece does not fit |
| Engine.TickPreservesInv | TetrisGame/TetrisGame/GameFiles/TetrisModel.swift:158-181 | ticks keep the invariant: well-formed grid; no full row while a piece falls; a valid piece while running |
| Engine.PlayerMovesPreserveInv | TetrisGame/TetrisGame/GameFiles/TetrisModel.swift:66-96 | moves, rotations and hard drops keep the invariant |
| Engine.BlockMoveRoundTrip | TetrisGame/TetrisGame/GameFiles/TetrisModel.swift:66-76 | a successful move followed by the opposite move succeeds and restores the state |
| Engine.MoveLeftAtWallFails | TetrisGame/TetrisGame/GameFiles/TetrisModel.swift:51-53 | a piece touching column 0 cannot move left, and the state is unchanged |
| Engine.MoveRightAtWallFails | TetrisGame/TetrisGame/GameFiles/TetrisModel.swift:56-58 | a piece touching the last column cannot move right, and the state is unchanged |
| Engine.MoveDownAtFloorFails | TetrisGame/TetrisGame/GameFiles/TetrisModel.swift:61-63 | a piece touching row 0 cannot move down, and the state is unchanged |
| Engine.RotateThereAndBackStaysValid | TetrisGame/TetrisGame/GameFiles/TetrisModel.swift:83-96 | a clockwise then counter-clockwise rotation (or the reverse) never yields an invalid placement |
| Engine.ORotationKeepsCells | TetrisGame/TetrisGame/GameFiles/TetrisModel.swift:83-96 | rotating a valid O piece succeeds with the zero kick, and the piece covers the same cells |
| Engine.ShadeIsHardDropLanding | TetrisGame/TetrisGame/GameFiles/TetrisModel.swift:28-37 | for a valid piece, the shade is exactly where a hard drop lands |
| Engine.HardDropThenTickLocks | TetrisGame/TetrisGame/GameFiles/TetrisModel.swift:174-180 | after a hard drop, the next tick's gravity step fails, and the tick locks the piece where it landed |
| Engine.ClearingTickIsNotRepeated | TetrisGame/TetrisGame/GameFiles/TetrisModel.swift:159-162 | after a tick that clears lines, no row is full |
| Engine.FirstTickSpawnsI | TetrisGame/TetrisGame/GameFiles/TetrisModel.swift:164-171 | on a new 4 × 4 game, the first tick with shape I spawns the flat I at row 3, column 1 |
| Engine.OffBoardFails | TetrisGame/TetrisGame/GameFiles/TetrisModel.swift:99-104 | one off-board cell makes `checkBlock` false |
| Engine.UprightIGeometry | TetrisGame/TetrisGame/GameFiles/TetrisModel.swift:230-290 | the upright I offsets (line 230) and the I kicks out of rotation 0 (line 290) are as tabled |
| Engine.FlatIFirstFit | TetrisGame/TetrisGame/GameFiles/TetrisModel.swift:289-290 | for that I turned clockwise on an empty 4 × 4 board, the first fitting I kick is the fourth |
| Engine.IRotationUsesIKicks | TetrisGame/TetrisGame/GameFiles/TetrisModel.swift:83-96 | that rotation lands the I upright against the left wall, at origin (2, −1) |
| Engine.SharedKicksWouldRejectI | TetrisGame/TetrisGame/GameFiles/TetrisModel.swift:295-296 | in the same position, no kick from the J/L/S/T/Z table would fit |

## Left out

- The `Timer` in `resume`, `pause` and `init`, and the `blockFallingSpeed` field, are wall-clock I/O. The timer is the `running` flag. `Tick` runs the engine only while the flag is set, and a failed spawn clears it. Restarting a stopped game with `resume` is not modelled, because the engine never calls it after game over.
- The random choice `BlockType.allCases.randomElement()` is not modelled. The shape is a parameter of `MakeNewBlock`, `GameEngine` and `Tick`.
- The `print` calls in `gameEngine` are logging only.
- The 30 × 20 default size is not modelled. Dimensions are general, but a well-formed board needs at least one row and one column, because `0...numRow-1` traps otherwise.
- Swift `Int` is 64 bits and traps on overflow. The model uses unbounded integers. Only a rotation counter advanced about 2^63 times could overflow.
- `TetrisViewModel.swift` is not part of this model: overlaying the piece and shade onto a colour grid, gesture thresholds on floating-point distances and angles, and colour mapping. `Color.swift`, `TetrisView.swift` and `ContentView.swift` are SwiftUI drawing only.
- The observable-object change notifications (`@Published`) are not modelled.
