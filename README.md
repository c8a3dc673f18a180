# Tetris piece-placement engine in Dafny

This project models the piece-placement engine of the Tetris game in
`src/tetris.cpp`. The engine sits inside the game's single `main()` and covers:

- the eleven 4x4 shape masks;
- the rotation index mapper (`rotate`) and the fit test (`doesPieceFit`);
- the in-place playfield operations: locking a landed piece, the Frozen, Electrical
  and Fire special effects, and the scan and compaction of full rows;
- the game state machine: reset, the guarded moves, hard drop, the Ghost piece's
  shadow, gravity, the spawn of the next piece and game over.

The model has three modules, one per layer of the engine:

- `Shapes` (`shapes.dfy`) holds the mask table and `Rotate`. Lemmas show that each
  rotation permutes the 16 cells of the box, that four turns are the identity, and
  that the special kinds reuse the masks of Z, O, T and I.
- `Playfield` (`playfield.dfy`) treats the 200-cell field as a value (`seq<int>`,
  row-major, 0 for empty, kind + 1 for a block). Its functions state what each
  in-place loop computes:
  - `Fits` follows the fit test's loops cell by cell and is proved equivalent to a
    quantified reference definition, `Admits`;
  - `Locked`, `Electrify`, `Burn` and `ScanRows` describe locking, the two clearing
    effects and the line scan, and lemmas say cell by cell what each leaves on the
    board;
  - `DropRow` and `HardDrop` give the row a piece comes to rest on;
  - `Land` composes a whole landing.
- `Tetris` (`game.dfy`) holds the class `Game`. Its `field` is an `array<int>` of
  200 cells, and its fields hold the falling piece, the score, lines, level, piece
  counter, the freeze and pause flags, the key-edge flags, the ghost shadow row and
  the number of particle effects emitted. Each frame-loop action is a method that
  updates these fields in place. The in-place loops (locking, the special effects,
  the line scan, the drop) are proved against the `Playfield` functions that specify
  them. Each public frame-loop action keeps the object invariant `Valid()`:
  - the field has 200 cells, all in 0..11;
  - `level == linesCleared / 10 + 1`;
  - while playing, the falling piece fits.

Time and randomness are parameters or separate method calls:

- Each `rand()` draw is a `roll: nat` argument. The spawn computes `roll % 7` or
  `7 + roll % 4` from it, as the source does.
- The float timers become calls. `GravityTick` is a frame in which the gravity timer
  reached the speed threshold. `MoveSideways` is a frame in which the move-repeat
  delay elapsed. `FreezeExpired` is the freeze countdown reaching zero.
- Mouse clicks on the start/restart and pause buttons are `PressStart` and
  `PressPause`.

## Model

| member | source | states |
|---|---|---|
| Shapes.Mask | src/tetris.cpp:40-51 | every shape mask is 16 characters long, one per cell of the 4x4 box |
| Shapes.MaskHasBlock | src/tetris.cpp:40-51 | every one of the eleven masks has an occupied cell (at index 1 or 2) |
| Shapes.SpecialMasksAreAliases | src/tetris.cpp:48-51 | Frozen, Electrical, Fire and Ghost use exactly the masks of Z, O, T and I |
| Shapes.Rotate | src/tetris.cpp:53-61 | for a cell inside the 4x4 box, every rotation gives a mask index in 0..15 |
| Shapes.CellOf | src/tetris.cpp:53-61 | the inverse of the rotation mapper always names a cell inside the box |
| Shapes.RotateCellOf | src/tetris.cpp:53-61 | every mask index is the image of some cell under each rotation (onto) |
| Shapes.CellOfRotate | src/tetris.cpp:53-61 | the cell is recovered from its rotated index (one-to-one) |
| Shapes.RotateIsPermutation | src/tetris.cpp:53-61 | each rotation maps the 16 cells into 0..15, injectively and onto: a permutation |
| Shapes.RotatePeriodic | src/tetris.cpp:53-61 | rotation r + 4 gives the same index as rotation r |
| Playfield.Index | src/tetris.cpp:67 | the flat index y * 10 + x of a cell on the 10x20 field lies in 0..199 |
| Playfield.IndexOnto | src/tetris.cpp:67 | every flat index 0..199 is the index of a cell on the field |
| Playfield.IndexInverse | src/tetris.cpp:67 | the column and row of a cell on the field are recovered from its flat index |
| Playfield.EmptyBoard | src/tetris.cpp:175 | the cleared field has 200 cells, every one of them 0 (empty), and so all within 0..11 |
| Playfield.CellFits | src/tetris.cpp:66-75 | the test of one local cell: an occupied cell must be on the field and on an empty cell; no contract of its own, its meaning is given by FitsIff |
| Playfield.ColumnFits | src/tetris.cpp:65-76 | the inner loop of the fit test, stopping at the first cell that fails; no contract of its own, see ColumnFitsAll and ColumnFitsCell |
| Playfield.FitsFrom | src/tetris.cpp:64-77 | the outer loop of the fit test over the remaining columns; no contract of its own, see FitsFromColumn and AdmitsFitsFrom |
| Playfield.Fits | src/tetris.cpp:63-78 | the fit test; no contract of its own, its meaning is given by FitsIff |
| Playfield.ColumnFitsAll | src/tetris.cpp:65-76 | the inner loop of the fit test with early exit passes iff every cell of the column passes |
| Playfield.FitsFromColumn | src/tetris.cpp:64-77 | when the outer loop passes from column c, every column it reaches passes the inner loop |
| Playfield.ColumnFitsCell | src/tetris.cpp:65-76 | when the inner loop passes from row q, every cell it reaches passes the cell test |
| Playfield.AdmitsColumn | src/tetris.cpp:65-76 | when every occupied cell lands on an empty field cell, the inner loop passes from any row on |
| Playfield.AdmitsFitsFrom | src/tetris.cpp:64-77 | when every occupied cell lands on an empty field cell, the outer loop passes from any column on |
| Playfield.FitsIff | src/tetris.cpp:63-78 | the fit test accepts iff every occupied cell of the rotated mask lands inside the 10x20 field on an empty cell |
| Playfield.FitsAdmits | src/tetris.cpp:63-78 | a placement the fit test accepts has every occupied cell on the field and on an empty cell |
| Playfield.AdmitsFits | src/tetris.cpp:63-78 | a placement whose occupied cells all land on empty field cells is accepted by the fit test |
| Playfield.FitsOccupiedOnField | src/tetris.cpp:69-74 | any occupied cell of an accepted placement is on the field and on an empty cell |
| Playfield.FitsAboveFloor | src/tetris.cpp:63-78 | a piece that fits has its box's top row above the floor, because every mask has a block |
| Playfield.EmptyBoardFits | src/tetris.cpp:174-179 | on an empty field any piece whose box lies inside the field fits, in particular a piece at the spawn position |
| Playfield.TryMove | src/tetris.cpp:253-273 | a guarded move yields the new placement or the old one; from a fitting piece it moves exactly when the new placement fits; the result fits iff the new placement or the old one fits, so a fitting piece keeps fitting |
| Playfield.DropRow | src/tetris.cpp:276-280 | the resting row is never above the starting row |
| Playfield.DropRowLands | src/tetris.cpp:276-280 | the piece cannot move one row below the resting row, and a piece that fits at the start fits at the resting row |
| Playfield.HardDrop | src/tetris.cpp:276-280 | hard drop keeps kind, rotation and column, never raises the piece, keeps a fitting piece fitting, and stops where the row below does not fit |
| Playfield.DropRowStep | src/tetris.cpp:278 | when the row below fits, that row is above the floor and the piece rests where the lowered piece rests |
| Playfield.DropRowStop | src/tetris.cpp:278 | when the row below does not fit, the piece rests where it is |
| Playfield.WriteCell | src/tetris.cpp:292-297 | one step of the lock loop keeps the field at 200 cells; WriteCellAt gives its meaning |
| Playfield.LockUpTo | src/tetris.cpp:290-299 | the lock loop up to local cell (px, py) keeps the field at 200 cells; LockUpToAt gives its meaning |
| Playfield.Locked | src/tetris.cpp:290-299 | locking keeps the field at 200 cells; LockedAt and LockedFitting give its meaning |
| Playfield.WriteCellAt | src/tetris.cpp:292-297 | one step of the lock loop writes kind + 1 only at the flat index its occupied cell covers |
| Playfield.CoveredBeforeColumn | src/tetris.cpp:290-291 | in the lock loop's order, the cells before column px are those before the end of column px - 1 |
| Playfield.CoveredBeforeCell | src/tetris.cpp:290-291 | in the lock loop's order, the cells before (px, py) are those before (px, py - 1) plus that cell |
| Playfield.LockUpToAt | src/tetris.cpp:290-299 | after the lock loop reaches (px, py), a cell holds kind + 1 iff an earlier occupied cell covers it, and otherwise keeps its old value |
| Playfield.LockedAt | src/tetris.cpp:290-299 | locking writes kind + 1 into exactly the cells whose flat index an occupied cell covers (indices outside 0..199 skipped) and leaves every other cell unchanged |
| Playfield.LockedFitting | src/tetris.cpp:290-299 | locking a piece that fits paints exactly the field cells the piece shows, with no wrap-around into a neighbouring row |
| Playfield.CoversIffShows | src/tetris.cpp:294 | for a piece that fits, a flat index is covered iff its field cell is shown by the piece |
| Playfield.CoversShows | src/tetris.cpp:294 | a flat index covered by a piece whose cells are all on the field is a cell the piece shows |
| Playfield.LockedInRange | src/tetris.cpp:290-299 | locking keeps every cell within 0..11 |
| Playfield.BlockCountEmptyCell | src/tetris.cpp:336-338 | emptying a non-empty cell lowers the number of blocks by exactly one |
| Playfield.ZeroRow | src/tetris.cpp:309-312 | emptying a row keeps the field's size; ElectrifyAt gives its meaning |
| Playfield.ZeroRowOnField | src/tetris.cpp:308-323 | a row is emptied and counted only when it lies on the field; no contract of its own, see Electrify and ElectrifyAt |
| Playfield.Electrify | src/tetris.cpp:305-328 | the Electrical effect clears two rows exactly when both y and y - 1 are on the field, and none exactly when neither is |
| Playfield.ElectrifyAt | src/tetris.cpp:305-328 | Electrical empties the landing row and the row above it and leaves every other cell unchanged |
| Playfield.BurnCell | src/tetris.cpp:334-341 | one step of the Fire scan keeps the field at 200 cells; BurnCellAt and BurnCellCount give its meaning |
| Playfield.BurnUpTo | src/tetris.cpp:331-343 | the Fire scan up to offset (ex, ey) keeps the field at 200 cells; BurnUpToAt, BurnUpToCount and BurnUpToBound give its meaning |
| Playfield.Burn | src/tetris.cpp:329-344 | the Fire effect keeps the field at 200 cells; BurnAt and BurnCount give its meaning |
| Playfield.BurnCellAt | src/tetris.cpp:334-338 | one step of the Fire scan empties at most the one cell at its offset |
| Playfield.BurnUpToAt | src/tetris.cpp:332-343 | after the Fire scan reaches offset (ex, ey), exactly the box cells before it are empty and the rest are unchanged |
| Playfield.BurnAt | src/tetris.cpp:329-344 | Fire empties every field cell of the 5x5 box around the piece origin and leaves every other cell unchanged |
| Playfield.BurnCellCount | src/tetris.cpp:336-338 | one step of the Fire scan counts a cell iff it removed a block, so at most one |
| Playfield.BurnUpToCount | src/tetris.cpp:331-343 | the Fire scan's running count equals the number of blocks it has removed |
| Playfield.BurnUpToBound | src/tetris.cpp:331-343 | the Fire scan counts at most one block per offset it visited |
| Playfield.BurnCount | src/tetris.cpp:329-344 | the Fire count, paid at 10 points each, is exactly the drop in the number of blocks and at most 25 |
| Playfield.RowFull | src/tetris.cpp:351-354 | whether all ten cells of a row are non-empty; no contract of its own, see Tetris.Game.LineFull |
| Playfield.ClearRow | src/tetris.cpp:356-364 | removing a row keeps the field at 200 cells; ClearRowAt gives its meaning |
| Playfield.ScanRows | src/tetris.cpp:348-373 | the line scan keeps the field at 200 cells; ScanRowsKeepsLowerRows, ScanRowsCount and ScanRowsInRange give its meaning |
| Playfield.ClearRowAt | src/tetris.cpp:356-364 | removing full row y keeps the rows below y, moves each row 1..y down from the row above it, and empties row 0 |
| Playfield.ScanRowsKeepsLowerRows | src/tetris.cpp:348-373 | the line scan changes nothing below the last row it has looked at |
| Playfield.ScanRowsCount | src/tetris.cpp:348-373 | the sequential scan of rows y..y+3 removes exactly as many rows as were full when it began |
| Playfield.ScanRowsInRange | src/tetris.cpp:348-373 | the line scan keeps every cell within 0..11 |
| Playfield.FullRowsBound | src/tetris.cpp:348-350 | at most one line is counted per scanned row, so at most four per landing |
| Playfield.SpecialEffect | src/tetris.cpp:302-345 | the Electrical and Fire effects with their points and effect counts; no contract of its own, see SpecialEffectInRange, ElectrifyAt, BurnAt and BurnCount |
| Playfield.Land | src/tetris.cpp:290-373 | a whole landing: lock, special effect, then the scan of the piece's four rows; no contract of its own, see LandInRange and Tetris.Game.Settle |
| Playfield.SpecialEffectInRange | src/tetris.cpp:302-345 | the special effects only empty cells, so the field keeps 200 cells within 0..11 |
| Playfield.LandInRange | src/tetris.cpp:290-373 | a landing keeps every cell within 0..11 and clears exactly the full rows of the piece's box, at most four |
| Playfield.SpawnKind | src/tetris.cpp:375-381 | the next piece is a special kind 7..10 iff the incremented piece counter is a multiple of 3, and a tetromino 0..6 otherwise |
| Playfield.SpawnPiece | src/tetris.cpp:382-384 | a spawned piece has rotation 0 and its box at column 3, row 0 |
| Tetris.Game.Active | src/tetris.cpp:252 | the guard shared by input and gravity (also at line 285): playing, not frozen and not paused; no contract of its own, see GravityTick |
| Tetris.Game.constructor | src/tetris.cpp:148-170 | the game starts in the menu over an empty field, with zero score, lines and counter, level 1, not frozen and not paused, no key held on the previous frame and the shadow row at 0 |
| Tetris.Game.Reset | src/tetris.cpp:174-190 | reset zeroes the field, score, lines, counter and effects, sets level 1, clears the freeze and pause, spawns a tetromino at (3, 0) and starts playing; the new piece fits |
| Tetris.Game.PressStart | src/tetris.cpp:208-219 | the start/restart button resets the game from the menu or the game-over screen and does nothing while playing; the key-edge flags and the shadow row, which the reset does not touch, keep their values |
| Tetris.Game.PressPause | src/tetris.cpp:220-224 | the pause button toggles the pause only while playing |
| Tetris.Game.FreezeExpired | src/tetris.cpp:229-235 | the end of the freeze countdown thaws a game that is playing |
| Tetris.Game.MoveSideways | src/tetris.cpp:253-261 | left wins over right, and the piece moves one column only when it fits there |
| Tetris.Game.RotateKey | src/tetris.cpp:263-268 | on a key press edge the piece turns a quarter only when it fits turned, and the previous-key flag follows the key |
| Tetris.Game.SoftDrop | src/tetris.cpp:270-273 | the piece moves one row down only when it fits there |
| Tetris.Game.RestingRow | src/tetris.cpp:246-248 | the loop that pushes a piece down while the row below fits returns its resting row |
| Tetris.Game.HardDropKey | src/tetris.cpp:275-281 | on a key press edge the piece moves to its hard-drop row, where it fits and the row below does not |
| Tetris.Game.UpdateGhostShadow | src/tetris.cpp:243-249 | while a Ghost piece is playing, the shadow row is its hard-drop row; otherwise it is left as it was |
| Tetris.Game.GravityTick | src/tetris.cpp:284-390 | gravity moves the piece one row down when that fits, and otherwise lands it and spawns the next piece; nothing happens when paused, frozen or not playing |
| Tetris.Game.LandPiece | src/tetris.cpp:288-387 | a landing leaves the board and counters of Land, freezes for a Frozen piece, advances the counter, spawns the next piece, and is game over exactly when that piece does not fit |
| Tetris.Game.Settle | src/tetris.cpp:289-373 | lock, special effect and line scan together leave the field, score, lines and effects that Land describes and keep cells within 0..11 |
| Tetris.Game.SpawnNext | src/tetris.cpp:374-386 | the counter advances, the next kind follows SpawnKind, and the state becomes game over exactly when the new piece does not fit |
| Tetris.Game.LockPiece | src/tetris.cpp:290-299 | the in-place lock loop leaves the field that Locked describes |
| Tetris.Game.LockColumn | src/tetris.cpp:291-298 | one column of the lock loop carries the writes from one column to the next |
| Tetris.Game.LockCell | src/tetris.cpp:292-297 | one cell of the lock loop makes the write of WriteCell |
| Tetris.Game.ApplySpecial | src/tetris.cpp:301-345 | the special effect sets the freeze for Frozen, clears rows for Electrical (100 points and 10 effects each) or the 5x5 box for Fire (10 points and one effect per block) |
| Tetris.Game.EmptyRow | src/tetris.cpp:309-312 | the row loop empties the ten cells of one row and no others |
| Tetris.Game.Explode | src/tetris.cpp:329-344 | the in-place Fire loop leaves the board of Burn and adds 10 points and one effect per block it removed |
| Tetris.Game.BurnColumn | src/tetris.cpp:333-342 | one column of the Fire loop carries the scan from one column to the next and counts its hits |
| Tetris.Game.BurnCellInPlace | src/tetris.cpp:334-341 | one cell of the Fire loop empties and counts a non-empty field cell at its offset |
| Tetris.Game.CopyRowDown | src/tetris.cpp:357-361 | one pass of the shift loop copies row ty - 1 into row ty and changes no other cell |
| Tetris.Game.LineFull | src/tetris.cpp:351-354 | the early-exit row test returns true iff every cell of the row is non-empty |
| Tetris.Game.ShiftRowsDown | src/tetris.cpp:356-364 | the in-place shift removes full row y exactly as ClearRow describes |
| Tetris.Game.ClearLines | src/tetris.cpp:347-373 | the in-place line scan leaves the board of ScanRows, with 100 points, one line and ten effects per removed row, and the level following the lines |

## Left out

- Window creation, event polling, Escape and window close, and button hit-testing
  are SFML input. The two button clicks that change the game are the methods
  `PressStart` and `PressPause`.
- All rendering is left out: the star background, colours, blocks, border, grid,
  text, menu screens and the shadow drawing. So are music and font loading.
- The float timers are left out: `deltaTime`, `speedCounter`, `moveTimer`,
  `moveDelay`, the `freezeTimer` countdown and its 3-second duration, and the
  `speed = 0.5 / (level * 0.5 + 0.5)` formula. Each threshold crossing is a method
  call instead: `GravityTick`, `MoveSideways` and `FreezeExpired`.
- Tetris.Game.HardDropKey: does not model setting the gravity timer to the speed
  threshold. That assignment is float timing; it makes the next `GravityTick` lock
  the piece in the same frame.
- The order of the actions within one frame is left to the caller. The source runs
  the freeze countdown, then the ghost shadow, then the input (sideways move, rotate,
  soft drop, hard drop), then gravity; each is a separate method here.
- Particle effects keep only the number emitted (`effects`). Their positions,
  colours and lifetimes, and their removal when the lifetime runs out, are float
  rendering state.
- `rand()` and `srand(time(NULL))` are left out: each draw is the `roll` parameter.
- Shapes.Rotate: takes only non-negative rotations. Rotation starts at 0 and is only
  ever incremented, so the source's fall-through `return 0` for a negative remainder
  is unreachable.
- Score, lines, the piece counter and the piece's rotation are unbounded naturals.
  The model does not capture the 32-bit `int` overflow of the source after very long
  games (the rotation grows by one on every accepted turn).
- The falling piece before the first reset is left out: the source leaves it
  uninitialised. The model gives it kind 0 at (0, 0), and it is never used before a
  reset starts a game.
