# Tetris board and pieces, modelled in Dafny

This project models the playable core of a PyQt5 Tetris clone. That core is the `Shape` piece and the `Board` state machine of `Tetris.py`.

**The grid.** The board has 10 columns and 22 rows. It is kept as one flat list, and the cell at column x, row y sits at index `y*10 + x`. Row 0 is the bottom row.

**The falling piece.** The falling piece has a kind and four (x, y) offsets, which come from a fixed table. Each cell of the piece is drawn at `(curX + x, curY - y)`.

**Moves.** `tryMove` is the only legality test. A move is made only when all four cells are on the board and empty.

**Landing and clearing lines.** When a piece lands, its kind is written into its four cells. Then `removeFullLines` runs:
- It finds the rows whose ten cells are all occupied.
- It removes them from the highest down.
- Each removal moves every row above the removed one a row lower.
- When at least one row was removed, the spawn of the next piece waits for the next timer tick.

**Other state.** Key presses, timer ticks, `start` and `pause` switch flags. Status messages go to the status bar.

**Modules.** There are five:
- `Tetrominoes` (`tetrominoes.dfy`) holds the eight kinds and their integer codes.
- `Shapes` (`shapes.dfy`) holds the piece as a value: the offset table, the two quarter turns, and the loops that compute the least and greatest offsets.
- `Grid` (`grid.dfy`) holds the rules of the grid as functions:
  - `Fits`, the legality test of a move;
  - `Placed`, a piece written into the grid;
  - `LandingY`, where a hard drop ends;
  - `Rows`, `FullRows`, `Kept` and `Compact`, which describe line clearing;
  - `ShiftDown`, the program's own shift pass, and the proof that repeating it from the highest full row down gives `Compact`;
  - `SpawnY`, the row a new piece starts on.
- `Steps` (`steps.dfy`) holds the whole board state as a value, `Snapshot`, and one function per operation that says what the operation turns a state into: `Spawn`, `Move`, `Place`, `ClearLines`, `Drop`, `HardDrop`, `StepDown`, `Toggle`, `Tick`, `Act`, `KeyPress` and `StartGame`. It also holds the invariant `Inv` and the lemmas about these functions:
  - every operation keeps `Inv`;
  - a drop removes exactly the full rows;
  - a hard drop comes to rest;
  - a failed spawn ends the game;
  - pausing twice, and moving or turning there and back, restore the state.
- `Game` (`game.dfy`) holds `class Board`. Its fields are the ones the program updates, and its methods follow the program's methods loop for loop. Each method that stands for one of the program's operations ensures `State() == F(old(State()), …)`, where `F` is the matching function of `Steps`. These are `Start`, `Pause`, `KeyPressEvent`, `TimerEvent`, `DropDown`, `OneLineDown`, `PlacePiece`, `PieceDropped`, `RemoveFullLines`, `NewPiece` and `TryMove`. The helpers state their effect in other terms:
  - `SetShapeAt` and `ClearBoard` state the new cell list directly.
  - `FallToLanding` states the old state with the anchor row set to `LandingY`.
  - `ShiftRowsDown` and `ShiftOutRows` state the new cell list as the `Grid` functions `ShiftDown` and `RemovalFlat`.

Six members ensure `Valid()`, which is `Inv` of the current state: the constructor, `Start`, `Pause`, `KeyPressEvent`, `TimerEvent` and `Game.NewGame`. These are the entry points the window and the Qt event loop call. The other methods run in the middle of one of them, where `Valid()` may not hold. For example, right after `PlacePiece` the live piece sits on the cells it has just written. Their `Steps` lemmas (`DropKeepsInv`, `HardDropKeepsInv`, `StepDownKeepsInv`, `SpawnKeepsInv`, `MoveKeepsInv`) state when the invariant is restored. `Valid()` says:
  - every cell past the first 220 is empty;
  - after `start` the list holds a second block of 220 cells, so the read of row 22 in the shift loop stays inside the list;
  - the falling piece's anchor is on the board;
  - the falling piece is well formed: its anchor is one of its cells, and a NoShape piece has all four offsets at (0, 0);
  - a live piece sits on empty cells;
  - a waiting spawn means there is no live piece;
  - while paused, the timer is stopped, and in a started game the timer runs exactly when the game is not paused.

**Effects that became parameters or fields:**
- `random.randint(1, 7)` becomes the parameter `next`: the kind drawn, which is never NoShape. `FromCode` maps a drawn number to its kind.
- The Qt timer becomes the bool `timerRunning`. `TimerEvent` requires it, because only the running timer delivers ticks.
- The status-bar signal becomes the ghost log `log` of `Count(n)`, `Paused` and `GameOver`.
- A Qt key code becomes the enum `Key`.

**Where the grid model follows the code.** `clearBoard` appends 220 empty cells and never resets the cells already there. The model keeps that: the list holds 440 cells once `start` has run, as in the program. Both `StartGame` and `NewGame` state this.

## Model

| member | source | states |
|---|---|---|
| Tetrominoes.Code | Tetris.py:369-378 | each kind's constant is in 0..7, and it is 0 exactly for NoShape |
| Tetrominoes.FromCode | Tetris.py:369-378 | the kind named by a code has that code; a draw in 1..7 never gives NoShape |
| Tetrominoes.CodeRoundTrip | Tetris.py:369-378 | mapping a kind to its code and back gives the kind |
| Shapes.CoordsTable | Tetris.py:383-392 | every table row contains the anchor offset (0, 0), and every offset lies in x in -1..1 and y in -1..2 |
| Shapes.NewShape | Tetris.py:408-417 | setShape(k) gives kind k with the anchor among its cells, with a NoShape piece at the all-zero row, and with every offset in x in -1..1 and y in -1..2 |
| Shapes.RotationMovesEachOffset | Tetris.py:490-521 | except for the Square, rotateLeft maps each offset (x, y) to (y, -x) and rotateRight maps it to (-y, x); both keep the kind |
| Shapes.SquareRotatesToItself | Tetris.py:493-494 | the Square rotates to the identical piece in both directions |
| Shapes.RotateLeftThenRight | Tetris.py:490-521 | a left turn then a right turn, and a right turn then a left turn, both give back the original piece |
| Shapes.FourTurnsAreIdentity | Tetris.py:490-521 | four left turns, and four right turns, are the identity |
| Shapes.RotationKeepsWellFormed | Tetris.py:490-521 | a rotated piece keeps its kind and keeps the anchor among its cells |
| Shapes.SquareFormulaWouldMoveCells | Tetris.py:493-494 | without its special case the Square would turn into different cells, so the special case matters |
| Shapes.RotateLeft | Tetris.py:490-504 | no ensures of its own; the turn is stated by RotationMovesEachOffset, SquareRotatesToItself, RotateLeftThenRight, FourTurnsAreIdentity and RotationKeepsWellFormed |
| Shapes.RotateRight | Tetris.py:507-521 | no ensures of its own; the turn is stated by RotationMovesEachOffset, SquareRotatesToItself, RotateLeftThenRight, FourTurnsAreIdentity and RotationKeepsWellFormed |
| Shapes.MinOf | Tetris.py:450-457 | the least value is one of the values and is at most each of them |
| Shapes.MaxOf | Tetris.py:460-467 | the greatest value is one of the values and is at least each of them |
| Shapes.MinX | Tetris.py:450-457 | the loop returns the least x offset |
| Shapes.MaxX | Tetris.py:460-467 | the loop returns the greatest x offset |
| Shapes.MinY | Tetris.py:470-477 | the loop returns the least y offset |
| Shapes.MaxY | Tetris.py:480-487 | the loop returns the greatest y offset |
| Grid.IndexIsOneToOne | Tetris.py:84-93 | the flat index of an on-board cell is below 220, and distinct cells have distinct indices |
| Grid.Fits | Tetris.py:329-338 | no ensures of its own; the move test, all four cells on the board and empty; LivePieceInBounds and FitsPutsAnchorInBounds state what it implies, and Game.Board.TryMove proves the loop equal to it |
| Grid.LivePieceInBounds | Tetris.py:326-345 | a live piece that passed the move test, or a NoShape piece at an on-board anchor, has all four cells on the board |
| Grid.FitsPutsAnchorInBounds | Tetris.py:326-345 | a piece that passes the move test has its anchor on the board, so 0 <= curY < 22 |
| Grid.Stamp | Tetris.py:258-264 | the first n writes of the placement loop keep the list's length; StampCells states which cells they change |
| Grid.Placed | Tetris.py:258-264 | no ensures of its own; all four writes of the placement loop; PlacedCells states its length and its cells |
| Grid.StampCells | Tetris.py:258-264 | after the first n iterations, exactly the first n cells of the piece hold its kind and every other cell is unchanged |
| Grid.PlacedCells | Tetris.py:255-264 | landing writes the piece's kind into exactly its four cells; every other cell is unchanged; no write falls outside the 220 board cells |
| Grid.LandingY | Tetris.py:233-245 | the drop row is not above the start row; the piece fits on every row it passes; when the anchor is above row 0, the next row down does not fit |
| Grid.LandingIsResting | Tetris.py:238-243 | the piece can never move one row below its drop row, so the loop's `newY > 0` guard never stops a drop early |
| Grid.Filled | Tetris.py:280-283 | the count of occupied cells is at most the row length |
| Grid.FilledAllIffFull | Tetris.py:280-286 | the count equals the row width exactly when every cell is occupied, which is what the literal 10 tests |
| Grid.FullRows | Tetris.py:278-286 | the listed indices are row indices, and there are at most as many as rows |
| Grid.FullRowsAreTheFullRows | Tetris.py:278-286 | a row is listed iff it is full, and the list is ascending |
| Grid.Kept | Tetris.py:291-295 | no kept row is full |
| Grid.KeptAndRemovedPartition | Tetris.py:272-297 | the kept rows and the full rows together number exactly the rows, so every row is either kept or removed |
| Grid.KeptRowMovesDown | Tetris.py:291-295 | a non-full row k ends at row k minus the number of full rows below it, with its content, so order is kept and rows pack downward |
| Grid.CompactHasNoFullRow | Tetris.py:272-297 | line clearing keeps the number of rows, and none of the resulting rows is full |
| Grid.NoFullRowMeansNoChange | Tetris.py:272-297 | with no full row, line clearing changes nothing |
| Grid.ShiftDown | Tetris.py:293-295 | one shift pass keeps the list's length; ShiftDownRows states what it does to the rows |
| Grid.ShiftDownRows | Tetris.py:293-295 | one shift pass for row m deletes row m, lowers every row above it, and puts the empty row above the board on top; cells past the board are never written |
| Grid.Reverse | Tetris.py:288 | the list is reversed element by element |
| Grid.RemovalCompacts | Tetris.py:288-295 | removing the full rows of a lower block of rows one by one, from the highest down, gives that block's non-full rows in order, then the rows above the block unchanged, then one empty row per removed row |
| Grid.RemovingFullRowsCompacts | Tetris.py:288-295 | deleting the full rows of a grid from the highest down is exactly line clearing |
| Grid.RemovalFlat | Tetris.py:291-295 | the shift passes for a list of rows keep the list's length; RemovalFlatRows states what they do to the rows |
| Grid.Cleared | Tetris.py:288-295 | the whole removal keeps the list's length; ClearedIsCompact states that it is line clearing |
| Grid.RemovalFlatRows | Tetris.py:291-295 | on rows, the shift passes delete the listed rows one after the other, and the cells past the board stay as they were |
| Grid.ClearedIsCompact | Tetris.py:272-297 | the program's full-row search and shift passes leave the non-full rows packed down in order under empty rows, and never write past the 220 board cells |
| Grid.SpawnY | Tetris.py:315 | no ensures of its own; the spawn row per kind; SpawnYIsMin states that it is row 21 plus the least y offset |
| Grid.SpawnYIsMin | Tetris.py:315 | the spawn row of each kind is row 21 plus the least y offset of its table row |
| Grid.SpawnTouchesTop | Tetris.py:314-315 | a new piece at column 6 and its spawn row has its anchor on the board, no cell above row 21 and one cell on row 21 |
| Grid.SpawnFitsOnEmptyGrid | Tetris.py:309-322 | on an empty grid every kind fits at its spawn position |
| Steps.Spawn | Tetris.py:309-322 | a spawn never changes the grid, the count, the waiting flag or the pause flag |
| Steps.Initial | Tetris.py:67-81 | no ensures of its own; the state initBoard leaves; InitialKeepsInv states that it satisfies the invariant |
| Steps.Move | Tetris.py:326-345 | no ensures of its own; tryMove's effect; Game.Board.TryMove and MoveKeepsInv state its properties |
| Steps.Place | Tetris.py:258-264 | placing keeps the list's length and the count; PlacedCells states the cells written |
| Steps.ClearLines | Tetris.py:272-306 | clearing keeps the list's length and never lowers the count; DropClearsFullRows and DropWaitsIffLinesCleared state the rest |
| Steps.Drop | Tetris.py:255-269 | a drop keeps the list's length and never lowers the count; DropClearsFullRows, DropLeavesNoFullRow and DropWaitsIffLinesCleared state the rest |
| Steps.HardDrop | Tetris.py:233-245 | a hard drop keeps the list's length and never lowers the count; HardDropRests states where it lands |
| Steps.StepDown | Tetris.py:248-252 | a step down keeps the list's length and never lowers the count; StepDownKeepsInv states that it keeps the invariant |
| Steps.Toggle | Tetris.py:125-141 | no ensures of its own; pause's effect; ToggleKeepsInv and PauseTwiceRestores state its properties |
| Steps.Tick | Tetris.py:211-220 | no ensures of its own; a tick's effect; TickKeepsInv and CountNeverDecreases state its properties |
| Steps.Act | Tetris.py:182-208 | no ensures of its own; the key dispatch; ActKeepsInv states that it keeps the invariant |
| Steps.KeyPress | Tetris.py:173-208 | no ensures of its own; keyPressEvent's effect; KeyPressKeepsInv, GameOverIgnoresKeys, LeftThenRightRestores, TurnThenTurnBackRestores and CountNeverDecreases state its properties |
| Steps.StartGame | Tetris.py:108-122 | no ensures of its own; start's effect; StartKeepsInv and FirstPieceIsLive state its properties |
| Steps.InitialKeepsInv | Tetris.py:67-81 | the state initBoard leaves satisfies the invariant and holds 220 cells |
| Steps.SpawnKeepsInv | Tetris.py:309-322 | a spawn keeps the invariant and puts the anchor at column 6 and the kind's spawn row; when a tetromino was drawn and the piece is NoShape afterwards, the game is no longer started |
| Steps.MoveKeepsInv | Tetris.py:326-345 | from a state with no spawn waiting, a move to any well-formed piece keeps the invariant, whether the test passes or fails |
| Steps.PlaceAndClearKeepGrid | Tetris.py:255-306 | placing a piece and clearing lines keep the list's length and leave every cell past the board empty |
| Steps.DropKeepsInv | Tetris.py:255-269 | a drop keeps the invariant |
| Steps.LowerKeepsInv | Tetris.py:248-251 | moving a piece that fits one row lower keeps the invariant |
| Steps.StepDownKeepsInv | Tetris.py:248-252 | oneLineDown keeps the invariant, by the move or by the drop |
| Steps.HardDropKeepsInv | Tetris.py:233-245 | dropDown keeps the invariant |
| Steps.ToggleKeepsInv | Tetris.py:125-141 | pause keeps the invariant |
| Steps.TickKeepsInv | Tetris.py:211-220 | a tick keeps the invariant, and the live piece has all its cells on the board |
| Steps.ActKeepsInv | Tetris.py:182-208 | every key handled in a running game keeps the invariant |
| Steps.KeyPressKeepsInv | Tetris.py:173-208 | every key press keeps the invariant, and the piece has all its cells on the board |
| Steps.StartKeepsInv | Tetris.py:108-122 | start keeps the invariant |
| Steps.DropClearsFullRows | Tetris.py:255-297 | after a drop the rows are the non-full rows of the placed grid packed down under empty rows, the cells past the board are unchanged, and the count grows by exactly the number of full rows |
| Steps.DropLeavesNoFullRow | Tetris.py:255-297 | after any drop no row of the board is full |
| Steps.DropWaitsIffLinesCleared | Tetris.py:266-269 | with no spawn pending, a drop makes the spawn wait exactly when it removed a row; then the piece is NoShape and the new count was sent |
| Steps.HardDropRests | Tetris.py:233-245 | dropDown ends on a row not above the start row, where the piece cannot move one row lower, and drops the piece there |
| Steps.GameOverIgnoresKeys | Tetris.py:317-322 | a spawn that does not fit stops the timer and ends the game, and from then on every key is ignored |
| Steps.PauseTwiceRestores | Tetris.py:125-141 | in a started game that satisfies the invariant, pausing and resuming restores the state, with the two messages appended to the log |
| Steps.LeftThenRightRestores | Tetris.py:189-193 | a successful move left followed by a move right gives back the state |
| Steps.TurnThenTurnBackRestores | Tetris.py:195-199 | a successful left turn (key Up) followed by a right turn (key Down) gives back the state |
| Steps.CountNeverDecreases | Tetris.py:297-302 | no key press and no tick lowers the count of removed lines |
| Steps.FirstPieceIsLive | Tetris.py:27-36 | on a fresh board, start leaves 440 empty cells, the count 0 sent, the timer running, and the first piece live at its spawn position |
| Game.Board.constructor | Tetris.py:67-81 | initBoard: flags off, counters zero, a NoShape piece, and a list of 220 empty cells |
| Game.Board.ShapeAt | Tetris.py:84-87 | no ensures of its own; the cell at index y*10 + x; IndexIsOneToOne states that distinct cells have distinct indices |
| Game.Board.SetShapeAt | Tetris.py:90-93 | exactly the cell at index y*10 + x is replaced |
| Game.Board.ClearBoard | Tetris.py:226-230 | 220 empty cells are appended and the cells already there are kept |
| Game.Board.Start | Tetris.py:108-122 | nothing while paused; otherwise the count is reset and sent, 220 empty cells are appended, the first piece spawns or the game ends, and the timer runs; the invariant is kept |
| Game.Board.Pause | Tetris.py:125-141 | nothing when not started; otherwise the pause flag flips and the timer stops with "paused" sent, or restarts with the count sent; the invariant is kept |
| Game.Board.KeyPressEvent | Tetris.py:173-208 | ignored unless started with a live piece; P toggles the pause; other keys are ignored while paused; Left and Right move, Down turns right, Up turns left, Space drops, D steps down; the invariant is kept |
| Game.Board.TimerEvent | Tetris.py:211-220 | a waiting spawn clears the flag and happens now; otherwise the piece steps down; the invariant is kept |
| Game.Board.FallToLanding | Tetris.py:236-243 | the loop ends with the piece on its drop row; column, shape and everything else are unchanged |
| Game.Board.DropDown | Tetris.py:233-245 | the piece falls to its drop row and is dropped there |
| Game.Board.OneLineDown | Tetris.py:248-252 | the piece moves one row down if it fits there; otherwise it is dropped where it is |
| Game.Board.PlacePiece | Tetris.py:258-264 | the grid becomes the old grid with the piece's kind written into its four cells |
| Game.Board.PieceDropped | Tetris.py:255-269 | the piece is placed and full lines are removed; the next piece spawns unless a spawn now waits |
| Game.Board.CountFilled | Tetris.py:280-283 | the inner loop counts the occupied cells of row i |
| Game.Board.FullRowIndices | Tetris.py:275-286 | the counting loops return exactly the list of full rows, ascending |
| Game.Board.ShiftRowsDown | Tetris.py:293-295 | the nested loops perform one shift pass for row m |
| Game.Board.ShiftOutRows | Tetris.py:291-295 | the outer loop performs one shift pass per listed row, in list order |
| Game.Board.RemoveFullLines | Tetris.py:272-306 | the grid becomes the cleared grid and the count grows by the number of full rows; if any row was removed, the spawn waits, the piece becomes NoShape and the count is sent; otherwise nothing else changes |
| Game.Board.SpawnRow | Tetris.py:315 | row 21 plus the minY loop's result is the spawn row of the kind |
| Game.Board.NewPiece | Tetris.py:309-322 | a piece of the drawn kind at column 6 and its spawn row; if it does not fit, the piece becomes NoShape, the timer stops, the game ends and "Game over" is sent; the grid is untouched |
| Game.Board.TryMove | Tetris.py:326-345 | returns true iff all four cells are on the board and empty; on true the piece and position become the arguments, on false nothing changes; the grid never changes |
| Game.NewGame | Tetris.py:27-36 | a new board, started once, holds 440 empty cells, runs its timer, and has the first piece at its spawn position; it is in the state `Steps.FirstPieceIsLive` describes |

## Left out

- GUI: `paintEvent`, `drawSquare`, `squareWidth` and `squareHeight` (Tetris.py:96-105, 144-170, 348-356) are pixel arithmetic and painting. The main window's `initUI` geometry, `center`, and `center.py` are window set-up. None of these have game logic. What `initUI` does to the board is modelled by `Game.NewGame`.
- Qt timer: the 300 ms interval and the timer id are not modelled. The timer is the flag `timerRunning`, and only ticks of the board's own timer are modelled. The `else` branches that pass other timer events and unlisted keys to the Qt base class are framework fallbacks; for keys the model does nothing.
- `self.update()` repaint requests and `print` lines are output only.
- `random.randint`: the drawn kind is the parameter `next`, so the model covers every possible draw but not the distribution. `setRandomShape` draws a number and calls `setShape` with it; in the model that is `NewShape(next)`, and `FromCode` is the number-to-kind step.
- `Shape` objects: the piece is a value (`Shapes.Shape`), not an object updated in place. `setShape`'s copy loop, `setX` and `setY` become building a new value. The accessors `x(i)` and `y(i)` become `coords[i].x` and `coords[i].y`. The program never shares a `Shape` object between two places except through `curPiece` itself, so value semantics lose nothing. When the Square's rotation returns `self`, the model returns an equal value.
- Qt key codes become the enum `Steps.Key`: Left, Right, Down, Up, Space, P, D, and everything else.
- Before the first `newPiece`, the program's board has no `curPiece` attribute at all. The model starts with a NoShape piece at (0, 0). Nothing reads it before `start`.
- `start` is called once: `Start` states that it appends 220 empty cells to whatever is there. It does not claim to empty a grid that is not empty.
- The timer after a failed first spawn: if the first piece does not fit, `start` still starts the timer after `newPiece` has stopped it. The model keeps that order, so the board then has its timer running with `isStarted` false. `Valid()` therefore does not claim `timerRunning ==> isStarted`. `Game.NewGame` shows that on the board the program actually starts, the first piece always fits.
- `Grid.SpawnY` is written as a table of spawn rows per kind, and `Grid.SpawnYIsMin` proves it equals row 21 plus the least y offset. `Game.Board.NewPiece` computes the row through `Game.Board.SpawnRow`, which runs the `minY` loop.
- Game.Board.OneLineDown requires the piece's four cells to be on the board, which the program does not check. `Valid()` implies it for every caller: `Steps.TickKeepsInv` and `Steps.KeyPressKeepsInv` state it.
- Game.Board.DropDown requires the piece's four cells to be on the board, for the same reason as `OneLineDown`.
