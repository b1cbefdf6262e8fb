# Tetris game engine in Dafny

This project models the game-state engine of the browser Tetris in `tetris.js`, which is its
single `Tetris` class. The engine covers:

- a 20 x 10 board of integer cells (0 empty, 1..7 a colour id);
- the seven-piece catalog and the one-piece look-ahead;
- the collision test, moves, clockwise rotation with five wall kicks, and hard drop;
- committing a piece into the board, clearing full rows, and score, level and drop speed;
- the start / pause / restart / game-over controls and the key handler.

The model has two layers:

- `pieces.dfy`, `board.dfy`, `rotation.dfy`, `scoring.dfy` and `engine.dfy` define the pure
  part. They hold the shapes and the catalog, the board operations, rotation, and scoring.
  `Engine` defines one transition function per operation over a `Session` value (board,
  falling piece, next piece, counters, running and paused flags), plus the invariant every
  transition keeps. That invariant is:
  - the board is 20 x 10 and has no full row;
  - both pieces are well formed;
  - the falling piece is inside the walls and above the floor;
  - level and drop interval agree with the number of cleared rows.
- `game.dfy` is the imperative layer. It holds class `Game.Tetris` with the fields the source
  updates in place and one method per source method, written with the source's loops. Each
  method is proved to perform exactly the matching `Engine` transition
  (`State() == Engine.X(old(State()), ...)`). It also keeps the invariant.

The random draw in `createPiece` is a parameter `k: TemplateIndex` (0..6) of every operation
that draws. The constructor draws three times; the first draw fills the empty look-ahead slot.
`restartGame` draws twice.

The model follows the code in these places, where a reader might expect otherwise:

- `startGame` only checks that the game is not running, so after a game over it resumes the
  same session. Game over is not terminal.
- `pauseGame` toggles without looking at the state. The key handler ignores every key while
  paused, so the P key can pause but cannot resume.
- `gameOver` only clears the running flag.
- `restartGame` throws away the look-ahead piece and draws two fresh ones.

## Model

| member | source | states |
|---|---|---|
| Pieces.CreatePiece | tetris.js:139-147 | a fresh piece of catalog entry k sits at (0, 0); it is square with side 4 for I, 2 for O and 3 for the rest, has exactly four occupied cells, has colour k + 1, and every occupied cell holds that colour |
| Board.IsCollision | tetris.js:149-165 | the source's scan over the shape's rows and cells with early exit; what it decides is stated by Board.CollisionIff |
| Board.CollisionIff | tetris.js:149-165 | the collision test holds iff some occupied shape cell, moved by (dx, dy), lands in a column outside 0..9, in a row at or below 20, or on a non-empty board cell in a row at or above 0; cells above the board never meet board contents |
| Board.EmptyBoardCollision | tetris.js:149-165 | on an empty board a pose collides exactly when it leaves the walls or the floor |
| Board.FitsInBounds | tetris.js:149-165 | a pose that does not collide is inside the walls and above the floor |
| Board.Stamp | tetris.js:167-178 | the committed board: the piece's colour in every on-board cell under an occupied shape cell, every other cell as before; the contract keeps 20 rows of 10 cells |
| Board.StampedPoseCollides | tetris.js:167-178 | once a piece is committed, its own pose collides with the new board whenever one of its cells is on the board |
| Board.StampFillsAtMostFour | tetris.js:167-192 | committing a piece of side at most 4 onto a board with no full row leaves at most four full rows, so the points table is never indexed past 4 |
| Board.FindCompletedLines | tetris.js:185-192 | the scan from the bottom row up lists exactly the full rows, each once, in strictly decreasing index order |
| Board.KeepRows | tetris.js:206-210 | the rows that are not full, in board order; never more rows than the board |
| Board.Cleared | tetris.js:206-210 | the board after a clear: one empty row on top per full row, then the kept rows; it has as many rows as the board |
| Board.KeepRowsExact | tetris.js:206-210 | the surviving rows are rows of the board that are not full, every non-full row survives, and survivors plus full rows make up the whole board |
| Board.KeepRowsAppend | tetris.js:206-210 | clearing works row by row over stacked boards, so surviving rows keep their relative order and the full rows are counted once each |
| Board.RemoveRowStep | tetris.js:207-210 | one splice of the next listed row, followed by an empty row put on top, keeps every index still to be removed valid and advances the removal by one row |
| Board.RemovalDone | tetris.js:206-210 | after the loop, the board is every non-full row in order under one empty row per removed row, and the list length is the number of full rows |
| Board.SpliceRow | tetris.js:208-209 | one pass of the timer's loop: the spliced row is gone, an empty row is on top, the rows above it move one down and the rows below it stay |
| Board.TimerRemoval | tetris.js:207-210 | the timer's loop as written on the list it captured, keeping 20 rows; it is the same loop whether or not the list is still current |
| Board.StaleTimerRemovesKeptRow | tetris.js:184-223 | with a full bottom row and one block above it, a second timer holding the same list removes the row that dropped into place, which is not full, so the board is no longer the cleared board |
| Board.ClearNothingFull | tetris.js:194 | with no full row, clearing finds nothing and leaves the board as it is |
| Board.ClearedShape | tetris.js:206-210 | the cleared board is still 20 rows of 10 cells and has no full row |
| Board.ClearedIdempotent | tetris.js:184-223 | clearing a cleared board changes nothing |
| Board.EmptyBoardShape | tetris.js:104-112 | the initial board is 20 rows of 10 cells and has no full row |
| Rotation.RotateMatrix | tetris.js:305-315 | rotating an n x n matrix gives an n x n matrix |
| Rotation.RotateMovesCell | tetris.js:305-315 | rotation moves cell (i, j) to (j, n - 1 - i), so out[i][j] = in[n-1-j][i] |
| Rotation.RotateTwice | tetris.js:305-315 | two rotations turn the matrix half way: cell (i, j) comes from (n-1-i, n-1-j) |
| Rotation.RotateFourTimes | tetris.js:305-315 | rotation has order 4: four rotations give back the original matrix |
| Rotation.RotatePreservesWellFormed | tetris.js:278-281 | a rotated piece keeps its side and colour and still has an occupied cell |
| Rotation.FirstFit | tetris.js:283-296 | the chosen offset is the first of the list at which the piece does not collide: it fits and every earlier one collides; no offset is chosen only when all of them collide |
| Scoring.LinePoints | tetris.js:214 | the table pays nothing for zero rows and strictly more for each extra row cleared at once |
| Scoring.DropIntervalFor | tetris.js:216 | the drop interval is between 50 and 1000 ms from level 1 on |
| Scoring.PayoutBounds | tetris.js:214 | a clear of one to four rows pays between 40 and 1200 times the level, and never less at a higher level |
| Scoring.LevelFor | tetris.js:215 | the level for a number of cleared rows, one level per ten rows from 1; never below 1 |
| Scoring.LevelBands | tetris.js:215 | level k + 1 is reached for exactly 10k to 10k + 9 cleared rows |
| Scoring.DifficultyMonotone | tetris.js:215-216 | more cleared rows never lower the level or lengthen the interval, and the interval is at its 50 ms floor exactly from level 20 on |
| Scoring.AfterClear | tetris.js:194-216 | the counters after n rows are cleared at once; nothing changes for n = 0; score and line count never go down |
| Scoring.AfterClearSpec | tetris.js:212-216 | clearing n rows adds n lines and pays the table entry times the level before the update, then level and interval follow the new line count; four rows pay 1200 at level 1 and 3600 at level 3 |
| Engine.Invariant | tetris.js:12-25 | what every operation keeps: a 20 x 10 board with no full row, well-formed current and next pieces, the current one inside the walls and above the floor, level and interval agreeing with the line count |
| Engine.Spawn | tetris.js:122-137 | the next piece falls from the spawn pose, entry k becomes the next piece, the game stops if the spawn pose collides; board, counters and pause flag are untouched and a stopped game stays stopped |
| Engine.Moved | tetris.js:317-324 | the piece shifted by (dx, dy) when that pose is free, else the same session; only the piece's position can change |
| Engine.Rotated | tetris.js:278-303 | the piece rotated and moved by the first fitting offset, or the same session when none fits; only the piece's shape and position can change |
| Engine.Placed | tetris.js:167-182 | commit, clear, pay and spawn; the pause flag is untouched, a stopped game stays stopped, and score and line count never go down |
| Engine.HardDropped | tetris.js:326-332 | fall the drop distance at 2 points per row, then place; the pause flag is untouched, a stopped game stays stopped, the score never goes down |
| Engine.KeyPress | tetris.js:334-371 | the guarded key dispatch; no key starts a game, only P changes the pause flag, and the score never goes down |
| Engine.Tick | tetris.js:464-475 | move down one row or place; the pause flag is untouched, a stopped game stays stopped, the score never goes down |
| Engine.Started | tetris.js:383-389 | the session runs afterwards, and only the running and paused flags can change |
| Engine.Paused | tetris.js:391-393 | the pause flag flips and nothing else changes |
| Engine.Ended | tetris.js:410-414 | the game is stopped and nothing else changes |
| Engine.Initial | tetris.js:2-102 | the session of a new game object: empty board, initial counters, stopped and unpaused, entry k2 next |
| Engine.Restarted | tetris.js:395-408 | the session after a restart: empty board, initial counters, stopped and unpaused, entry k2 next |
| Engine.SpawnPoseInBounds | tetris.js:127-129 | a spawned piece is on row 0 at column 5 - side/2 (3 for I, 4 otherwise), inside the walls and above the floor |
| Engine.SpawnOnEmptyBoardFits | tetris.js:127-136 | on an empty board a spawned piece never collides, so a new game never ends at its first spawn |
| Engine.SpawnSpec | tetris.js:122-137 | a spawn promotes the next piece to the spawn pose, makes the drawn entry the next piece, keeps the invariant, and stops a running game exactly when the spawn pose collides |
| Engine.MoveSpec | tetris.js:317-324 | a move keeps the invariant, and a successful move from a legal pose is undone by the opposite move |
| Engine.RotateSpec | tetris.js:278-303 | rotation keeps the invariant; when some offset fits, the piece has the rotated shape at a legal pose, moved by the first fitting offset of (0,0), (-1,0), (1,0), (0,-1), (-2,0), (2,0); otherwise the session is unchanged |
| Engine.PlaceSpec | tetris.js:167-182 | a placement keeps the invariant, clears at most four rows, leaves the committed board with its full rows cleared, adds the rows and pays for them at the old level, and spawns the next piece |
| Engine.DropDistance | tetris.js:326-329 | the piece can fall exactly this many rows: every row down to it is free, one more collides, and the landing pose is in bounds |
| Engine.HardDropSpec | tetris.js:326-332 | a hard drop lands where one more row down collides after every row above was free, and adds 2 points per row fallen on top of what the placement pays |
| Engine.KeyPressSpec | tetris.js:334-371 | a key keeps the invariant; every key is ignored while stopped or paused (so P cannot resume); a soft drop pays 1 point exactly when the piece moves; P pauses a running game |
| Engine.TickSpec | tetris.js:464-475 | a tick keeps the invariant; when the piece cannot fall it is exactly the placement, ending with the next piece at the spawn pose; otherwise the piece moves one row down over the same board |
| Engine.RestartIsInitial | tetris.js:395-408 | a restart produces the same session as a new game: empty board, zero counters, level 1, 1000 ms, stopped, the first draw falling from the spawn pose and the second next |
| Engine.GameOverBlocksInput | tetris.js:134-136 | a spawn whose pose collides stops the game, and every key is ignored afterwards |
| Engine.ControlSpec | tetris.js:383-414 | start, pause and game over keep the invariant; start does nothing on a running game and runs a stopped one unpaused; two pauses cancel out |
| Game.Tetris.constructor | tetris.js:2-102 | a new game object holds the initial session of three draws and satisfies the invariant |
| Game.Tetris.InitBoard | tetris.js:104-112 | the nested loops build the empty 20 x 10 board |
| Game.Tetris.GenerateNewPiece | tetris.js:122-137 | the fields become the spawn transition of the drawn entry |
| Game.Tetris.MovePiece | tetris.js:317-324 | returns true exactly when the shifted pose does not collide, and the fields become the move transition |
| Game.Tetris.RotatePiece | tetris.js:278-303 | the kick loop returns true exactly when some offset fits, and the fields become the rotation transition, with the original shape restored on failure |
| Game.Tetris.ClearLines | tetris.js:184-223 | the board becomes the cleared board and the counters are updated for the number of full rows, unchanged when there are none |
| Game.Tetris.RemoveCompletedLines | tetris.js:202-221 | removing the listed rows and updating the counters gives the cleared board and the counters after that many rows |
| Game.Tetris.RemoveRows | tetris.js:206-210 | the splice-and-unshift loop turns the board into the cleared board, and the list has one entry per full row |
| Game.Tetris.AddClearedLines | tetris.js:212-216 | the counters become those after clearing n rows at once |
| Game.Tetris.PlacePiece | tetris.js:167-182 | commit, clear lines and spawn: the method performs the placement transition and keeps the invariant |
| Game.Tetris.CommitPiece | tetris.js:168-178 | the nested commit loop writes the piece's colour into exactly the covered cells on the board, leaving the board equal to the committed board |
| Game.Tetris.HardDrop | tetris.js:326-332 | fall, then place: the fields become the hard-drop transition and the invariant is kept |
| Game.Tetris.DropToFloor | tetris.js:327-329 | the loop of moves down stops after exactly the drop distance, with 2 points per row fallen, and leaves the piece in bounds |
| Game.Tetris.HandleKeyPress | tetris.js:334-371 | the fields become the key-press transition and the invariant is kept |
| Game.Tetris.StartGame | tetris.js:383-389 | the flags become the start transition |
| Game.Tetris.PauseGame | tetris.js:391-393 | the pause flag toggles |
| Game.Tetris.RestartGame | tetris.js:395-408 | the fields become the restart transition, which is the initial session, and the invariant is kept |
| Game.Tetris.GameOver | tetris.js:410-414 | only the running flag is cleared |
| Game.Tetris.Update | tetris.js:464-475 | the fields become the tick transition and the invariant is kept |

## Left out

- Rendering is not modelled: the canvas drawing, the grid, the next-piece preview, the colour table and the display updates (`draw*`, `updateDisplay`, `showScoreIncrease`, `showGameOverModal`). They are presentation only.
- The line-clear flash animation and particles (`showLineClearAnimation`, `createLineClearParticles`, `animationBoard`) are not modelled. They never write the real board.
- Sound (`initAudio`, `playSound`, `play*Sound`) is not modelled. It is a foreign API working in floating point.
- DOM event wiring (`initEvents`) and the canvas lookups in the constructor are left out as I/O. The key handler takes a `Key` value, and every key code other than the six it handles becomes `Other`.
- The clock is left out: `gameLoop`, `requestAnimationFrame`, `Date.now()` and `dropTime`. `Update` is the step taken once the drop interval has passed. `dropInterval` is kept as a counter and never read.
- `Math.random` is replaced by a template index parameter. The distribution is not modelled.
- Game.Tetris.ClearLines: the source removes the rows and updates the counters inside a 600 ms `setTimeout`, and spawns the next piece at once against the board that still has its full rows. The model clears synchronously, before the spawn, and does not model what the timer's delay allows. A piece placed within those 600 ms scans the uncleared board again and lists the same full rows. Its own timer then splices those indices after the first timer has already shifted the board, deleting rows that are not full (Board.StaleTimerRemovesKeptRow). It also pays for the same rows again. When more than four rows end up listed, the points table is indexed past its end, and the score becomes `NaN`. A piece may also fall into the space of rows that are about to drop. The invariant's "no full row" and the "at most four rows" bound of Board.StampFillsAtMostFour therefore hold of the synchronous model only.
- Pieces are values, so there is no aliasing between the falling piece and the look-ahead piece. In the source they never share a shape matrix either: every piece is a deep copy. For the same reason "rotation does not mutate its input" holds by construction and has no lemma.
- The constructor starts with a null look-ahead piece. The model fills the empty slot with the first draw; the falling piece's placeholder value is overwritten before anything reads it.

## Findings

| source | as written | input that shows it | evidently intended | confidence | as-written member | corrected member |
|---|---|---|---|---|---|---|
| tetris.js:184-223 | the rows to remove are captured when a piece is placed and spliced 600 ms later, while the next piece already plays on the uncleared board | a full bottom row with one block above it, and a second piece placed before the first timer fires: the second timer removes the row holding that block | every full row removed exactly once and paid for once, with the remaining rows kept in order | high; not executed | Board.StaleTimerRemovesKeptRow | Game.Tetris.ClearLines |
