# Falling-block puzzle engine, modelled in Dafny

This project models the game-state engine of a falling-block puzzle (a
Tetris-like game) and proves properties of it. The engine has two parts:

- **The board model** (`src/utils/gameUtils.ts`). It is a set of pure
  functions over a 20 x 10 grid of integers, with row 0 at the top. A cell
  holds 0 when empty or a colour tag from 1 to 7. The functions create an
  empty board, create a piece at its spawn position, test a piece for
  collision, merge a locked piece into the board, and clear full rows.
- **The engine** (`src/hooks/useGameLogic.ts`). This is a React hook. The
  model reads its handlers as pure transitions from `State` to `State`:
  move left and right, rotate, soft drop (which is also the timer tick),
  hard drop, start and pause. Each React state setter becomes a field update
  of the returned state.

Files:

- `game_types.dfy`, module `GameTypes`: the board dimensions, `Board`,
  `Shape`, `Position` and `Piece` (from `src/types/game.ts`).
- `game_utils.dfy`, module `GameUtils`: the board model and the piece factory.
- `board_lemmas.dfy`, module `BoardLemmas`: what clearing keeps and in which
  order, how many rows a single lock can fill, and how merge relates to
  collision.
- `game_logic.dfy`, module `GameLogic`: the engine state, the engine
  invariant `Valid`, scoring, spawning and every handler.
- `engine_lemmas.dfy`, module `EngineLemmas`: rotation round trips, the
  inactive and game-over guards, worked scoring and descent scenarios, where
  a hard drop lands on the empty board, and a concrete run showing that
  spawning checks the pre-lock board.

Modelling choices:

- **Randomness.** Each `Math.random()` call becomes a real number in [0, 1).
  A `Roll` carries the two draws one `createPiece` call makes. A `Draws`
  value carries the rolls for the (at most two) `createPiece` calls one
  transition makes. The model computes the shape index and the colour exactly
  as `Math.floor(u * n)` does.
- **Shapes.** The shape catalogue `src/utils/shapes` is not part of this
  model, so it is a parameter. A catalogue is a non-empty list of
  rectangular 0/1 matrices. Each has at least one occupied cell and is at
  most 4 x 4, as in the standard catalogue.
- **The engine invariant.** `Valid` says the following:
  - the board is 20 x 10 with cells in 0..7 and no full row;
  - every piece has a well-formed shape (0/1 cells, at most 4 x 4, with an
    occupied cell) and a colour in 1..7;
  - the waiting next piece sits at its spawn position: row 0, x = 5 - floor(width / 2);
  - a current piece implies a next piece;
  - game over implies there is no current piece;
  - the score is at least 0 and the level at least 1;
  - the drop interval equals the interval of the current level.

  The initial state satisfies `Valid`, and every transition preserves it
  (`GameLogic.Step`, `GameLogic.Run`). Moving sideways and rotating need
  only a 20 x 10 board (and a rectangular shape to turn), and they keep
  `Valid` whenever it held before. The lock, soft drop and hard drop require
  `Valid`, which every reachable state satisfies: the points lookup depends
  on the board having no full row before the lock.
- **At most four lines per lock.** The points table
  `[0,100,300,500,800][L]` is only defined for L <= 4. The model proves this
  bound instead of assuming it. The board before a lock has no full row, and
  a merge changes only the rows the shape covers. So a lock fills at most as
  many rows as the shape has, and a shape has at most 4
  (`BoardLemmas.LockClearsAtMostShapeRows`).

Source quirks modelled as written:

- The level candidate `floor(score / 1000) + 1` uses the score from before
  the current award.
- Score, level and drop interval change only when the lock cleared at least
  one row.
- `spawnPiece` tests the new piece against the board from before the lock.
  This is the board its closure captured. As a result, the new current piece
  may overlap the cells just locked, and the game goes on
  (`EngineLemmas.SpawnIgnoresLockedPiece`). Moves and rotation preserve "the
  current piece fits", but a spawn does not.
- `pauseGame` flips the pause flag in every state, including before the
  first start.

Further behaviour of the code that the model keeps:

- On a spawn collision the code sets the current piece to `null`: `spawnPiece`
  returns `null` (`useGameLogic.ts:29-31`), and `moveDown` stores that value
  (`useGameLogic.ts:91-92`).
- `pauseGame` toggles the flag even after game over (`useGameLogic.ts:139`);
  the other handlers still ignore input there.
- `startGame` performs no collision check (`useGameLogic.ts:127-136`);
  `BoardLemmas.SpawnFitsEmptyBoard` shows that none is needed, since a fresh
  piece always fits the empty board.

## Model

| member | source | states |
|---|---|---|
| GameUtils.CreateEmptyBoard | src/utils/gameUtils.ts:4-6 | The new board has 20 rows of 10 cells, every cell is 0, and so no row is full. |
| GameUtils.ScaledFloor | src/utils/gameUtils.ts:9-10 | `Math.floor(u * n)` for a draw u in [0, 1) is a valid index: at least 0 and below n. |
| GameUtils.CreatePiece | src/utils/gameUtils.ts:8-20 | The piece's shape comes from the catalogue and its colour is in 1..7. It spawns at y = 0 and x = 5 - floor(width / 2), its spawn position, which puts it entirely between the side walls. |
| GameUtils.CheckCollision | src/utils/gameUtils.ts:22-45 | The row-by-row scan with early return reports a collision exactly when some occupied shape cell lands at x < 0, x >= 10 or y >= 20, or on a non-zero board cell with y >= 0. Empty shape cells never matter. For cells above the top the board's contents never matter; only the side walls can block them. |
| GameUtils.MergePieceToBoard | src/utils/gameUtils.ts:47-64 | The result is a new 20 x 10 board. Every occupied shape cell inside the board gets the piece's colour. Cells outside the board are dropped. Every cell the piece does not cover keeps its old value. |
| GameUtils.Remaining | src/utils/gameUtils.ts:68-74 | The filter keeps no full row and never grows the list. |
| GameUtils.RemainingRowsComeFromInput | src/utils/gameUtils.ts:68-74 | Every row the filter keeps was a row of the input. |
| GameUtils.RemainingPartition | src/utils/gameUtils.ts:67-74 | Each row is either counted as cleared or kept: the count of full rows plus the number of kept rows equals the number of rows. |
| GameUtils.ClearLines | src/utils/gameUtils.ts:66-81 | The result has 20 rows of 10 cells. `linesCleared` is the number of full rows. The top `linesCleared` rows are empty, and below them come the kept rows. The result has no full row. |
| BoardLemmas.NonFullIndices | src/utils/gameUtils.ts:68-74 | Returns the indices of the non-full rows: each in range, strictly ascending, and none missing. |
| BoardLemmas.RemainingInOrder | src/utils/gameUtils.ts:68-74 | The filtered rows are, position by position, the rows at those ascending indices. |
| BoardLemmas.ClearLinesPreservesRowOrder | src/utils/gameUtils.ts:66-81 | Below the padding, row j of the cleared board is the j-th non-full row of the input, counting from the top. The padding plus the non-full rows make up 20 rows. |
| BoardLemmas.RemainingOfNoFullRow | src/utils/gameUtils.ts:68-74 | Rows with no full row pass the filter whole, and none is counted. |
| BoardLemmas.CountFullZero | src/utils/gameUtils.ts:68-74 | The cleared-line count is 0 exactly when no row is full. |
| BoardLemmas.RemainingAppend | src/utils/gameUtils.ts:68-74 | Filtering and counting work row by row: both distribute over concatenation. |
| BoardLemmas.RemainingOfAllFull | src/utils/gameUtils.ts:68-74 | Rows that are all full are all removed and all counted. |
| BoardLemmas.ClearLinesOfNoFullRow | src/utils/gameUtils.ts:66-81 | A board with no full row comes back unchanged with 0 lines cleared. |
| BoardLemmas.ClearLinesIdempotent | src/utils/gameUtils.ts:66-81 | Clearing an already cleared board changes nothing and clears 0 lines. |
| BoardLemmas.ClearLinesOfAllFull | src/utils/gameUtils.ts:66-81 | A board whose rows are all full clears to the empty board, with 20 lines cleared. |
| BoardLemmas.ClearOneFullRow | src/utils/gameUtils.ts:66-81 | Clearing a single full row k puts one empty row on top and moves the rows above k down by one. The rows below k stay where they were. |
| BoardLemmas.ClearLinesSplit | src/utils/gameUtils.ts:66-81 | The cleared board is exactly as many empty rows as there were full rows, followed by the kept rows. |
| BoardLemmas.RemainingSkipsOneFullRow | src/utils/gameUtils.ts:68-74 | One full row between two runs of non-full rows is the only row filtered out, and the only row counted. |
| BoardLemmas.ClearLinesKeepsCellRange | src/utils/gameUtils.ts:76-78 | Clearing keeps every cell in 0..7. |
| BoardLemmas.CountFullBound | src/utils/gameUtils.ts:68-74 | If every full row lies in [lo, hi), there are at most hi - lo of them. |
| BoardLemmas.LockClearsAtMostShapeRows | src/hooks/useGameLogic.ts:75-81 | Merging a piece into a board with no full row yields at most as many full rows as the shape has rows. So the points table is never read past index 4. |
| BoardLemmas.MergeKeepsCellRange | src/utils/gameUtils.ts:56-58 | Merging a piece with a colour in 1..7 keeps every cell in 0..7. |
| BoardLemmas.AboveTopNeverCollides | src/utils/gameUtils.ts:33-38 | A piece entirely above row 0 and between the side walls never collides, whatever the board holds. |
| BoardLemmas.AboveTopIgnoresBoard | src/utils/gameUtils.ts:33-38 | For a piece entirely above row 0, any two boards give the same collision verdict: only the side walls can block it. |
| BoardLemmas.UnoccupiedShapeNeverCollides | src/utils/gameUtils.ts:27-44 | A shape with no occupied cell never collides, at any position and on any board: every test sits behind the `if (piece.shape[y][x])` guard. |
| BoardLemmas.MergeThenCollides | src/utils/gameUtils.ts:47-64 | After a merge, the same piece at the same position collides with the merged board, provided one of its occupied cells lay inside the board. |
| BoardLemmas.FittingPieceCollidesOnceMerged | src/utils/gameUtils.ts:47-64 | A well-formed piece at row 0 or below that fits the board collides, at the same position, with the board it is merged into. |
| BoardLemmas.SpawnFitsEmptyBoard | src/utils/gameUtils.ts:12-19 | A freshly created piece never collides with the empty board. |
| BoardLemmas.FreeIsAboveBottom | src/utils/gameUtils.ts:36 | A piece with an occupied cell that does not collide sits above the bottom edge. This bounds every downward search. |
| GameLogic.Initial | src/hooks/useGameLogic.ts:16-23 | The hook's initial state satisfies the engine invariant, and no handler is active in it. |
| GameLogic.Points | src/hooks/useGameLogic.ts:81 | The table gives 0 points for 0 lines, and clearing more lines always scores strictly more. |
| GameLogic.Award | src/hooks/useGameLogic.ts:80-89 | With no line cleared, nothing changes. Otherwise the score grows by Points(L) x level. The level becomes max(level, floor(pre-award score / 1000) + 1). The drop interval is recomputed only when the level rises. Score and level never decrease. |
| GameLogic.Incoming | src/hooks/useGameLogic.ts:26 | The waiting next piece if there is one; otherwise a fresh catalogue piece at its spawn position. Either way the piece is well-formed. |
| GameLogic.Spawn | src/hooks/useGameLogic.ts:25-35 | The next piece (or a fresh one if there is none) becomes current unless it collides at its own position. On a collision the game is over and there is no current piece. A fresh catalogue piece, at its spawn position, is always drawn as the new next piece. When the waiting piece was at its spawn position, so is the new current piece. |
| GameLogic.MoveLeft | src/hooks/useGameLogic.ts:37-48 | The state changes exactly when the game is active and the cell one column left is free. When it changes, only the piece's x changes, by -1. Only a 20 x 10 board is required; the move preserves the invariant and "the piece fits". |
| GameLogic.MoveRight | src/hooks/useGameLogic.ts:50-61 | As MoveLeft, with x + 1. |
| GameLogic.RotateShape | src/hooks/useGameLogic.ts:100-102 | Turning an R x C matrix gives a rectangular C x R matrix. |
| GameLogic.RotateKeepsWellFormed | src/hooks/useGameLogic.ts:100-104 | A quarter turn keeps some cell occupied, so a turned well-formed shape is again a 0/1 shape of at most 4 x 4 with an occupied cell. |
| GameLogic.Rotate | src/hooks/useGameLogic.ts:97-109 | When the turned piece fits at the unchanged position, it replaces the current piece. Otherwise, or when the game is inactive, nothing changes. The invariant and "the piece fits" are preserved. |
| GameLogic.Lock | src/hooks/useGameLogic.ts:74-94 | The board becomes clearLines(merge(board, piece)). At most |shape| lines are cleared. Score, level and interval follow the award rule, and none of them changes when L = 0. Game over is set exactly when the incoming piece collides with the pre-lock board. The new current and next pieces sit at their spawn positions. The invariant is preserved. |
| GameLogic.MoveDown | src/hooks/useGameLogic.ts:63-95 | When the game is active and the row below is free, only y changes (by +1) and the result is true. When blocked, the state becomes the lock of the piece and the result is false. When inactive, nothing changes and the result is false. |
| GameLogic.BlockedPieceLocks | src/hooks/useGameLogic.ts:63-95 | A soft drop of a piece whose row below is blocked is exactly its lock, and reports false. |
| GameLogic.LandingRow | src/hooks/useGameLogic.ts:114-118 | For a shape with an occupied cell, the search terminates. It stops at or below the start row, at a row where one row further down collides, and every row it passed through is free. |
| GameLogic.Landed | src/hooks/useGameLogic.ts:111-120 | Before the lock, hard drop changes only the piece's y. The y never decreases, and one row lower the piece would collide. |
| GameLogic.Drop | src/hooks/useGameLogic.ts:111-125 | When inactive, nothing changes. Otherwise hard drop is the lock of the landed state, and it preserves the invariant. |
| GameLogic.StartGame | src/hooks/useGameLogic.ts:127-136 | Whatever the prior state, the result is an active game on an empty board. Score is 0, level 1, interval 1000, and there are a current and a next piece, both at their spawn positions. The current piece fits the board. |
| GameLogic.PauseGame | src/hooks/useGameLogic.ts:138-140 | Only the pause flag changes, and it always flips. The invariant is preserved. |
| GameLogic.Step | src/hooks/useGameLogic.ts:37-140 | Every handler preserves the engine invariant. Every handler except start never lowers the score or the level and never raises the drop interval. |
| GameLogic.Run | src/hooks/useGameLogic.ts:37-140 | Over any sequence of actions the invariant holds. Without a start, the score and level never go down and the interval never goes up. |
| EngineLemmas.RotateHalfTurn | src/hooks/useGameLogic.ts:100-102 | Two quarter turns read the matrix backwards in both directions. |
| EngineLemmas.RotateFourTimes | src/hooks/useGameLogic.ts:100-102 | Four quarter turns give back the original shape. |
| EngineLemmas.SpawnedPiecesStartAtTop | src/utils/gameUtils.ts:15-18 | Every piece a lock or a start makes current starts on row 0 at x = 5 - floor(width / 2), entirely between the side walls, because the waiting piece only ever comes from createPiece. |
| EngineLemmas.PauseTwiceRestores | src/hooks/useGameLogic.ts:138-140 | Pausing twice restores the state. |
| EngineLemmas.InactiveIsNoOp | src/hooks/useGameLogic.ts:38-112 | While paused, after game over, or with no current piece, every move, rotate and drop leaves the state unchanged, and moveDown reports false. |
| EngineLemmas.GameOverIsFinal | src/hooks/useGameLogic.ts:29-31 | After game over, only start leaves it. Only pause changes anything, and then only the flag. |
| EngineLemmas.SpeedBoundedAndMonotone | src/hooks/useGameLogic.ts:87 | The drop interval is at least 100 ms and never grows as the level rises. |
| EngineLemmas.ScoringScenarios | src/hooks/useGameLogic.ts:80-89 | Two lines from score 0 give 300 at level 1. From score 950, one line gives 1050 but still level 1. Only the next clear, from a pre-award 1050, reaches level 2 with interval 900. |
| EngineLemmas.EmptyBoardFree | src/utils/gameUtils.ts:22-45 | On the empty board, a piece between the side walls is free exactly when its lowest occupied shape row lies on the board (row below 20). |
| EngineLemmas.HardDropOnEmptyBoard | src/hooks/useGameLogic.ts:111-118 | On the empty board, hard drop from any free row lands a piece so that its lowest occupied row sits on row 19, whatever its empty bottom rows. |
| EngineLemmas.SquareFreeOnEmptyBoard | src/utils/gameUtils.ts:22-45 | On the empty board, a 2 x 2 block at column 4 is free exactly on rows up to 18. |
| EngineLemmas.SquareSoftDrop | src/hooks/useGameLogic.ts:66-73 | A soft drop of that block moves it while it is on rows 0..17, and locks it on row 18. |
| EngineLemmas.SpawnIgnoresLockedPiece | src/hooks/useGameLogic.ts:74-92 | Suppose a fitting piece locks while some column stays empty, so no row is cleared, and the waiting piece is the same piece. Then the spawn puts it onto the cells just filled. The game does not end, and the new current piece overlaps the board, because the spawn test reads the pre-lock board. |
| EngineLemmas.TowerGameOverlapsOnSpawn | src/hooks/useGameLogic.ts:74-92 | A concrete running game (a 2 x 2 block resting on a tower, the same block waiting, column 0 empty) meets every premise of SpawnIgnoresLockedPiece, so the overlap does occur. |

## Left out

- Rendering and UI (`src/components/*`, `src/App.tsx`): these are presentation only. The key filter in `CryptoTetris.tsx` repeats the hook's own guards.
- The `setInterval` tick and the key listeners (`useGameLogic.ts:142-161`) are React timing plumbing. The timer tick is the `Down` action.
- The 50 ms `setTimeout` in `drop`: hard drop locks synchronously. Its callback captures a stale `moveDown` closure; that behaviour is not modelled.
- The distribution of `Math.random` and the floating-point rounding of `Math.random() * n`: draws are exact reals in [0, 1).
- The shape catalogue `src/utils/shapes` is not part of this model. Any catalogue of well-formed shapes of at most 4 x 4 is allowed.
- `useState` batching and render scheduling. Only two of their effects are modelled: the pre-award score in the level rule and the pre-lock board in the spawn test.
- Scoring with more than four lines in one lock (the table lookup would give `undefined`): this cannot happen under the engine invariant with shapes of at most four rows.
- JavaScript number limits: the score is an unbounded integer.
- Jagged shapes, and shapes with no row or no column. For `[]`, createPiece and rotate throw a TypeError because `shape[0]` is undefined (`gameUtils.ts:16`, `useGameLogic.ts:100`). rotate takes its width from `shape[0]`: a later row shorter than it gives `undefined` cells, which checkCollision (`gameUtils.ts:29`) and merge (`gameUtils.ts:52`) treat as empty; a later row longer than it loses its extra cells. A shape with no column, such as `[[]]`, has no occupied cell, so the `GameLogic.LandingRow` line below applies to it. The model admits only rectangular shapes.
- GameLogic.LandingRow: a shape with no occupied cell never collides (`BoardLemmas.UnoccupiedShapeNeverCollides`), so the source's hard-drop loop (`useGameLogic.ts:116-118`) would run forever and soft drop would never lock. The model excludes such shapes through `HasOccupiedCell`, which every well-formed shape has.
