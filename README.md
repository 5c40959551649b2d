# 2048 — the board engine

This project models the game logic of a browser 2048 game. The game keeps
four pieces of state:

- a 4x4 `board` of numbers, where 0 is an empty cell and every other
  value is a power of two;
- the running `score`;
- a `hasWon` flag, raised the first time a merge produces 2048;
- a `gameOver` flag.

Four operations change that state:

- `initGame` resets the state and drops two tiles on the empty board.
- `addNewTile` lists the empty cells in row-major order. It puts a 2, or
  occasionally a 4, into one of them chosen at random. A full board is
  left alone.
- `move(direction)` does nothing once the game is over. Otherwise it
  slides every row (Left/Right) or every column (Up/Down):
  1. The line's non-empty cells are collected.
  2. Equal neighbours are merged once per move. For Left/Up the scan runs
     from the start; for Right/Down it runs from the end.
  3. Each merge adds the merged value to the score, and may raise
     `hasWon`.
  4. The line is padded back to four cells.
  5. The board is committed only if some cell changed. In that case a
     tile is spawned and the game-over test is run.
- `isGameOver` holds when no cell is empty and no two horizontally or
  vertically adjacent cells are equal.

The model has three modules:

- `Line` holds the reference definitions for one line. `Compress` drops the empty
  cells. `Merge`, `Gain` and `ReachesGoal` describe the forward merge
  scan. `MergeBack`, `GainBack` and `ReachesGoalBack` describe the
  backward scan as the code writes it: splice at `c - 1`, then a second
  `c--`. `Slide` is a whole line move.
- `Grid` lifts these to the board:
  - `SlideGrid` is the board after a move;
  - `MoveGain` is the points a move scores;
  - `MoveReachesGoal` says whether a move reaches 2048;
  - `EmptyCells` lists the empty cells in the code's scan order;
  - `Spawn` is the spawn step;
  - `IsGameOver` is the end-of-game test.
- `Game` is the imperative game:
  - a class `Game` with the four state fields and its methods;
  - the loops of `move`, `addNewTile` and `isGameOver`, each proved
    against the `Line`/`Grid` functions above.

The two random choices of a spawn are parameters:

- `pick` selects the empty cell. The index used is `pick % |EmptyCells|`,
  which stands for `Math.floor(Math.random() * emptyCells.length)`.
- `four` selects a 4 instead of a 2.

## Model

| member | source | states |
|---|---|---|
| Game.Game.Move | script.js:103-269 | A move is refused, with nothing changed, once the game is over. Otherwise it reports a move exactly when the slid board differs from the old one. With no move, board, score and flags stay as they were. With a move, the board becomes the slid board plus one spawned tile, the score grows by the move's gain, `hasWon` records whether 2048 was reached, and `gameOver` is the game-over test of the new board. The invariant is kept, the score never decreases and both flags are sticky. |
| Game.Game.SlideRows | script.js:110-176 | The Left/Right branch produces exactly `SlideGrid(before, d)`. `moved` is true exactly when some row changed. The score grows by `MoveGain`, and `hasWon` becomes old `hasWon` or "some merge reached 2048". |
| Game.Game.SlideColumns | script.js:177-252 | The same as SlideRows for the Up/Down branch, which collects each column and writes it back cell by cell. |
| Game.Game.SlideRowAt | script.js:111-141 | One row iteration of the Left/Right branch. The new row is row r of the slid board, and the running score and win flag advance by row r's gain and goal test. |
| Game.Game.SlideColumnAt | script.js:178-205 | One column iteration of the Up/Down branch. The new column is column c of the slid board, and the running score and win flag advance by column c's gain and goal test. |
| Game.Game.SlideColumnStep | script.js:178-212 | One column iteration including the write-back. Afterwards the first c+1 columns of the work board are the slid ones and the rest are the old ones. `moved` is true exactly when one of those first c+1 columns changed. |
| Game.Game.MergeForward | script.js:115-127 | The Left/Up merge scan returns `Merge(line)`. Equal neighbours merge once, and the merged tile is not compared again. The score grows by `Gain(line)`, and `hasWon` is set when some merge produces 2048. |
| Game.Game.MergeBackward | script.js:148-161 | The Right/Down merge scan, with its splice at c-1 and its extra decrement, returns `MergeBack(line)`. The score grows by `GainBack(line)`, and `hasWon` follows `ReachesGoalBack(line)`. |
| Game.Game.MergeAndPad | script.js:115-132 | The merge and padding of a compressed line give `Slide(line, towardStart)`. Zeros go at the end for Left/Up and at the start for Right/Down. Score and win flag change as the forward or backward scan specifies. |
| Game.FilterNonZero | script.js:112 | `row.filter(val => val !== 0)` keeps exactly the non-empty cells, in order (`Compress`). |
| Game.CollectColumn | script.js:179-184 | Collecting column c gives exactly its non-empty cells from top to bottom. |
| Game.PadEnd | script.js:130-132 | `push(0)` until four long gives the line followed by 4-|line| zeros. |
| Game.PadStart | script.js:164-166 | `unshift(0)` until four long gives 4-|line| zeros followed by the line. |
| Game.CompareLine | script.js:135-139 | The cell-by-cell comparison sets `moved` exactly when it was already set or the two lines differ. |
| Game.StoreColumn | script.js:207-212 | Writing a column back replaces column c and leaves the other columns as they were. `moved` is set exactly when it was already set or the old column differs from the new one. |
| Game.Game.AddNewTile | script.js:59-74 | The board becomes `Spawn(old board, pick, four)`: the chosen empty cell gets 2 or 4, and a full board is unchanged. The invariant, including "only tiles on the board", is kept. |
| Game.CollectEmptyCells | script.js:60-68 | The nested scan collects exactly `EmptyCells(board)`, in row-major order. |
| Game.Game.CheckGameOver | script.js:272-300 | The two scans, first for an empty cell and then for an equal right or lower neighbour, return exactly `IsGameOver(board)`. |
| Game.Game.InitGame | script.js:23-45 | After a reset the score is 0 and both flags are cleared. The board is the empty board with two spawns applied, and the invariant holds. |
| Game.Game.Reset | script.js:25-28 | The board becomes the empty board, the score 0 and both flags false, and the invariant holds. |
| Game.Game.AddStartTiles | script.js:40-41 | Two spawns in a row give the board spawned twice, and the invariant is kept. |
| Game.Game.constructor | script.js:13-17 | A new session starts like `initGame`: score 0, both flags false, and two spawned tiles. |
| Game.ScanForwardStep | script.js:116-126 | One step of the forward scan preserves `done ++ Merge(rest)`, accounts for the gain of the merge it performs, and accounts for its 2048 test. |
| Game.Game.MergeBackwardAt | script.js:149-160 | One iteration of the backward scan keeps `MergeBack` of the unscanned prefix plus the scanned suffix equal to that of the line it started from. The score and win flag advance by exactly the gain and goal test that this iteration accounts for. |
| Game.ScanBackwardStep | script.js:149-160 | One step of the backward scan, splice and double decrement included, preserves `MergeBack(rest) ++ done`, together with its gain and its 2048 test. |
| Line.Compress | script.js:112 | Compression never lengthens a line and leaves no empty cell. |
| Line.Merge | script.js:115-127 | A merge pass never lengthens a line and at most halves it. |
| Line.MergeBack | script.js:148-161 | The backward merge scan never lengthens a line and at most halves it. |
| Line.Gain | script.js:117-118 | On a line without negative cells, the points the forward scan scores are at least 0 and at most the line's sum. |
| Line.ReachesGoal | script.js:121-124 | If the forward scan raises the win flag, a 2048 tile is in the merged line. |
| Line.GainBack | script.js:150-151 | On a line without negative cells, the points the backward scan scores are at least 0 and at most the line's sum. |
| Line.ReachesGoalBack | script.js:155-159 | If the backward scan raises the win flag, a 2048 tile is in the merged line. |
| Line.Slide | script.js:110-176 | A line move gives back a line of the same length. |
| Line.SlideGainBounds | script.js:117-118 | On tiles, the points a line move scores are at least 0 and at most the line's sum. |
| Line.GoalInSlide | script.js:121-124 | If a line move raises the win flag, the moved line holds a 2048 tile. |
| Line.FullSlideIsFixed | script.js:135-139 | If a line move leaves no empty cell, the line did not change. |
| Line.CompressSum | script.js:112 | Dropping empty cells keeps the sum of the line. |
| Line.CompressReverse | script.js:145 | Compressing a reversed line is the reverse of compressing it. |
| Line.MergeSum | script.js:115-127 | A merge pass conserves the total of the tile values. |
| Line.MergeTiles | script.js:115-127 | Merging powers of two yields powers of two. |
| Line.GainIffMerged | script.js:115-127 | On tiles, the score grows exactly when at least one merge happened, meaning the line got shorter. |
| Line.MergeFixedIff | script.js:115-127 | A merge pass leaves a line unchanged if and only if the line has no equal neighbours. |
| Line.MergeBackMirrors | script.js:148-161 | The backward splice-and-decrement scan is exactly the forward scan on the reversed line, reversed again. Pairs are formed from the end of the line. |
| Line.GainBackMirrors | script.js:148-161 | The backward scan scores what the forward scan scores on the reversed line. |
| Line.GoalBackMirrors | script.js:148-161 | The backward scan reaches 2048 exactly when the forward scan does on the reversed line. |
| Line.BackwardSlide | script.js:143-176 | Filter, backward merge and front padding give `Slide(line, false)`, with the same gain and goal test. |
| Line.SlideSum | script.js:110-176 | A line move conserves the line's sum. |
| Line.SlideTiles | script.js:110-176 | A line move keeps every cell empty or a power of two. |
| Line.SlidePacked | script.js:110-176 | After a line move all tiles are packed against the side moved to. |
| Line.UnchangedSlideMergesNothing | script.js:135-139 | If a line move leaves the line unchanged, it scored nothing and did not reach 2048. |
| Line.FullLineIsFixed | script.js:110-176 | A full line with no equal neighbours does not move in either direction. |
| Line.LeftExample | script.js:115-127 | [2,2,2,2] moved left is [4,4,0,0] and scores 8, because each tile merges at most once per move. |
| Line.MergeOnceExample | script.js:115-127 | A second merge pass over a move's output can merge again: [4,4] becomes [8]. |
| Line.RightExample | script.js:148-166 | [2,2,2,2] moved right is [0,0,4,4]. |
| Line.RightGapExample | script.js:145-166 | [0,2,0,2] moved right is [0,0,0,4]. |
| Grid.SlideGrid | script.js:110-252 | The board after a move is again a 4x4 board. |
| Grid.SlideGridLines | script.js:110-252 | Every row (Left/Right) or column (Up/Down) of the moved board is the line move of the old line. |
| Grid.SlideGridTotal | script.js:110-252 | A move conserves the total of the tile values on the board. |
| Grid.SlideGridTiles | script.js:110-252 | A move keeps every cell empty or a power of two. |
| Grid.SlideGridPacked | script.js:110-252 | After a move every line is packed toward the direction moved. |
| Grid.MoveGain | script.js:117-125 | On a board of tiles, the points a move scores are at least 0 and at most the total of the board. |
| Grid.MoveGainBounds | script.js:117-118 | The points summed over the four lines of a move are at least 0 and at most the total of the board. |
| Grid.MoveReachesGoal | script.js:121-124 | If a move raises `hasWon`, the moved board holds a 2048 tile. |
| Grid.GoalOnMovedBoard | script.js:121-124 | If the goal test fires on one of the four lines, that 2048 tile sits somewhere on the moved board. |
| Grid.MovedBoardHasEmptyCell | script.js:254-257 | A move that changes the board leaves an empty cell, so the spawn after a committed move always places a tile. |
| Grid.UnchangedMoveMergesNothing | script.js:254 | A move that changes no cell scores nothing and cannot reach 2048. The score updates made during the scan therefore do not matter when the board is not committed. |
| Grid.IsGameOver | script.js:272-300 | On a board where the game is over no direction changes anything, so refusing moves after game over loses nothing. |
| Grid.StuckBoardIsFixed | script.js:272-300 | A full board without equal horizontal or vertical neighbours is left as it is by every move. |
| Grid.HasAdjacentEqualPair | script.js:282-297 | Some cell equals its right or lower neighbour if and only if some row or some column has two equal neighbours. |
| Grid.EqualPairInLine | script.js:282-297 | The cell-by-cell right/down test finds an equal pair exactly when one of the four rows or four columns has two equal neighbours. |
| Grid.GameOverIff | script.js:272-300 | The game is over if and only if every cell is filled and no row and no column has two equal neighbours. |
| Grid.EmptyCells | script.js:60-68 | Every listed cell is on the board and empty. |
| Grid.EmptyCellsExact | script.js:60-68 | A cell is listed if and only if it is empty. |
| Grid.EmptyInRowsOrdered | script.js:62-68 | The empty cells are listed in strictly increasing row-major order. |
| Grid.NoEmptyCellsIffFull | script.js:70 | The empty-cell list is empty if and only if every cell holds a tile. |
| Grid.SpawnCell | script.js:70-72 | The cell chosen at `pick % count` is on the board and empty. |
| Grid.Spawn | script.js:70-73 | A spawn gives a 4x4 board, keeps every tile where it was, and changes the board if and only if the board had an empty cell. |
| Grid.SpawnOnFullBoard | script.js:70-73 | A spawn on a full board changes nothing. |
| Grid.SpawnPlacesOneTile | script.js:70-73 | A spawn on a board with a free cell fills exactly one previously empty cell, with a 2 or a 4, and leaves every other cell alone. |
| Grid.SpawnEffect | script.js:70-73 | On a board with an empty cell, the spawn fills the cell at position `pick % count` of the row-major empty-cell list. That cell was empty and gets 2, or 4 when `four`. Every other cell keeps its value. |
| Grid.SpawnKeepsTiles | script.js:70-73 | A spawn keeps the board made of empty cells and powers of two. |
| Grid.InitialBoard | script.js:25-41 | The board of a fresh game holds exactly two tiles, each 2 or 4, in two different cells, and every other cell is empty. |

## Left out

- Rendering is not modelled: `updateBoard`, tile elements and their positions, the win and game-over messages, and the overlay. It only writes to the page.
- `updateScore` and the best score kept in `localStorage` are not modelled. They are display and browser storage. The model's `score` is the game's own counter.
- `Math.random` is replaced by the parameters `pick` and `four`. The 90%/10% odds of a 2 or a 4, and the uniform choice of the cell, are not modelled.
- The keyboard, touch and swipe handlers, the buttons and the `DOMContentLoaded` wrapper are not modelled. They only call `move` or `initGame`.
- JavaScript numbers are doubles. The model uses unbounded integers, because tile values and scores on a 4x4 board stay far below 2^53.
- `move` is called with one of four strings. Any other string changes nothing. The model takes a `Direction` with exactly the four values, so that path does not exist in it.
- Game.Game.InitGame: its contract gives the board as two spawns on the empty board. The fact that this leaves exactly two tiles in distinct cells is stated separately, by `Grid.InitialBoard`.
- The code merges each tile once per move. Re-running the merge pass on a move's output can merge again, and so can a second move in the same direction: `Line.MergeOnceExample` shows [2,2,2,2] → [4,4] → [8]. The model claims neither idempotence property.
