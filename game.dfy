// The game session: the board, the score and the two flags that the move,
// spawn and reset operations update in place. The random choices of the
// spawn (which empty cell, and 2 or 4) are parameters.

module Game {
  import opened Line
  import opened Grid

  // ---------------------------------------------------------------------
  // The loops a move runs on one line

  /** The non-empty cells of a row, in order (`row.filter(val => val !== 0)`). */
  method FilterNonZero(line: seq<int>) returns (row: seq<int>)
    ensures row == Compress(line)
  {
    row := [];
    var i := 0;
    while i < |line|
      invariant 0 <= i <= |line|
      invariant row == Compress(line[..i])
    {
      assert line[..i + 1] == line[..i] + [line[i]];
      CompressAppend(line[..i], [line[i]]);
      assert [line[i]][1..] == [];
      if line[i] != 0 {
        row := row + [line[i]];
      }
      i := i + 1;
    }
    assert line[..i] == line;
  }

  /** The non-empty cells of column c, top to bottom. */
  method CollectColumn(g: seq<seq<int>>, c: int) returns (column: seq<int>)
    requires IsGrid(g) && 0 <= c < 4
    ensures column == Compress(Column(g, c))
  {
    ghost var col := Column(g, c);
    column := [];
    var r := 0;
    while r < 4
      invariant 0 <= r <= 4
      invariant column == Compress(col[..r])
    {
      assert col[..r + 1] == col[..r] + [g[r][c]];
      CompressAppend(col[..r], [g[r][c]]);
      assert [g[r][c]][1..] == [];
      if g[r][c] != 0 {
        column := column + [g[r][c]];
      }
      r := r + 1;
    }
    assert col[..4] == col;
  }

  /** Empty cells appended until the line is four long (`push(0)`). */
  method PadEnd(line: seq<int>) returns (row: seq<int>)
    ensures |line| <= 4 ==> row == line + Zeros(4 - |line|)
    ensures |line| >= 4 ==> row == line
  {
    row := line;
    while |row| < 4
      invariant |line| <= |row| && (|line| < 4 ==> |row| <= 4)
      invariant row == line + Zeros(|row| - |line|)
      invariant |line| >= 4 ==> row == line
      decreases 4 - |row|
    {
      assert Zeros(|row| + 1 - |line|) == Zeros(|row| - |line|) + [0];
      row := row + [0];
    }
  }

  /** Empty cells prepended until the line is four long (`unshift(0)`). */
  method PadStart(line: seq<int>) returns (row: seq<int>)
    ensures |line| <= 4 ==> row == Zeros(4 - |line|) + line
    ensures |line| >= 4 ==> row == line
  {
    row := line;
    while |row| < 4
      invariant |line| <= |row| && (|line| < 4 ==> |row| <= 4)
      invariant row == Zeros(|row| - |line|) + line
      invariant |line| >= 4 ==> row == line
      decreases 4 - |row|
    {
      assert Zeros(|row| + 1 - |line|) == [0] + Zeros(|row| - |line|);
      row := [0] + row;
    }
  }

  /** The cell-by-cell comparison of a line with its old contents, raising `moved` on a difference. */
  method CompareLine(moved: bool, before: seq<int>, after: seq<int>) returns (changed: bool)
    requires |before| == 4 && |after| == 4
    ensures changed == (moved || before != after)
  {
    changed := moved;
    var c := 0;
    while c < 4
      invariant 0 <= c <= 4
      invariant changed == (moved || before[..c] != after[..c])
    {
      assert before[..c + 1] == before[..c] + [before[c]] && after[..c + 1] == after[..c] + [after[c]];
      if before[c] != after[c] {
        changed := true;
      }
      c := c + 1;
    }
    assert before[..4] == before && after[..4] == after;
  }

  /**
   * The Up/Down write-back: column c of the new board receives `column`,
   * cell by cell, and `moved` is raised where it differs from column c of `old`.
   */
  method StoreColumn(newBoard: seq<seq<int>>, before: seq<seq<int>>, c: int, column: seq<int>, moved: bool)
    returns (stored: seq<seq<int>>, changed: bool)
    requires IsGrid(newBoard) && IsGrid(before) && 0 <= c < 4 && |column| == 4
    ensures IsGrid(stored)
    ensures Columns(stored) == Columns(newBoard)[c := column]
    ensures changed == (moved || Column(before, c) != column)
  {
    stored, changed := newBoard, moved;
    var r := 0;
    while r < 4
      invariant 0 <= r <= 4 && IsGrid(stored)
      invariant forall i, k :: InBounds(i, k) ==>
        stored[i][k] == if k == c && i < r then column[i] else newBoard[i][k]
      invariant changed == (moved || Column(before, c)[..r] != column[..r])
    {
      assert Column(before, c)[..r + 1] == Column(before, c)[..r] + [before[r][c]];
      assert column[..r + 1] == column[..r] + [column[r]];
      if before[r][c] != column[r] {
        changed := true;
      }
      stored := stored[r := stored[r][c := column[r]]];
      r := r + 1;
    }
    assert Column(before, c)[..4] == Column(before, c) && column[..4] == column;
    assert Column(stored, c) == column;
    assert forall k :: 0 <= k < 4 && k != c ==> Column(stored, k) == Column(newBoard, k);
  }

  /** The empty cells of the board, scanned row by row and left to right. */
  method CollectEmptyCells(g: seq<seq<int>>) returns (emptyCells: seq<(int, int)>)
    requires IsGrid(g)
    ensures emptyCells == EmptyCells(g)
  {
    emptyCells := [];
    var r := 0;
    while r < 4
      invariant 0 <= r <= 4
      invariant emptyCells == EmptyInRows(g, r)
    {
      var c := 0;
      while c < 4
        invariant 0 <= c <= 4
        invariant emptyCells == EmptyInRows(g, r) + EmptyInRow(g, r, c)
      {
        if g[r][c] == 0 {
          emptyCells := emptyCells + [(r, c)];
        }
        c := c + 1;
      }
      r := r + 1;
    }
  }

  /**
   * One step of the forward merge scan at index c: `after` is `before` with
   * the pair at c merged and spliced (n == 2) or untouched (n == 1).
   */
  lemma {:induction false} ScanForwardStep(before: seq<int>, after: seq<int>, c: int, n: int)
    requires 0 <= c < |before| - 1
    requires n == if before[c] == before[c + 1] then 2 else 1
    requires after == if n == 2 then before[c := 2 * before[c]][..c + 1] + before[c := 2 * before[c]][c + 2..] else before
    ensures c < |after|
    ensures after[..c + 1] + Merge(after[c + 1..]) == before[..c] + Merge(before[c..])
    ensures Gain(before[c..]) == (if n == 2 then after[c] else 0) + Gain(after[c + 1..])
    ensures ReachesGoal(before[c..]) == ((n == 2 && after[c] == Goal) || ReachesGoal(after[c + 1..]))
  {
    var rest := before[c..];
    assert rest[0] == before[c] && rest[1] == before[c + 1];
    assert after[..c + 1] == before[..c] + [after[c]];
    assert after[c + 1..] == rest[n..];
    assert Merge(rest) == [after[c]] + Merge(rest[n..]);
  }

  /**
   * One step of the backward merge scan at index c: `after` is `before` with
   * the pair at c - 1, c merged into the left cell's place (n == 2) or
   * untouched (n == 1); the scan goes on at index c - n.
   */
  lemma {:induction false} ScanBackwardStep(before: seq<int>, after: seq<int>, c: int, n: int)
    requires 0 < c < |before|
    requires n == if before[c] == before[c - 1] then 2 else 1
    requires after == if n == 2 then before[c := 2 * before[c]][..c - 1] + before[c := 2 * before[c]][c..] else before
    ensures c - n + 1 < |after| && (n == 2 ==> after[c - 1] == 2 * before[c])
    ensures MergeBack(after[..c - n + 1]) + after[c - n + 1..] == MergeBack(before[..c + 1]) + before[c + 1..]
    ensures GainBack(before[..c + 1]) == GainBack(after[..c - n + 1]) + (if n == 2 then after[c - 1] else 0)
    ensures ReachesGoalBack(before[..c + 1]) == (ReachesGoalBack(after[..c - n + 1]) || (n == 2 && after[c - 1] == Goal))
  {
    var rest := before[..c + 1];
    var v := if n == 2 then 2 * before[c] else before[c];
    assert rest[|rest| - 1] == before[c] && rest[|rest| - 2] == before[c - 1];
    assert after[..c - n + 1] == rest[..|rest| - n];
    assert after[c - n + 1..] == [v] + before[c + 1..];
    assert MergeBack(rest) == MergeBack(rest[..|rest| - n]) + [v];
  }

  /** One more line of `target` replaces the same line of `before`. */
  lemma PrefixStep(current: seq<seq<int>>, target: seq<seq<int>>, before: seq<seq<int>>, r: int, row: seq<int>)
    requires |target| == |before| && 0 <= r < |before|
    requires current == target[..r] + before[r..] && row == target[r]
    ensures current[r] == before[r]
    ensures current[r := row] == target[..r + 1] + before[r + 1..]
    ensures (target[..r + 1] != before[..r + 1]) == (target[..r] != before[..r] || row != before[r])
  {
    assert target[..r + 1] == target[..r] + [row];
    assert before[..r + 1] == before[..r] + [before[r]];
    if target[..r] != before[..r] {
      var k :| 0 <= k < r && target[k] != before[k];
      assert target[..r + 1][k] != before[..r + 1][k];
    }
  }

  lemma PrefixDone(target: seq<seq<int>>, before: seq<seq<int>>)
    requires |target| == |before| == 4
    ensures target[..4] + before[4..] == target
    ensures (target[..4] != before[..4]) == (target != before)
  {
    assert target[..4] == target && before[..4] == before;
  }

  /** The four columns of a board, left to right. */
  ghost function Columns(g: seq<seq<int>>): (cols: seq<seq<int>>)
    requires IsGrid(g)
  {
    seq(4, k requires 0 <= k < 4 => Column(g, k))
  }

  /** A board is determined by its columns. */
  lemma ColumnsDetermineGrid(g: seq<seq<int>>, h: seq<seq<int>>)
    requires IsGrid(g) && IsGrid(h)
    ensures (Columns(g) == Columns(h)) == (g == h)
  {
    if Columns(g) == Columns(h) {
      assert forall k :: 0 <= k < 4 ==> Column(g, k) == Columns(g)[k];
      SameColumnsSameGrid(g, h);
    }
  }

  // ---------------------------------------------------------------------
  // The session

  class Game {
    var board: seq<seq<int>>
    var score: int
    var hasWon: bool
    var gameOver: bool

    /** A 4x4 board of empty cells and tiles, a non-negative score, and a game-over flag that is only ever set on a board where the game is over. */
    ghost predicate Valid()
      reads this
    {
      TileGrid(board) && score >= 0 && (gameOver ==> IsGameOver(board))
    }

    /** The state when the page loads: a fresh game. */
    constructor (pick1: nat, four1: bool, pick2: nat, four2: bool)
      ensures Valid() && score == 0 && !hasWon && !gameOver
      ensures board == Spawn(Spawn(EmptyGrid(), pick1, four1), pick2, four2)
    {
      board := [];
      score := 0;
      hasWon := false;
      gameOver := false;
      new;
      InitGame(pick1, four1, pick2, four2);
    }

    /** Clears the state: an empty board, score 0, both flags down. */
    method Reset()
      modifies this
      ensures Valid() && board == EmptyGrid() && score == 0 && !hasWon && !gameOver
    {
      board := EmptyGrid();
      score := 0;
      hasWon := false;
      gameOver := false;
    }

    /** Starts a new game: empty board, score 0, both flags cleared, then two spawned tiles. */
    method InitGame(pick1: nat, four1: bool, pick2: nat, four2: bool)
      modifies this
      ensures Valid() && score == 0 && !hasWon && !gameOver
      ensures board == Spawn(Spawn(EmptyGrid(), pick1, four1), pick2, four2)
    {
      Reset();
      AddStartTiles(pick1, four1, pick2, four2);
    }

    /** The two tiles every new game starts with, spawned one after the other. */
    method AddStartTiles(pick1: nat, four1: bool, pick2: nat, four2: bool)
      requires Valid()
      modifies this`board
      ensures Valid()
      ensures board == Spawn(Spawn(old(board), pick1, four1), pick2, four2)
    {
      AddNewTile(pick1, four1);
      ghost var first := board;
      AddNewTile(pick2, four2);
      assert board == Spawn(first, pick2, four2);
    }

    /**
     * Lists the empty cells in row-major order and puts a 2, or a 4 when
     * `four`, into the one at index `pick` (modulo the list's length); on a
     * full board nothing changes.
     */
    method AddNewTile(pick: nat, four: bool)
      requires Valid()
      modifies this`board
      ensures Valid()
      ensures board == Spawn(old(board), pick, four)
    {
      var emptyCells := CollectEmptyCells(board);
      SpawnKeepsTiles(board, pick, four);
      if |emptyCells| > 0 {
        var cell := emptyCells[pick % |emptyCells|];
        board := board[cell.0 := board[cell.0][cell.1 := if four then 4 else 2]];
      }
    }

    /**
     * The Left/Up merge scan: equal neighbours merge, the score grows by the
     * merged value, the win flag is raised on 2048, and the scan steps past
     * the merged tile.
     */
    method MergeForward(line: seq<int>) returns (row: seq<int>)
      modifies this`score, this`hasWon
      ensures row == Merge(line)
      ensures score == old(score) + Gain(line)
      ensures hasWon == (old(hasWon) || ReachesGoal(line))
    {
      row := line;
      var c := 0;
      assert row[..0] == [] && row[0..] == row;
      while c < |row| - 1
        invariant 0 <= c <= |row|
        invariant row[..c] + Merge(row[c..]) == Merge(line)
        invariant score + Gain(row[c..]) == old(score) + Gain(line)
        invariant (hasWon || ReachesGoal(row[c..])) == (old(hasWon) || ReachesGoal(line))
      {
        ghost var previous := row;
        ghost var n := 1;
        if row[c] == row[c + 1] {
          row := row[c := 2 * row[c]];
          score := score + row[c];
          row := row[..c + 1] + row[c + 2..];
          n := 2;
          if row[c] == Goal && !hasWon {
            hasWon := true;
          }
        }
        ScanForwardStep(previous, row, c, n);
        c := c + 1;
      }
      assert Merge(row[c..]) == row[c..];
      assert row[..c] + row[c..] == row;
    }

    /**
     * The Right/Down merge scan, from the last cell towards the first: a
     * merged pair is spliced into the left cell's place and the index steps
     * once more, so the merged tile is skipped; the win check then reads the
     * merged tile at the decremented index.
     */
    method MergeBackward(line: seq<int>) returns (row: seq<int>)
      modifies this`score, this`hasWon
      ensures row == MergeBack(line)
      ensures score == old(score) + GainBack(line)
      ensures hasWon == (old(hasWon) || ReachesGoalBack(line))
    {
      row := line;
      var c := |row| - 1;
      assert row[..c + 1] == row && row[c + 1..] == [];
      while c > 0
        invariant -1 <= c < |row|
        invariant MergeBack(row[..c + 1]) + row[c + 1..] == MergeBack(line)
        invariant score + GainBack(row[..c + 1]) == old(score) + GainBack(line)
        invariant (hasWon || ReachesGoalBack(row[..c + 1])) == (old(hasWon) || ReachesGoalBack(line))
      {
        row, c := MergeBackwardAt(row, c);
      }
      assert MergeBack(row[..c + 1]) == row[..c + 1];
      assert row[..c + 1] + row[c + 1..] == row;
    }

    /**
     * One pass of the backward scan's loop body at index c: merge row[c]
     * into row[c - 1]'s place when they are equal, then step past the
     * merged tile. What is still to scan, together with the score and the
     * win flag, keeps the scan's total effect.
     */
    method MergeBackwardAt(row: seq<int>, c: int) returns (after: seq<int>, next: int)
      requires 0 < c < |row|
      modifies this`score, this`hasWon
      ensures -1 <= next < c && next < |after|
      ensures MergeBack(after[..next + 1]) + after[next + 1..] == MergeBack(row[..c + 1]) + row[c + 1..]
      ensures score + GainBack(after[..next + 1]) == old(score) + GainBack(row[..c + 1])
      ensures (hasWon || ReachesGoalBack(after[..next + 1])) == (old(hasWon) || ReachesGoalBack(row[..c + 1]))
    {
      after, next := row, c;
      var n := 1;
      if after[next] == after[next - 1] {
        after := after[next := 2 * after[next]];
        score := score + after[next];
        after := after[..next - 1] + after[next..];
        next := next - 1;
        n := 2;
        if after[next] == Goal && !hasWon {
          hasWon := true;
        }
      }
      next := next - 1;
      ScanBackwardStep(row, after, c, n);
    }

    /**
     * The part of a move shared by all four directions, for one line whose
     * non-empty cells are `compressed`: the merge scan from the target edge,
     * then the padding away from it.
     */
    method MergeAndPad(compressed: seq<int>, towardStart: bool, ghost line: seq<int>) returns (row: seq<int>)
      requires |line| == 4 && compressed == Compress(line)
      modifies this`score, this`hasWon
      ensures row == Slide(line, towardStart)
      ensures score == old(score) + Gain(Extract(line, towardStart))
      ensures hasWon == (old(hasWon) || ReachesGoal(Extract(line, towardStart)))
    {
      if towardStart {
        row := MergeForward(compressed);
        row := PadEnd(row);
      } else {
        row := MergeBackward(compressed);
        row := PadStart(row);
        BackwardSlide(line);
      }
    }

    /**
     * Row r of a Left or Right move: its non-empty cells, merged and padded.
     * The score and the win flag, which stood at the first r rows' effect on
     * top of `score0` and `won0`, now include row r's.
     */
    method SlideRowAt(line: seq<int>, before: seq<seq<int>>, d: Direction, r: int, ghost score0: int, ghost won0: bool)
      returns (row: seq<int>)
      requires IsGrid(before) && Horizontal(d) && 0 <= r < 4 && line == before[r]
      requires score == score0 + GainUpTo(before, d, r)
      requires hasWon == (won0 || ReachesGoalUpTo(before, d, r))
      modifies this`score, this`hasWon
      ensures row == SlideGrid(before, d)[r]
      ensures score == score0 + GainUpTo(before, d, r + 1)
      ensures hasWon == (won0 || ReachesGoalUpTo(before, d, r + 1))
    {
      row := FilterNonZero(line);
      row := MergeAndPad(row, d == Left, line);
      SlideGridLines(before, d, r);
      ReachesGoalUpToNext(before, d, r);
    }

    /** Column c of an Up or Down move, in the manner of SlideRowAt. */
    method SlideColumnAt(current: seq<seq<int>>, before: seq<seq<int>>, d: Direction, c: int, ghost score0: int, ghost won0: bool)
      returns (column: seq<int>)
      requires IsGrid(current) && IsGrid(before) && !Horizontal(d) && 0 <= c < 4
      requires Column(current, c) == Column(before, c)
      requires score == score0 + GainUpTo(before, d, c)
      requires hasWon == (won0 || ReachesGoalUpTo(before, d, c))
      modifies this`score, this`hasWon
      ensures column == Column(SlideGrid(before, d), c)
      ensures score == score0 + GainUpTo(before, d, c + 1)
      ensures hasWon == (won0 || ReachesGoalUpTo(before, d, c + 1))
    {
      column := CollectColumn(current, c);
      column := MergeAndPad(column, d == Up, Column(before, c));
      SlideGridLines(before, d, c);
      ReachesGoalUpToNext(before, d, c);
    }

    /**
     * One pass of the Up/Down loop: column c is collected, merged and padded,
     * then compared with column c of `before` and written into the new board.
     */
    method SlideColumnStep(newBoard: seq<seq<int>>, before: seq<seq<int>>, d: Direction, c: int, moved: bool,
                           ghost score0: int, ghost won0: bool)
      returns (stored: seq<seq<int>>, changed: bool)
      requires IsGrid(newBoard) && IsGrid(before) && !Horizontal(d) && 0 <= c < 4
      requires Columns(newBoard) == Columns(SlideGrid(before, d))[..c] + Columns(before)[c..]
      requires moved == (Columns(SlideGrid(before, d))[..c] != Columns(before)[..c])
      requires score == score0 + GainUpTo(before, d, c)
      requires hasWon == (won0 || ReachesGoalUpTo(before, d, c))
      modifies this`score, this`hasWon
      ensures IsGrid(stored)
      ensures Columns(stored) == Columns(SlideGrid(before, d))[..c + 1] + Columns(before)[c + 1..]
      ensures changed == (Columns(SlideGrid(before, d))[..c + 1] != Columns(before)[..c + 1])
      ensures score == score0 + GainUpTo(before, d, c + 1)
      ensures hasWon == (won0 || ReachesGoalUpTo(before, d, c + 1))
    {
      ghost var target := SlideGrid(before, d);
      assert Columns(newBoard)[c] == Columns(before)[c];
      var column := SlideColumnAt(newBoard, before, d, c, score0, won0);
      PrefixStep(Columns(newBoard), Columns(target), Columns(before), c, column);
      stored, changed := StoreColumn(newBoard, before, c, column, moved);
    }

    /** Left and Right, on the board `before` the move: each row is filtered, merged, padded, compared and written back. */
    method SlideRows(before: seq<seq<int>>, d: Direction) returns (newBoard: seq<seq<int>>, moved: bool)
      requires IsGrid(before) && Horizontal(d)
      modifies this`score, this`hasWon
      ensures newBoard == SlideGrid(before, d)
      ensures moved == (newBoard != before)
      ensures score == old(score) + MoveGain(before, d)
      ensures hasWon == (old(hasWon) || MoveReachesGoal(before, d))
    {
      ghost var target := SlideGrid(before, d);
      newBoard := before;
      moved := false;
      var r := 0;
      while r < 4
        invariant 0 <= r <= 4
        invariant newBoard == target[..r] + before[r..]
        invariant moved == (target[..r] != before[..r])
        invariant score == old(score) + GainUpTo(before, d, r)
        invariant hasWon == (old(hasWon) || ReachesGoalUpTo(before, d, r))
      {
        var row := SlideRowAt(newBoard[r], before, d, r, old(score), old(hasWon));
        PrefixStep(newBoard, target, before, r, row);
        moved := CompareLine(moved, before[r], row);
        newBoard := newBoard[r := row];
        r := r + 1;
      }
      PrefixDone(target, before);
    }

    /** Up and Down, on the board `before` the move: each column is collected, merged, padded, then compared and written back cell by cell. */
    method SlideColumns(before: seq<seq<int>>, d: Direction) returns (newBoard: seq<seq<int>>, moved: bool)
      requires IsGrid(before) && !Horizontal(d)
      modifies this`score, this`hasWon
      ensures newBoard == SlideGrid(before, d)
      ensures moved == (newBoard != before)
      ensures score == old(score) + MoveGain(before, d)
      ensures hasWon == (old(hasWon) || MoveReachesGoal(before, d))
    {
      newBoard := before;
      moved := false;
      var c := 0;
      while c < 4
        invariant 0 <= c <= 4 && IsGrid(newBoard)
        invariant Columns(newBoard) == Columns(SlideGrid(before, d))[..c] + Columns(before)[c..]
        invariant moved == (Columns(SlideGrid(before, d))[..c] != Columns(before)[..c])
        invariant score == old(score) + GainUpTo(before, d, c)
        invariant hasWon == (old(hasWon) || ReachesGoalUpTo(before, d, c))
      {
        newBoard, moved := SlideColumnStep(newBoard, before, d, c, moved, old(score), old(hasWon));
        c := c + 1;
      }
      PrefixDone(Columns(SlideGrid(before, d)), Columns(before));
      ColumnsDetermineGrid(newBoard, SlideGrid(before, d));
      ColumnsDetermineGrid(before, SlideGrid(before, d));
    }

    /** Whether the game is over: first any empty cell, then any equal right or lower neighbour, ends the search. */
    method CheckGameOver() returns (over: bool)
      requires IsGrid(board)
      ensures over == IsGameOver(board)
    {
      NoEmptyCellsIffFull(board);
      var r := 0;
      while r < 4
        invariant 0 <= r <= 4
        invariant forall i, j :: 0 <= i < r && 0 <= j < 4 ==> board[i][j] != 0
      {
        var c := 0;
        while c < 4
          invariant 0 <= c <= 4
          invariant forall j :: 0 <= j < c ==> board[r][j] != 0
        {
          if board[r][c] == 0 {
            return false;
          }
          c := c + 1;
        }
        r := r + 1;
      }
      r := 0;
      while r < 4
        invariant 0 <= r <= 4
        invariant forall i, j :: 0 <= i < r && 0 <= j < 4 ==> !EqualToNeighbour(board, i, j)
      {
        var c := 0;
        while c < 4
          invariant 0 <= c <= 4
          invariant forall i, j :: 0 <= i < r && 0 <= j < 4 ==> !EqualToNeighbour(board, i, j)
          invariant forall j :: 0 <= j < c ==> !EqualToNeighbour(board, r, j)
        {
          var current := board[r][c];
          if c < 3 && board[r][c + 1] == current {
            assert EqualToNeighbour(board, r, c);
            return false;
          }
          if r < 3 && board[r + 1][c] == current {
            assert EqualToNeighbour(board, r, c);
            return false;
          }
          c := c + 1;
        }
        r := r + 1;
      }
      return true;
    }

    /**
     * One player move. Refused once the game is over. Otherwise every line is
     * slid (the score and the win flag grow during the scan); only if some
     * cell changed is the new board committed, a tile spawned and the
     * game-over test run. Returns whether the board changed.
     */
    method Move(d: Direction, pick: nat, four: bool) returns (moved: bool)
      requires Valid()
      modifies this
      ensures Valid()
      ensures old(gameOver) ==> !moved
      ensures !old(gameOver) ==> moved == (SlideGrid(old(board), d) != old(board))
      ensures !moved ==>
        board == old(board) && score == old(score) && hasWon == old(hasWon) && gameOver == old(gameOver)
      ensures moved ==>
        board == Spawn(SlideGrid(old(board), d), pick, four) &&
        score == old(score) + MoveGain(old(board), d) &&
        hasWon == (old(hasWon) || MoveReachesGoal(old(board), d)) &&
        gameOver == IsGameOver(board)
      ensures score >= old(score) && (old(hasWon) ==> hasWon) && (old(gameOver) ==> gameOver)
    {
      if gameOver {
        return false;
      }
      var newBoard;
      if d == Left || d == Right {
        newBoard, moved := SlideRows(board, d);
      } else {
        newBoard, moved := SlideColumns(board, d);
      }
      if moved {
        SlideGridTiles(board, d);
        board := newBoard;
        AddNewTile(pick, four);
        var over := CheckGameOver();
        if over {
          gameOver := true;
        }
      } else {
        UnchangedMoveMergesNothing(board, d);
      }
    }
  }
}
