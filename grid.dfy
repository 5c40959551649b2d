// The 4x4 board as a value: the four moves in terms of the line rule, the
// score and goal bookkeeping of a move, the list of empty cells and the tile
// spawn that uses it, and the game-over test.

module Grid {
  import opened Line

  datatype Direction = Up | Down | Left | Right

  /** Left and Right move along rows; Up and Down along columns. */
  predicate Horizontal(d: Direction)
  {
    d == Left || d == Right
  }

  /** Left and Up move tiles towards index 0 of each line. */
  predicate TowardStart(d: Direction)
  {
    d == Left || d == Up
  }

  predicate InBounds(r: int, c: int)
  {
    0 <= r < 4 && 0 <= c < 4
  }

  /** Four rows of four cells. */
  predicate IsGrid(g: seq<seq<int>>)
  {
    |g| == 4 && forall r :: 0 <= r < 4 ==> |g[r]| == 4
  }

  /** A board of the game: every cell is empty (0) or a tile. */
  predicate TileGrid(g: seq<seq<int>>)
  {
    IsGrid(g) && forall r, c :: 0 <= r < 4 && 0 <= c < 4 ==> g[r][c] == 0 || IsTile(g[r][c])
  }

  /** The board of a reset game: sixteen empty cells. */
  function EmptyGrid(): (g: seq<seq<int>>)
    ensures TileGrid(g) && forall r, c :: InBounds(r, c) ==> g[r][c] == 0
  {
    seq(4, _ => Zeros(4))
  }

  function Column(g: seq<seq<int>>, c: int): (col: seq<int>)
    requires IsGrid(g) && 0 <= c < 4
  {
    [g[0][c], g[1][c], g[2][c], g[3][c]]
  }

  /** Line i of the board as a move in direction d sees it: row i or column i. */
  function LineOf(g: seq<seq<int>>, d: Direction, i: int): (line: seq<int>)
    requires IsGrid(g) && 0 <= i < 4
  {
    if Horizontal(d) then g[i] else Column(g, i)
  }

  /** The board after the compress/merge/pad step of a move, before any tile is spawned. */
  function SlideGrid(g: seq<seq<int>>, d: Direction): (h: seq<seq<int>>)
    requires IsGrid(g)
    ensures IsGrid(h)
  {
    if Horizontal(d) then
      seq(4, r requires 0 <= r < 4 => Slide(g[r], TowardStart(d)))
    else
      var cols := seq(4, c requires 0 <= c < 4 => Slide(Column(g, c), TowardStart(d)));
      seq(4, r requires 0 <= r < 4 => seq(4, c requires 0 <= c < 4 => cols[c][r]))
  }

  /** The score the first n lines of a move earn. */
  function GainUpTo(g: seq<seq<int>>, d: Direction, n: int): (gain: int)
    requires IsGrid(g) && 0 <= n <= 4
  {
    if n == 0 then 0 else GainUpTo(g, d, n - 1) + Gain(Extract(LineOf(g, d, n - 1), TowardStart(d)))
  }

  /**
   * The score a move in direction d earns: the sum of all values its merges
   * produce. On a board of tiles it is never negative and never more than
   * the board's total.
   */
  function MoveGain(g: seq<seq<int>>, d: Direction): (gain: int)
    requires IsGrid(g)
    ensures TileGrid(g) ==> 0 <= gain <= Total(g)
  {
    MoveGainBounds(g, d);
    GainUpTo(g, d, 4)
  }

  /** Some merge in the first n lines of a move produces the goal value. */
  predicate ReachesGoalUpTo(g: seq<seq<int>>, d: Direction, n: int)
    requires IsGrid(g) && 0 <= n <= 4
  {
    exists i :: 0 <= i < n && ReachesGoal(Extract(LineOf(g, d, i), TowardStart(d)))
  }

  /** Some merge of a move produces the goal value; the moved board then shows a goal tile. */
  predicate MoveReachesGoal(g: seq<seq<int>>, d: Direction)
    requires IsGrid(g)
    ensures MoveReachesGoal(g, d) ==> exists r, c :: InBounds(r, c) && SlideGrid(g, d)[r][c] == Goal
  {
    GoalOnMovedBoard(g, d);
    ReachesGoalUpTo(g, d, 4)
  }

  /** The sum of all tile values on the board. */
  function Total(g: seq<seq<int>>): (total: int)
    requires IsGrid(g)
  {
    Sum(g[0]) + Sum(g[1]) + Sum(g[2]) + Sum(g[3])
  }

  /** Every line of the board is packed against the edge that direction d moves towards. */
  predicate PackedToward(g: seq<seq<int>>, d: Direction)
    requires IsGrid(g)
  {
    forall i :: 0 <= i < 4 ==>
      if TowardStart(d) then PackedAtStart(LineOf(g, d, i)) else PackedAtEnd(LineOf(g, d, i))
  }

  // ---------------------------------------------------------------------
  // Empty cells and the tile spawn

  /** The empty cells (r, c) of row r with c < n, left to right. */
  function EmptyInRow(g: seq<seq<int>>, r: int, n: int): (e: seq<(int, int)>)
    requires IsGrid(g) && 0 <= r < 4 && 0 <= n <= 4
    ensures forall i :: 0 <= i < |e| ==> e[i].0 == r && 0 <= e[i].1 < n && g[r][e[i].1] == 0
  {
    if n == 0 then [] else EmptyInRow(g, r, n - 1) + (if g[r][n - 1] == 0 then [(r, n - 1)] else [])
  }

  /** The empty cells of the first n rows, in row-major order. */
  function EmptyInRows(g: seq<seq<int>>, n: int): (e: seq<(int, int)>)
    requires IsGrid(g) && 0 <= n <= 4
    ensures forall i :: 0 <= i < |e| ==> 0 <= e[i].0 < n && 0 <= e[i].1 < 4 && g[e[i].0][e[i].1] == 0
  {
    if n == 0 then [] else EmptyInRows(g, n - 1) + EmptyInRow(g, n - 1, 4)
  }

  /** All empty cells of the board, in row-major order. */
  function EmptyCells(g: seq<seq<int>>): (e: seq<(int, int)>)
    requires IsGrid(g)
    ensures forall i :: 0 <= i < |e| ==> InBounds(e[i].0, e[i].1) && g[e[i].0][e[i].1] == 0
  {
    EmptyInRows(g, 4)
  }

  function SpawnValue(four: bool): int
  {
    if four then 4 else 2
  }

  /**
   * The empty cell a spawn fills: `pick` stands for the random index into
   * the list of empty cells, taken modulo its length.
   */
  function SpawnCell(g: seq<seq<int>>, pick: nat): (p: (int, int))
    requires IsGrid(g) && EmptyCells(g) != []
    ensures InBounds(p.0, p.1) && g[p.0][p.1] == 0
  {
    EmptyCells(g)[pick % |EmptyCells(g)|]
  }

  /**
   * The board after a new tile (4 if `four`, else 2) is put in an empty cell,
   * if any: no tile is ever overwritten, and the board changes exactly when
   * it has an empty cell.
   */
  function Spawn(g: seq<seq<int>>, pick: nat, four: bool): (h: seq<seq<int>>)
    requires IsGrid(g)
    ensures IsGrid(h)
    ensures forall r, c :: InBounds(r, c) && g[r][c] != 0 ==> h[r][c] == g[r][c]
    ensures (h == g) == (EmptyCells(g) == [])
  {
    if EmptyCells(g) == [] then g
    else
      var p := SpawnCell(g, pick);
      g[p.0 := g[p.0][p.1 := SpawnValue(four)]]
  }

  /** Cell (r, c) holds the same value as its right or its lower neighbour. */
  predicate EqualToNeighbour(g: seq<seq<int>>, r: int, c: int)
    requires IsGrid(g) && InBounds(r, c)
  {
    (c < 3 && g[r][c] == g[r][c + 1]) || (r < 3 && g[r][c] == g[r + 1][c])
  }

  /**
   * Two horizontally or vertically neighbouring cells hold the same value:
   * some row or some column has equal neighbours.
   */
  predicate HasAdjacentEqualPair(g: seq<seq<int>>)
    requires IsGrid(g)
    ensures HasAdjacentEqualPair(g) <==>
      exists i :: 0 <= i < 4 && !(NoEqualNeighbours(g[i]) && NoEqualNeighbours(Column(g, i)))
  {
    EqualPairInLine(g);
    exists r, c :: 0 <= r < 4 && 0 <= c < 4 && EqualToNeighbour(g, r, c)
  }

  /**
   * The game is over: no empty cell and no pair of equal neighbours. Then no
   * move in any direction changes the board.
   */
  predicate IsGameOver(g: seq<seq<int>>)
    requires IsGrid(g)
    ensures IsGameOver(g) ==> forall d :: SlideGrid(g, d) == g
  {
    StuckBoardIsFixed(g);
    EmptyCells(g) == [] && !HasAdjacentEqualPair(g)
  }

  // ---------------------------------------------------------------------
  // The empty-cell list

  lemma {:induction false} EmptyInRowComplete(g: seq<seq<int>>, r: int, n: int, c: int)
    requires IsGrid(g) && 0 <= r < 4 && 0 <= c < n <= 4 && g[r][c] == 0
    ensures (r, c) in EmptyInRow(g, r, n)
  {
    if c < n - 1 {
      EmptyInRowComplete(g, r, n - 1, c);
    }
  }

  lemma {:induction false} EmptyInRowsComplete(g: seq<seq<int>>, n: int, r: int, c: int)
    requires IsGrid(g) && 0 <= r < n <= 4 && 0 <= c < 4 && g[r][c] == 0
    ensures (r, c) in EmptyInRows(g, n)
  {
    if r < n - 1 {
      EmptyInRowsComplete(g, n - 1, r, c);
    } else {
      EmptyInRowComplete(g, r, 4, c);
    }
  }

  /** A cell is in the empty-cell list exactly when it holds 0. */
  lemma EmptyCellsExact(g: seq<seq<int>>)
    requires IsGrid(g)
    ensures forall r, c :: InBounds(r, c) ==> ((r, c) in EmptyCells(g) <==> g[r][c] == 0)
  {
    forall r, c | InBounds(r, c) && g[r][c] == 0 ensures (r, c) in EmptyCells(g) {
      EmptyInRowsComplete(g, 4, r, c);
    }
  }

  /** The list is empty exactly when the board is full. */
  lemma NoEmptyCellsIffFull(g: seq<seq<int>>)
    requires IsGrid(g)
    ensures EmptyCells(g) == [] <==> forall r, c :: InBounds(r, c) ==> g[r][c] != 0
  {
    EmptyCellsExact(g);
    if EmptyCells(g) != [] {
      var p := EmptyCells(g)[0];
      assert InBounds(p.0, p.1) && g[p.0][p.1] == 0;
    }
  }

  /** A cell equal to its right or lower neighbour is a row or column with equal neighbours, and back. */
  lemma EqualPairInLine(g: seq<seq<int>>)
    requires IsGrid(g)
    ensures (exists r, c :: 0 <= r < 4 && 0 <= c < 4 && EqualToNeighbour(g, r, c)) <==>
      exists i :: 0 <= i < 4 && !(NoEqualNeighbours(g[i]) && NoEqualNeighbours(Column(g, i)))
  {
    if exists r, c :: 0 <= r < 4 && 0 <= c < 4 && EqualToNeighbour(g, r, c) {
      var r, c :| 0 <= r < 4 && 0 <= c < 4 && EqualToNeighbour(g, r, c);
      if c < 3 && g[r][c] == g[r][c + 1] {
        assert !NoEqualNeighbours(g[r]);
      } else {
        assert Column(g, c)[r] == Column(g, c)[r + 1];
        assert !NoEqualNeighbours(Column(g, c));
      }
    }
    if exists i :: 0 <= i < 4 && !(NoEqualNeighbours(g[i]) && NoEqualNeighbours(Column(g, i))) {
      var i :| 0 <= i < 4 && !(NoEqualNeighbours(g[i]) && NoEqualNeighbours(Column(g, i)));
      if !NoEqualNeighbours(g[i]) {
        var k :| 0 <= k < 3 && g[i][k] == g[i][k + 1];
        assert EqualToNeighbour(g, i, k);
      } else {
        var k :| 0 <= k < 3 && Column(g, i)[k] == Column(g, i)[k + 1];
        assert EqualToNeighbour(g, k, i);
      }
    }
  }

  /**
   * The game is over exactly when no cell is empty and no row and no column
   * holds two equal neighbours.
   */
  lemma GameOverIff(g: seq<seq<int>>)
    requires IsGrid(g)
    ensures IsGameOver(g) <==>
      (forall r, c :: InBounds(r, c) ==> g[r][c] != 0) &&
      (forall i :: 0 <= i < 4 ==> NoEqualNeighbours(g[i]) && NoEqualNeighbours(Column(g, i)))
  {
    NoEmptyCellsIffFull(g);
  }

  /** Position of a cell in row-major order. */
  function RowMajorIndex(p: (int, int)): int
  {
    4 * p.0 + p.1
  }

  predicate RowMajor(e: seq<(int, int)>)
  {
    forall i, j :: 0 <= i < j < |e| ==> RowMajorIndex(e[i]) < RowMajorIndex(e[j])
  }

  lemma {:induction false} EmptyInRowOrdered(g: seq<seq<int>>, r: int, n: int)
    requires IsGrid(g) && 0 <= r < 4 && 0 <= n <= 4
    ensures RowMajor(EmptyInRow(g, r, n))
  {
    if n > 0 {
      EmptyInRowOrdered(g, r, n - 1);
    }
  }

  /** The empty cells are listed in row-major order, each once. */
  lemma {:induction false} EmptyInRowsOrdered(g: seq<seq<int>>, n: int)
    requires IsGrid(g) && 0 <= n <= 4
    ensures RowMajor(EmptyInRows(g, n))
  {
    if n > 0 {
      EmptyInRowsOrdered(g, n - 1);
      EmptyInRowOrdered(g, n - 1, 4);
      var a, b := EmptyInRows(g, n - 1), EmptyInRow(g, n - 1, 4);
      var e := a + b;
      forall i, j | 0 <= i < j < |e| ensures RowMajorIndex(e[i]) < RowMajorIndex(e[j]) {
        if j < |a| {
          assert e[i] == a[i] && e[j] == a[j];
        } else if i < |a| {
          assert e[i] == a[i] && e[j] == b[j - |a|];
        } else {
          assert e[i] == b[i - |a|] && e[j] == b[j - |a|];
        }
      }
    }
  }

  // ---------------------------------------------------------------------
  // The spawn

  /** On a full board the spawn changes nothing. */
  lemma SpawnOnFullBoard(g: seq<seq<int>>, pick: nat, four: bool)
    requires IsGrid(g)
    requires forall r, c :: InBounds(r, c) ==> g[r][c] != 0
    ensures Spawn(g, pick, four) == g
  {
    NoEmptyCellsIffFull(g);
  }

  /**
   * Otherwise exactly one cell that was empty becomes 2 or 4, and every
   * other cell keeps its value.
   */
  lemma SpawnPlacesOneTile(g: seq<seq<int>>, pick: nat, four: bool)
    requires IsGrid(g)
    requires exists r, c :: InBounds(r, c) && g[r][c] == 0
    ensures IsGrid(Spawn(g, pick, four))
    ensures exists r, c :: InBounds(r, c) && g[r][c] == 0 &&
              Spawn(g, pick, four)[r][c] == SpawnValue(four) &&
              forall r', c' :: InBounds(r', c') && (r', c') != (r, c) ==> Spawn(g, pick, four)[r'][c'] == g[r'][c']
  {
    NoEmptyCellsIffFull(g);
    var p := SpawnCell(g, pick);
    assert InBounds(p.0, p.1) && g[p.0][p.1] == 0;
  }

  lemma SpawnKeepsTiles(g: seq<seq<int>>, pick: nat, four: bool)
    requires TileGrid(g)
    ensures TileGrid(Spawn(g, pick, four))
  {
    assert IsTile(4) by { assert IsTile(4 / 2); }
  }

  /** What a spawn on a board with an empty cell does, cell by cell. */
  lemma SpawnEffect(g: seq<seq<int>>, pick: nat, four: bool)
    requires IsGrid(g) && EmptyCells(g) != []
    ensures var p := SpawnCell(g, pick);
      InBounds(p.0, p.1) && g[p.0][p.1] == 0 && IsGrid(Spawn(g, pick, four)) &&
      forall r, c :: InBounds(r, c) ==>
        Spawn(g, pick, four)[r][c] == if (r, c) == p then SpawnValue(four) else g[r][c]
  {
  }

  /** Exactly the two distinct cells p and q are non-empty, each holding 2 or 4. */
  ghost predicate TwoStartTiles(g: seq<seq<int>>, p: (int, int), q: (int, int))
    requires IsGrid(g)
  {
    InBounds(p.0, p.1) && InBounds(q.0, q.1) && p != q &&
    g[p.0][p.1] in {2, 4} && g[q.0][q.1] in {2, 4} &&
    forall r, c :: InBounds(r, c) && (r, c) != p && (r, c) != q ==> g[r][c] == 0
  }

  /**
   * A new game's board: two spawns on an empty board give exactly two
   * non-empty cells, each holding 2 or 4.
   */
  lemma InitialBoard(pick1: nat, four1: bool, pick2: nat, four2: bool)
    ensures IsGrid(Spawn(Spawn(EmptyGrid(), pick1, four1), pick2, four2))
    ensures exists p, q :: TwoStartTiles(Spawn(Spawn(EmptyGrid(), pick1, four1), pick2, four2), p, q)
  {
    var p := FirstSpawn(pick1, four1);
    var g1 := Spawn(EmptyGrid(), pick1, four1);
    var q := SecondSpawn(g1, p, pick2, four2);
    assert TwoStartTiles(Spawn(g1, pick2, four2), p, q);
  }

  /** A board with an empty cell gets its spawned tile in some empty cell q. */
  lemma SpawnSomewhere(g: seq<seq<int>>, free: (int, int), pick: nat, four: bool) returns (q: (int, int))
    requires IsGrid(g) && InBounds(free.0, free.1) && g[free.0][free.1] == 0
    ensures InBounds(q.0, q.1) && g[q.0][q.1] == 0 && IsGrid(Spawn(g, pick, four))
    ensures forall r, c :: InBounds(r, c) ==>
      Spawn(g, pick, four)[r][c] == if (r, c) == q then SpawnValue(four) else g[r][c]
  {
    EmptyInRowsComplete(g, 4, free.0, free.1);
    SpawnEffect(g, pick, four);
    q := SpawnCell(g, pick);
  }

  /** The first spawn of a new game fills one cell p of the empty board. */
  lemma FirstSpawn(pick: nat, four: bool) returns (p: (int, int))
    ensures InBounds(p.0, p.1) && IsGrid(Spawn(EmptyGrid(), pick, four))
    ensures forall r, c :: InBounds(r, c) ==>
      Spawn(EmptyGrid(), pick, four)[r][c] == if (r, c) == p then SpawnValue(four) else 0
  {
    var g := EmptyGrid();
    assert IsGrid(g) && forall r, c :: InBounds(r, c) ==> g[r][c] == 0;
    p := SpawnSomewhere(g, (0, 0), pick, four);
  }

  /** The second spawn fills a cell q other than the one p the first spawn filled. */
  lemma SecondSpawn(g: seq<seq<int>>, p: (int, int), pick: nat, four: bool) returns (q: (int, int))
    requires IsGrid(g) && InBounds(p.0, p.1)
    requires forall r, c :: InBounds(r, c) && (r, c) != p ==> g[r][c] == 0
    requires g[p.0][p.1] != 0
    ensures InBounds(q.0, q.1) && q != p && IsGrid(Spawn(g, pick, four))
    ensures forall r, c :: InBounds(r, c) ==>
      Spawn(g, pick, four)[r][c] == if (r, c) == q then SpawnValue(four) else g[r][c]
  {
    var free := if p == (0, 0) then (0, 1) else (0, 0);
    q := SpawnSomewhere(g, free, pick, four);
  }

  // ---------------------------------------------------------------------
  // The move on the whole board

  /** Line i of the moved board is the slide of line i of the old board. */
  lemma SlideGridLines(g: seq<seq<int>>, d: Direction, i: int)
    requires IsGrid(g) && 0 <= i < 4
    ensures LineOf(SlideGrid(g, d), d, i) == Slide(LineOf(g, d, i), TowardStart(d))
  {
    var h := SlideGrid(g, d);
    if !Horizontal(d) {
      var s := Slide(Column(g, i), TowardStart(d));
      assert forall r :: 0 <= r < 4 ==> Column(h, i)[r] == s[r];
    }
  }

  lemma ReachesGoalUpToNext(g: seq<seq<int>>, d: Direction, n: int)
    requires IsGrid(g) && 0 <= n < 4
    ensures ReachesGoalUpTo(g, d, n + 1) ==
      (ReachesGoalUpTo(g, d, n) || ReachesGoal(Extract(LineOf(g, d, n), TowardStart(d))))
  {
    if ReachesGoalUpTo(g, d, n + 1) && !ReachesGoal(Extract(LineOf(g, d, n), TowardStart(d))) {
      var i :| 0 <= i < n + 1 && ReachesGoal(Extract(LineOf(g, d, i), TowardStart(d)));
      assert i < n;
    }
  }

  /** Two boards with the same four columns are the same board. */
  lemma SameColumnsSameGrid(g: seq<seq<int>>, h: seq<seq<int>>)
    requires IsGrid(g) && IsGrid(h)
    requires forall k :: 0 <= k < 4 ==> Column(g, k) == Column(h, k)
    ensures g == h
  {
    forall r | 0 <= r < 4 ensures g[r] == h[r] {
      forall k | 0 <= k < 4 ensures g[r][k] == h[r][k] {
        assert Column(g, k)[r] == Column(h, k)[r];
      }
    }
  }

  /** A move keeps every cell empty or a tile. */
  lemma SlideGridTiles(g: seq<seq<int>>, d: Direction)
    requires TileGrid(g)
    ensures TileGrid(SlideGrid(g, d))
  {
    var h := SlideGrid(g, d);
    forall r, c | InBounds(r, c) ensures h[r][c] == 0 || IsTile(h[r][c]) {
      var i, k := if Horizontal(d) then r else c, if Horizontal(d) then c else r;
      assert TileLine(LineOf(g, d, i));
      SlideTiles(LineOf(g, d, i), TowardStart(d));
      SlideGridLines(g, d, i);
      assert h[r][c] == LineOf(h, d, i)[k];
    }
  }

  /** On a board of tiles a move earns between 0 and the board's total. */
  lemma MoveGainBounds(g: seq<seq<int>>, d: Direction)
    requires IsGrid(g)
    ensures TileGrid(g) ==> 0 <= GainUpTo(g, d, 4) <= Total(g)
  {
    if TileGrid(g) {
      forall i | 0 <= i < 4
        ensures 0 <= Gain(Extract(LineOf(g, d, i), TowardStart(d))) <= Sum(LineOf(g, d, i))
      {
        assert TileLine(LineOf(g, d, i));
        SlideGainBounds(LineOf(g, d, i), TowardStart(d));
      }
      assert GainUpTo(g, d, 1) == Gain(Extract(LineOf(g, d, 0), TowardStart(d)));
      assert GainUpTo(g, d, 2) == GainUpTo(g, d, 1) + Gain(Extract(LineOf(g, d, 1), TowardStart(d)));
      assert GainUpTo(g, d, 3) == GainUpTo(g, d, 2) + Gain(Extract(LineOf(g, d, 2), TowardStart(d)));
      assert GainUpTo(g, d, 4) ==
        Gain(Extract(LineOf(g, d, 0), TowardStart(d))) + Gain(Extract(LineOf(g, d, 1), TowardStart(d))) +
        Gain(Extract(LineOf(g, d, 2), TowardStart(d))) + Gain(Extract(LineOf(g, d, 3), TowardStart(d)));
      if !Horizontal(d) {
        TotalByColumns(g);
      }
      assert Total(g) ==
        Sum(LineOf(g, d, 0)) + Sum(LineOf(g, d, 1)) + Sum(LineOf(g, d, 2)) + Sum(LineOf(g, d, 3));
    }
  }

  /** A move that reaches the goal leaves a goal tile on the moved board. */
  lemma GoalOnMovedBoard(g: seq<seq<int>>, d: Direction)
    requires IsGrid(g)
    ensures ReachesGoalUpTo(g, d, 4) ==> exists r, c :: InBounds(r, c) && SlideGrid(g, d)[r][c] == Goal
  {
    if ReachesGoalUpTo(g, d, 4) {
      var i :| 0 <= i < 4 && ReachesGoal(Extract(LineOf(g, d, i), TowardStart(d)));
      var h := SlideGrid(g, d);
      GoalInSlide(LineOf(g, d, i), TowardStart(d));
      SlideGridLines(g, d, i);
      var k :| 0 <= k < 4 && LineOf(h, d, i)[k] == Goal;
      if Horizontal(d) {
        assert InBounds(i, k) && h[i][k] == Goal;
      } else {
        assert InBounds(k, i) && h[k][i] == Goal;
      }
    }
  }

  lemma {:induction false} SumOfFour(s: seq<int>)
    requires |s| == 4
    ensures Sum(s) == s[0] + s[1] + s[2] + s[3]
  {
    var t1 := s[1..];
    var t2 := t1[1..];
    var t3 := t2[1..];
    assert t3[1..] == [];
    assert Sum(t3) == s[3] + Sum(t3[1..]);
    assert Sum(t2) == s[2] + Sum(t3);
    assert Sum(t1) == s[1] + Sum(t2);
  }

  /** The board total, added up column by column. */
  lemma TotalByColumns(g: seq<seq<int>>)
    requires IsGrid(g)
    ensures Total(g) == Sum(Column(g, 0)) + Sum(Column(g, 1)) + Sum(Column(g, 2)) + Sum(Column(g, 3))
  {
    SumOfFour(g[0]); SumOfFour(g[1]); SumOfFour(g[2]); SumOfFour(g[3]);
    SumOfFour(Column(g, 0)); SumOfFour(Column(g, 1)); SumOfFour(Column(g, 2)); SumOfFour(Column(g, 3));
  }

  lemma SlideLineSum(g: seq<seq<int>>, d: Direction, i: int)
    requires IsGrid(g) && 0 <= i < 4
    ensures Sum(LineOf(SlideGrid(g, d), d, i)) == Sum(LineOf(g, d, i))
  {
    SlideGridLines(g, d, i);
    SlideSum(LineOf(g, d, i), TowardStart(d));
  }

  /** A move (before the spawn) keeps the sum of the tile values on the board. */
  lemma SlideGridTotal(g: seq<seq<int>>, d: Direction)
    requires IsGrid(g)
    ensures Total(SlideGrid(g, d)) == Total(g)
  {
    var h := SlideGrid(g, d);
    SlideLineSum(g, d, 0); SlideLineSum(g, d, 1); SlideLineSum(g, d, 2); SlideLineSum(g, d, 3);
    if !Horizontal(d) {
      TotalByColumns(g);
      TotalByColumns(h);
    }
  }

  /** After a move every line is packed against the edge the move goes towards. */
  lemma SlideGridPacked(g: seq<seq<int>>, d: Direction)
    requires IsGrid(g)
    ensures PackedToward(SlideGrid(g, d), d)
  {
    forall i | 0 <= i < 4
      ensures if TowardStart(d) then PackedAtStart(LineOf(SlideGrid(g, d), d, i))
              else PackedAtEnd(LineOf(SlideGrid(g, d), d, i))
    {
      SlideGridLines(g, d, i);
      SlidePacked(LineOf(g, d, i), TowardStart(d));
    }
  }

  lemma {:induction false} NoLineGainNoMoveGain(g: seq<seq<int>>, d: Direction, n: int)
    requires IsGrid(g) && 0 <= n <= 4
    requires forall i :: 0 <= i < 4 ==> Gain(Extract(LineOf(g, d, i), TowardStart(d))) == 0
    ensures GainUpTo(g, d, n) == 0
  {
    if n > 0 {
      NoLineGainNoMoveGain(g, d, n - 1);
    }
  }

  /**
   * Any merge forces a change: a move that leaves the board as it was earns
   * nothing and does not reach the goal.
   */
  lemma UnchangedMoveMergesNothing(g: seq<seq<int>>, d: Direction)
    requires IsGrid(g) && SlideGrid(g, d) == g
    ensures MoveGain(g, d) == 0 && !MoveReachesGoal(g, d)
  {
    forall i | 0 <= i < 4
      ensures Gain(Extract(LineOf(g, d, i), TowardStart(d))) == 0
      ensures !ReachesGoal(Extract(LineOf(g, d, i), TowardStart(d)))
    {
      SlideGridLines(g, d, i);
      UnchangedSlideMergesNothing(LineOf(g, d, i), TowardStart(d));
    }
    NoLineGainNoMoveGain(g, d, 4);
  }

  /** On a full board without equal neighbours every line is full and has no equal neighbours. */
  lemma StuckLine(g: seq<seq<int>>, d: Direction, i: int)
    requires IsGrid(g) && EmptyCells(g) == [] && !HasAdjacentEqualPair(g) && 0 <= i < 4
    ensures NoZeros(LineOf(g, d, i)) && NoEqualNeighbours(LineOf(g, d, i))
  {
    NoEmptyCellsIffFull(g);
    var line := LineOf(g, d, i);
    forall k | 0 <= k < 3 ensures line[k] != line[k + 1] {
      if Horizontal(d) {
        assert !EqualToNeighbour(g, i, k);
      } else {
        assert !EqualToNeighbour(g, k, i);
      }
    }
  }

  /** Two boards that agree on every line of a direction are the same board. */
  lemma SameLinesSameGrid(g: seq<seq<int>>, h: seq<seq<int>>, d: Direction)
    requires IsGrid(g) && IsGrid(h)
    requires forall i :: 0 <= i < 4 ==> LineOf(h, d, i) == LineOf(g, d, i)
    ensures h == g
  {
    if Horizontal(d) {
      assert forall r :: 0 <= r < 4 ==> h[r] == LineOf(h, d, r);
    } else {
      assert forall c :: 0 <= c < 4 ==> Column(h, c) == LineOf(h, d, c);
      SameColumnsSameGrid(h, g);
    }
  }

  /** On a full board without equal neighbours no move changes anything. */
  lemma StuckBoardIsFixed(g: seq<seq<int>>)
    requires IsGrid(g)
    ensures EmptyCells(g) == [] && !HasAdjacentEqualPair(g) ==> forall d :: SlideGrid(g, d) == g
  {
    if EmptyCells(g) == [] && !HasAdjacentEqualPair(g) {
      forall d {
        StuckLineIsFixed(g, d);
      }
    }
  }

  lemma StuckLineIsFixed(g: seq<seq<int>>, d: Direction)
    requires IsGrid(g) && EmptyCells(g) == [] && !HasAdjacentEqualPair(g)
    ensures SlideGrid(g, d) == g
  {
    var h := SlideGrid(g, d);
    forall i | 0 <= i < 4 ensures LineOf(h, d, i) == LineOf(g, d, i) {
      StuckLine(g, d, i);
      FullLineIsFixed(LineOf(g, d, i), TowardStart(d));
      SlideGridLines(g, d, i);
    }
    SameLinesSameGrid(g, h, d);
  }

  /** If the moved board has no empty cell, line i did not move. */
  lemma FullMovedLineIsFixed(g: seq<seq<int>>, d: Direction, i: int)
    requires IsGrid(g) && 0 <= i < 4
    requires forall r, c :: InBounds(r, c) ==> SlideGrid(g, d)[r][c] != 0
    ensures LineOf(SlideGrid(g, d), d, i) == LineOf(g, d, i)
  {
    var h := SlideGrid(g, d);
    SlideGridLines(g, d, i);
    assert NoZeros(LineOf(h, d, i)) by {
      forall k | 0 <= k < 4 ensures LineOf(h, d, i)[k] != 0 {
        if Horizontal(d) {
          assert InBounds(i, k);
        } else {
          assert InBounds(k, i);
        }
      }
    }
    FullSlideIsFixed(LineOf(g, d, i), TowardStart(d));
  }

  /** A move that changes the board leaves at least one empty cell, so its spawn always adds a tile. */
  lemma MovedBoardHasEmptyCell(g: seq<seq<int>>, d: Direction)
    requires IsGrid(g)
    ensures SlideGrid(g, d) != g ==> EmptyCells(SlideGrid(g, d)) != []
  {
    var h := SlideGrid(g, d);
    NoEmptyCellsIffFull(h);
    if EmptyCells(h) == [] {
      forall i | 0 <= i < 4 ensures LineOf(h, d, i) == LineOf(g, d, i) {
        FullMovedLineIsFixed(g, d, i);
      }
      SameLinesSameGrid(g, h, d);
    }
  }
}
