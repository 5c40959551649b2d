// One line (a row or a column) of the 2048 board: the compress / merge-once /
// pad rule that every move applies, stated as pure functions, together with
// the mirror-image scan that the Right and Down moves run from the far end.

module Line {

  /** The value a merge must produce to win the game. */
  const Goal: int := 2048

  /** A tile value: a power of two, at least 2. */
  predicate IsTile(v: int)
    decreases v
  {
    v == 2 || (v > 2 && v % 2 == 0 && IsTile(v / 2))
  }

  /** Every cell of the line is empty (0) or holds a tile. */
  predicate TileLine(s: seq<int>)
  {
    forall i :: 0 <= i < |s| ==> s[i] == 0 || IsTile(s[i])
  }

  /** The line holds no empty cell. */
  predicate NoZeros(s: seq<int>)
  {
    forall i :: 0 <= i < |s| ==> s[i] != 0
  }

  /** No cell of the line holds a negative value. */
  predicate NonNegative(s: seq<int>)
  {
    forall i :: 0 <= i < |s| ==> s[i] >= 0
  }

  /** No two neighbouring cells of the line hold the same value. */
  predicate NoEqualNeighbours(s: seq<int>)
  {
    forall i :: 0 <= i < |s| - 1 ==> s[i] != s[i + 1]
  }

  /** Non-empty cells come first: nothing non-empty lies beyond an empty cell. */
  predicate PackedAtStart(s: seq<int>)
  {
    forall i, j :: 0 <= i < j < |s| && s[i] == 0 ==> s[j] == 0
  }

  /** Non-empty cells come last: nothing non-empty lies before an empty cell. */
  predicate PackedAtEnd(s: seq<int>)
  {
    forall i, j :: 0 <= i < j < |s| && s[j] == 0 ==> s[i] == 0
  }

  function Sum(s: seq<int>): (total: int)
  {
    if s == [] then 0 else s[0] + Sum(s[1..])
  }

  function Zeros(n: nat): (z: seq<int>)
  {
    seq(n, _ => 0)
  }

  /** The line read from its far end. */
  function Reverse(s: seq<int>): (r: seq<int>)
    ensures |r| == |s|
  {
    if s == [] then [] else [s[|s| - 1]] + Reverse(s[..|s| - 1])
  }

  /** The non-empty cells of the line, in order (JavaScript's `filter(val => val !== 0)`). */
  function Compress(s: seq<int>): (r: seq<int>)
    ensures |r| <= |s|
    ensures NoZeros(r)
  {
    if s == [] then [] else (if s[0] != 0 then [s[0]] else []) + Compress(s[1..])
  }

  /**
   * One merge scan from index 0: two equal neighbours become one tile of
   * twice the value, and the scan continues after the merged tile, so a tile
   * produced by a merge never merges again in the same move.
   */
  function Merge(s: seq<int>): (r: seq<int>)
    ensures |r| <= |s|
    ensures 2 * |r| >= |s|
  {
    if |s| < 2 then s
    else if s[0] == s[1] then [2 * s[0]] + Merge(s[2..])
    else [s[0]] + Merge(s[1..])
  }

  /**
   * The score earned by the scan of Merge: the sum of the merged values. On
   * a line without negative values it is never negative and never more than
   * the line's total, since each merge consumes two cells of that total.
   */
  function Gain(s: seq<int>): (gain: int)
    ensures NonNegative(s) ==> 0 <= gain <= Sum(s)
  {
    if |s| < 2 then 0
    else if s[0] == s[1] then
      assert s[1..][1..] == s[2..];
      2 * s[0] + Gain(s[2..])
    else Gain(s[1..])
  }

  /** Some merge of the scan of Merge produces the goal value, which then shows in the merged line. */
  predicate ReachesGoal(s: seq<int>)
    ensures ReachesGoal(s) ==> Goal in Merge(s)
  {
    |s| >= 2 &&
    if s[0] == s[1] then 2 * s[0] == Goal || ReachesGoal(s[2..]) else ReachesGoal(s[1..])
  }

  /**
   * The scan the Right and Down moves run: it starts at the last cell and
   * walks towards index 0, merging a cell into its left neighbour's place.
   */
  function MergeBack(s: seq<int>): (r: seq<int>)
    ensures |r| <= |s|
    ensures 2 * |r| >= |s|
  {
    if |s| < 2 then s
    else if s[|s| - 1] == s[|s| - 2] then MergeBack(s[..|s| - 2]) + [2 * s[|s| - 1]]
    else MergeBack(s[..|s| - 1]) + [s[|s| - 1]]
  }

  /** The score earned by the scan of MergeBack, bounded like Gain. */
  function GainBack(s: seq<int>): (gain: int)
    ensures NonNegative(s) ==> 0 <= gain <= Sum(s)
  {
    if |s| < 2 then 0
    else if s[|s| - 1] == s[|s| - 2] then
      var pair := s[|s| - 2..];
      SumAppend(s[..|s| - 2], pair);
      assert s[..|s| - 2] + pair == s;
      assert pair[1..][1..] == [];
      assert Sum(pair) == pair[0] + Sum(pair[1..]) == pair[0] + pair[1];
      GainBack(s[..|s| - 2]) + 2 * s[|s| - 1]
    else
      SumAppend(s[..|s| - 1], s[|s| - 1..]);
      assert s[..|s| - 1] + s[|s| - 1..] == s;
      assert s[|s| - 1..][1..] == [];
      GainBack(s[..|s| - 1])
  }

  /** Some merge of the scan of MergeBack produces the goal value, which then shows in the merged line. */
  predicate ReachesGoalBack(s: seq<int>)
    ensures ReachesGoalBack(s) ==> Goal in MergeBack(s)
  {
    |s| >= 2 &&
    if s[|s| - 1] == s[|s| - 2] then ReachesGoalBack(s[..|s| - 2]) || 2 * s[|s| - 1] == Goal
    else ReachesGoalBack(s[..|s| - 1])
  }

  /**
   * The tiles one line presents to the merge scan, nearest the target edge
   * first: the line itself when moving towards index 0 (Left, Up), the line
   * read backwards otherwise (Right, Down).
   */
  function Extract(line: seq<int>, towardStart: bool): (r: seq<int>)
  {
    if towardStart then Compress(line) else Compress(Reverse(line))
  }

  /**
   * The new contents of one line after a move: extract, merge once, pad with
   * empty cells away from the target edge, and put back in the line's order.
   */
  function Slide(line: seq<int>, towardStart: bool): (r: seq<int>)
    ensures |r| == |line|
  {
    var m := Merge(Extract(line, towardStart));
    var packed := m + Zeros(|line| - |m|);
    if towardStart then packed else Reverse(packed)
  }

  // ---------------------------------------------------------------------
  // Sequence facts

  /** Cell i of the reversed line is cell |s| - 1 - i of the line. */
  lemma {:induction false} ReverseAt(s: seq<int>)
    ensures forall i :: 0 <= i < |s| ==> Reverse(s)[i] == s[|s| - 1 - i]
  {
    if s != [] {
      ReverseAt(s[..|s| - 1]);
    }
  }

  lemma {:induction false} ReverseReverse(s: seq<int>)
    ensures Reverse(Reverse(s)) == s
  {
    ReverseAt(s);
    ReverseAt(Reverse(s));
    assert forall i :: 0 <= i < |s| ==> Reverse(Reverse(s))[i] == s[i];
  }

  lemma {:induction false} ReverseAppend(a: seq<int>, b: seq<int>)
    ensures Reverse(a + b) == Reverse(b) + Reverse(a)
  {
    ReverseAt(a + b);
    ReverseAt(a);
    ReverseAt(b);
    var l, r := Reverse(a + b), Reverse(b) + Reverse(a);
    assert |l| == |r|;
    forall i | 0 <= i < |l| ensures l[i] == r[i] {
      if i < |b| { assert r[i] == Reverse(b)[i]; } else { assert r[i] == Reverse(a)[i - |b|]; }
    }
  }

  lemma {:induction false} SumAppend(a: seq<int>, b: seq<int>)
    ensures Sum(a + b) == Sum(a) + Sum(b)
  {
    if a != [] {
      assert (a + b)[1..] == a[1..] + b;
      SumAppend(a[1..], b);
    } else {
      assert a + b == b;
    }
  }

  lemma {:induction false} SumZeros(n: nat)
    ensures Sum(Zeros(n)) == 0
  {
    if n > 0 {
      assert Zeros(n)[1..] == Zeros(n - 1);
      SumZeros(n - 1);
    }
  }

  lemma {:induction false} SumReverse(s: seq<int>)
    ensures Sum(Reverse(s)) == Sum(s)
  {
    if s != [] {
      var n := |s|;
      assert Reverse(s) == [s[n - 1]] + Reverse(s[..n - 1]);
      SumAppend([s[n - 1]], Reverse(s[..n - 1]));
      SumReverse(s[..n - 1]);
      assert s == s[..n - 1] + [s[n - 1]];
      SumAppend(s[..n - 1], [s[n - 1]]);
    }
  }

  lemma {:induction false} CompressAppend(a: seq<int>, b: seq<int>)
    ensures Compress(a + b) == Compress(a) + Compress(b)
  {
    if a == [] {
      assert a + b == b;
    } else {
      assert (a + b)[1..] == a[1..] + b;
      CompressAppend(a[1..], b);
    }
  }

  /** A line with no empty cell is its own compression. */
  lemma {:induction false} CompressNoZeros(s: seq<int>)
    requires NoZeros(s)
    ensures Compress(s) == s
  {
    if s != [] {
      CompressNoZeros(s[1..]);
    }
  }

  lemma {:induction false} CompressZeros(n: nat)
    ensures Compress(Zeros(n)) == []
  {
    if n > 0 {
      assert Zeros(n)[1..] == Zeros(n - 1);
      CompressZeros(n - 1);
    }
  }

  lemma {:induction false} CompressSum(s: seq<int>)
    ensures Sum(Compress(s)) == Sum(s)
  {
    if s != [] {
      CompressSum(s[1..]);
      SumAppend(if s[0] != 0 then [s[0]] else [], Compress(s[1..]));
    }
  }

  /** Reading the line backwards and dropping the empty cells commute. */
  lemma {:induction false} CompressReverse(s: seq<int>)
    ensures Compress(Reverse(s)) == Reverse(Compress(s))
  {
    if s != [] {
      var n := |s|;
      var last := if s[n - 1] != 0 then [s[n - 1]] else [];
      assert Reverse(s) == [s[n - 1]] + Reverse(s[..n - 1]);
      CompressAppend([s[n - 1]], Reverse(s[..n - 1]));
      assert Compress([s[n - 1]]) == last;
      CompressReverse(s[..n - 1]);
      assert s == s[..n - 1] + [s[n - 1]];
      CompressAppend(s[..n - 1], [s[n - 1]]);
      ReverseAppend(Compress(s[..n - 1]), last);
      ReverseAt(last);
      assert Reverse(last) == last;
    }
  }

  lemma {:induction false} CompressTiles(s: seq<int>)
    requires TileLine(s)
    ensures forall i :: 0 <= i < |Compress(s)| ==> IsTile(Compress(s)[i])
  {
    if s != [] {
      CompressTiles(s[1..]);
    }
  }

  // ---------------------------------------------------------------------
  // The merge scan

  /** The merge scan keeps the total of the tile values: each merge adds x + x as 2x. */
  lemma {:induction false} MergeSum(s: seq<int>)
    ensures Sum(Merge(s)) == Sum(s)
  {
    if |s| >= 2 {
      if s[0] == s[1] {
        MergeSum(s[2..]);
        assert s[1..][1..] == s[2..];
      } else {
        MergeSum(s[1..]);
      }
    }
  }

  /** Merging tiles yields tiles: a power of two doubled is a power of two. */
  lemma {:induction false} MergeTiles(s: seq<int>)
    requires forall i :: 0 <= i < |s| ==> IsTile(s[i])
    ensures forall i :: 0 <= i < |Merge(s)| ==> IsTile(Merge(s)[i])
  {
    if |s| >= 2 {
      if s[0] == s[1] {
        MergeTiles(s[2..]);
        assert IsTile(2 * s[0]) by { assert (2 * s[0]) / 2 == s[0]; }
      } else {
        MergeTiles(s[1..]);
      }
    }
  }

  /** Merging non-empty cells never produces an empty cell. */
  lemma {:induction false} MergeNoZeros(s: seq<int>)
    requires NoZeros(s)
    ensures NoZeros(Merge(s))
  {
    if |s| >= 2 {
      if s[0] == s[1] { MergeNoZeros(s[2..]); } else { MergeNoZeros(s[1..]); }
    }
  }

  /**
   * On positive tiles, the scan earns points exactly when it merges
   * something, that is exactly when it shortens the line.
   */
  lemma {:induction false} GainIffMerged(s: seq<int>)
    requires forall i :: 0 <= i < |s| ==> s[i] > 0
    ensures Gain(s) > 0 <==> |Merge(s)| < |s|
  {
    if |s| >= 2 {
      if s[0] != s[1] {
        GainIffMerged(s[1..]);
      }
    }
  }

  /** A scan that merges nothing earns nothing and cannot reach the goal. */
  lemma {:induction false} NoMergeNoGain(s: seq<int>)
    requires |Merge(s)| == |s|
    ensures Gain(s) == 0 && !ReachesGoal(s)
  {
    if |s| >= 2 {
      if s[0] != s[1] {
        NoMergeNoGain(s[1..]);
      }
    }
  }

  /** A line has no equal neighbours when its first two cells differ and its tail has none. */
  lemma NoEqualNeighboursCons(s: seq<int>)
    requires |s| >= 2
    ensures NoEqualNeighbours(s) == (s[0] != s[1] && NoEqualNeighbours(s[1..]))
  {
    if s[0] != s[1] && NoEqualNeighbours(s[1..]) {
      forall i | 0 <= i < |s| - 1 ensures s[i] != s[i + 1] {
        if i > 0 {
          assert s[1..][i - 1] == s[i] && s[1..][i] == s[i + 1];
        }
      }
    }
    if NoEqualNeighbours(s) {
      forall i | 0 <= i < |s[1..]| - 1 ensures s[1..][i] != s[1..][i + 1] {
        assert s[1..][i] == s[i + 1] && s[1..][i + 1] == s[i + 2];
      }
    }
  }

  /** A line with no equal neighbours is left as it is by the merge scan, and conversely. */
  lemma {:induction false} MergeFixedIff(s: seq<int>)
    ensures Merge(s) == s <==> NoEqualNeighbours(s)
  {
    if |s| >= 2 {
      MergeFixedIff(s[1..]);
      NoEqualNeighboursCons(s);
      if s[0] == s[1] {
        assert |Merge(s)| < |s|;
      } else {
        assert Merge(s) == [s[0]] + Merge(s[1..]);
        assert s == [s[0]] + s[1..];
      }
    }
  }

  /** Dropping the first k cells of the reversed line reverses all but the last k. */
  lemma {:induction false} ReverseDrop(s: seq<int>, k: nat)
    requires k <= |s|
    ensures Reverse(s)[k..] == Reverse(s[..|s| - k])
  {
    var l, r := Reverse(s)[k..], Reverse(s[..|s| - k]);
    ReverseAt(s);
    ReverseAt(s[..|s| - k]);
    forall i | 0 <= i < |l| ensures l[i] == r[i] {
      assert l[i] == Reverse(s)[k + i] == s[|s| - 1 - k - i];
    }
  }

  /**
   * The Right/Down scan, run from the far end, is the mirror image of the
   * Left/Up scan: the same merged line, read backwards.
   */
  lemma {:induction false} MergeBackMirrors(s: seq<int>)
    ensures MergeBack(s) == Reverse(Merge(Reverse(s)))
  {
    var n := |s|;
    if n < 2 {
      ReverseReverse(s);
    } else {
      var k := if s[n - 1] == s[n - 2] then 2 else 1;
      var front := s[..n - k];
      ReverseDrop(s, k);
      MergeBackMirrors(front);
      var head := if k == 2 then 2 * s[n - 1] else s[n - 1];
      assert Merge(Reverse(s)) == [head] + Merge(Reverse(front));
      ReverseAppend([head], Merge(Reverse(front)));
    }
  }

  /** The scan from the far end earns the same score as its mirror image. */
  lemma {:induction false} GainBackMirrors(s: seq<int>)
    ensures GainBack(s) == Gain(Reverse(s))
  {
    var n := |s|;
    if n >= 2 {
      var k := if s[n - 1] == s[n - 2] then 2 else 1;
      ReverseDrop(s, k);
      GainBackMirrors(s[..n - k]);
    }
  }

  /** The scan from the far end reaches the goal exactly when its mirror image does. */
  lemma {:induction false} GoalBackMirrors(s: seq<int>)
    ensures ReachesGoalBack(s) == ReachesGoal(Reverse(s))
  {
    var n := |s|;
    if n >= 2 {
      var k := if s[n - 1] == s[n - 2] then 2 else 1;
      ReverseDrop(s, k);
      GoalBackMirrors(s[..n - k]);
    }
  }

  // ---------------------------------------------------------------------
  // A whole line

  /**
   * What the Right/Down code computes (compress, scan from the far end,
   * prepend empty cells) is the mirror-image slide, with the same score and
   * the same goal check.
   */
  lemma {:induction false} BackwardSlide(line: seq<int>)
    ensures |MergeBack(Compress(line))| <= |line|
    ensures Zeros(|line| - |MergeBack(Compress(line))|) + MergeBack(Compress(line)) == Slide(line, false)
    ensures GainBack(Compress(line)) == Gain(Extract(line, false))
    ensures ReachesGoalBack(Compress(line)) == ReachesGoal(Extract(line, false))
  {
    var c := Compress(line);
    var b := MergeBack(c);
    CompressReverse(line);
    assert Extract(line, false) == Reverse(c);
    GainBackMirrors(c);
    GoalBackMirrors(c);
    var m := Merge(Reverse(c));
    assert m == Reverse(b) by {
      MergeBackMirrors(c);
      ReverseReverse(m);
    }
    var z := Zeros(|line| - |m|);
    calc {
      Slide(line, false);
      Reverse(m + z);
      { ReverseAppend(m, z); }
      Reverse(z) + Reverse(m);
      { ReverseAt(z); assert Reverse(z) == z; ReverseReverse(b); }
      z + b;
    }
  }

  /** The score of one line's slide, on a line of tiles, lies between 0 and the line's total. */
  lemma {:induction false} SlideGainBounds(line: seq<int>, towardStart: bool)
    requires TileLine(line)
    ensures 0 <= Gain(Extract(line, towardStart)) <= Sum(line)
  {
    var r := if towardStart then line else Reverse(line);
    ReverseAt(line);
    assert TileLine(r);
    CompressTiles(r);
    CompressSum(r);
    SumReverse(line);
  }

  /** A slide keeps every cell empty or a tile. */
  lemma {:induction false} SlideTiles(line: seq<int>, towardStart: bool)
    requires TileLine(line)
    ensures TileLine(Slide(line, towardStart))
  {
    var r := if towardStart then line else Reverse(line);
    ReverseAt(line);
    assert TileLine(r);
    CompressTiles(r);
    MergeTiles(Compress(r));
    var m := Merge(Compress(r));
    var packed := m + Zeros(|line| - |m|);
    assert TileLine(packed);
    ReverseAt(packed);
  }

  /** A slide keeps the total of the tile values on the line. */
  lemma {:induction false} SlideSum(line: seq<int>, towardStart: bool)
    ensures Sum(Slide(line, towardStart)) == Sum(line)
  {
    var r := if towardStart then line else Reverse(line);
    var m := Merge(Compress(r));
    var packed := m + Zeros(|line| - |m|);
    assert Extract(line, towardStart) == Compress(r);
    assert Sum(packed) == Sum(r) by {
      SumAppend(m, Zeros(|line| - |m|));
      SumZeros(|line| - |m|);
      MergeSum(Compress(r));
      CompressSum(r);
    }
    if towardStart {
      assert Slide(line, towardStart) == packed;
    } else {
      assert Slide(line, towardStart) == Reverse(packed);
      SumReverse(packed);
      SumReverse(line);
    }
  }

  /** After a slide every tile sits against the target edge, with no gap. */
  lemma {:induction false} SlidePacked(line: seq<int>, towardStart: bool)
    ensures towardStart ==> PackedAtStart(Slide(line, towardStart))
    ensures !towardStart ==> PackedAtEnd(Slide(line, towardStart))
  {
    var m := Merge(Extract(line, towardStart));
    MergeNoZeros(Extract(line, towardStart));
    var packed := m + Zeros(|line| - |m|);
    assert PackedAtStart(packed);
    if !towardStart {
      var s := Slide(line, false);
      assert s == Reverse(packed);
      ReverseAt(packed);
      forall i, j | 0 <= i < j < |s| && s[j] == 0 ensures s[i] == 0 {
        assert packed[|s| - 1 - j] == 0;
      }
    }
  }

  /**
   * Any merge forces a visible change: if the slide leaves the line as it
   * was, the scan merged nothing, earned nothing and did not reach the goal.
   */
  lemma {:induction false} UnchangedSlideMergesNothing(line: seq<int>, towardStart: bool)
    requires Slide(line, towardStart) == line
    ensures Gain(Extract(line, towardStart)) == 0
    ensures !ReachesGoal(Extract(line, towardStart))
  {
    var e := Extract(line, towardStart);
    var m := Merge(e);
    MergeNoZeros(e);
    var packed := m + Zeros(|line| - |m|);
    CompressAppend(m, Zeros(|line| - |m|));
    CompressNoZeros(m);
    CompressZeros(|line| - |m|);
    assert Compress(packed) == m;
    if !towardStart {
      ReverseReverse(packed);
    }
    assert e == m;
    NoMergeNoGain(e);
  }

  /** A line with no empty cell and no equal neighbours cannot slide either way. */
  lemma {:induction false} FullLineIsFixed(line: seq<int>, towardStart: bool)
    requires NoZeros(line) && NoEqualNeighbours(line)
    ensures Slide(line, towardStart) == line
  {
    if towardStart {
      CompressNoZeros(line);
      MergeFixedIff(line);
      assert Zeros(0) == [];
    } else {
      var r := Reverse(line);
      ReverseAt(line);
      assert NoZeros(r);
      assert NoEqualNeighbours(r) by {
        forall i | 0 <= i < |r| - 1 ensures r[i] != r[i + 1] {
          assert r[i] == line[|line| - 1 - i] && r[i + 1] == line[|line| - 2 - i];
        }
      }
      CompressNoZeros(r);
      MergeFixedIff(r);
      assert Zeros(0) == [];
      assert r + Zeros(0) == r;
      ReverseReverse(line);
    }
  }

  /** Compression keeps the length only when there is nothing to drop. */
  lemma {:induction false} CompressKeepsLength(s: seq<int>)
    requires |Compress(s)| == |s|
    ensures Compress(s) == s
  {
    if s != [] {
      assert s[0] != 0;
      CompressKeepsLength(s[1..]);
    }
  }

  /** A merge scan keeps the length only when it merges nothing, and then changes nothing. */
  lemma {:induction false} MergeKeepsLength(s: seq<int>)
    requires |Merge(s)| == |s|
    ensures Merge(s) == s
  {
    if |s| >= 2 {
      assert s[0] != s[1];
      MergeKeepsLength(s[1..]);
    }
  }

  /** A slide whose result has no empty cell moved nothing. */
  lemma {:induction false} FullSlideIsFixed(line: seq<int>, towardStart: bool)
    ensures NoZeros(Slide(line, towardStart)) ==> Slide(line, towardStart) == line
  {
    var r := if towardStart then line else Reverse(line);
    var e := Compress(r);
    var m := Merge(e);
    var packed := m + Zeros(|line| - |m|);
    assert Slide(line, towardStart) == if towardStart then packed else Reverse(packed);
    if |m| < |line| {
      assert packed[|m|] == 0;
      if !towardStart {
        ReverseAt(packed);
        assert Reverse(packed)[|line| - 1 - |m|] == 0;
      }
    } else {
      CompressKeepsLength(r);
      MergeKeepsLength(e);
      assert Zeros(0) == [];
      assert packed == r;
      ReverseReverse(line);
    }
  }

  /** A merge that produces the goal value leaves a goal tile in the slid line. */
  lemma {:induction false} GoalInSlide(line: seq<int>, towardStart: bool)
    ensures ReachesGoal(Extract(line, towardStart)) ==> Goal in Slide(line, towardStart)
  {
    var m := Merge(Extract(line, towardStart));
    var packed := m + Zeros(|line| - |m|);
    assert Slide(line, towardStart) == if towardStart then packed else Reverse(packed);
    if ReachesGoal(Extract(line, towardStart)) {
      var k :| 0 <= k < |m| && m[k] == Goal;
      assert packed[k] == Goal;
      if !towardStart {
        ReverseAt(packed);
        assert Reverse(packed)[|packed| - 1 - k] == Goal;
      }
    }
  }

  // ---------------------------------------------------------------------
  // Examples of the merge-once rule

  /** [2,2,2,2] moved left is [4,4,0,0] (never [8,0,0,0]) and scores 8. */
  lemma {:induction false} LeftExample()
    ensures Slide([2, 2, 2, 2], true) == [4, 4, 0, 0]
    ensures Gain(Extract([2, 2, 2, 2], true)) == 8
  {
    var s := [2, 2, 2, 2];
    CompressNoZeros(s);
    assert s[2..] == [2, 2] && s[2..][2..] == [];
    assert Merge(s) == [4, 4];
    assert Zeros(2) == [0, 0];
  }

  /**
   * A second merge pass over a move's output can still merge: the rule is
   * "merge once per move", not "the output has no equal neighbours".
   */
  lemma {:induction false} MergeOnceExample()
    ensures Merge([2, 2, 2, 2]) == [4, 4]
    ensures Merge(Merge([2, 2, 2, 2])) == [8]
  {
    var s := [2, 2, 2, 2];
    assert s[2..] == [2, 2] && s[2..][2..] == [];
    assert Merge(s) == [4, 4];
    assert [4, 4][2..] == [];
    assert Merge([4, 4]) == [8];
  }

  /** [2,2,2,2] moved right is [0,0,4,4]. */
  lemma {:induction false} RightExample()
    ensures Slide([2, 2, 2, 2], false) == [0, 0, 4, 4]
  {
    var s := [2, 2, 2, 2];
    ReverseAt(s);
    assert Reverse(s) == s;
    CompressNoZeros(s);
    assert s[2..] == [2, 2] && s[2..][2..] == [];
    assert Merge(s) == [4, 4];
    assert Zeros(2) == [0, 0];
    assert Extract(s, false) == s;
    assert Merge(Extract(s, false)) + Zeros(2) == [4, 4, 0, 0];
    assert Slide(s, false) == Reverse([4, 4, 0, 0]);
    ReverseAt([4, 4, 0, 0]);
    assert Reverse([4, 4, 0, 0]) == [0, 0, 4, 4];
  }

  /** [0,2,0,2] moved right is [0,0,0,4]. */
  lemma {:induction false} RightGapExample()
    ensures Slide([0, 2, 0, 2], false) == [0, 0, 0, 4]
  {
    var s := [0, 2, 0, 2];
    ReverseAt(s);
    assert Reverse(s) == [2, 0, 2, 0];
    var r := [2, 0, 2, 0];
    assert r[1..] == [0, 2, 0] && r[1..][1..] == [2, 0] && r[1..][1..][1..] == [0];
    assert r[1..][1..][1..][1..] == [];
    assert Compress(r) == [2, 2];
    assert Merge([2, 2]) == [4];
    assert Zeros(3) == [0, 0, 0];
    assert Extract(s, false) == [2, 2];
    assert Merge(Extract(s, false)) + Zeros(3) == [4, 0, 0, 0];
    assert Slide(s, false) == Reverse([4, 0, 0, 0]);
    ReverseAt([4, 0, 0, 0]);
    assert Reverse([4, 0, 0, 0]) == [0, 0, 0, 4];
  }
}
