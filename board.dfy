/**
 * The 4x4 board as a value: shift and merge along an axis, the score, and
 * the game-over rule.
 */
module Board {
  import opened Lines

  predicate IsGrid(g: seq<seq<Rank>>) {
    |g| == SIZE && forall i | 0 <= i < SIZE :: |g[i]| == SIZE
  }

  /** The game matrix: SIZE rows of SIZE cells, g[i][j] = matrix[i][j]. */
  type Grid = g: seq<seq<Rank>> | IsGrid(g)
    witness [[0, 0, 0, 0], [0, 0, 0, 0], [0, 0, 0, 0], [0, 0, 0, 0]]

  /** X: along a row (left/right). Y: along a column (top/bottom). */
  datatype Axis = X | Y

  datatype Op = Shift | Merge

  function Column(g: Grid, j: int): seq<Rank>
    requires 0 <= j < SIZE
  {
    seq(SIZE, i requires 0 <= i < SIZE => g[i][j])
  }

  /** Line l along the axis: row l for X, column l for Y. */
  function Line(g: Grid, axis: Axis, l: int): (s: seq<Rank>)
    requires 0 <= l < SIZE
    ensures |s| == SIZE
  {
    if axis == X then g[l] else Column(g, l)
  }

  /** The line along the axis that holds cell (i, j). */
  function LineOf(axis: Axis, i: int, j: int): int {
    if axis == X then i else j
  }

  /** The position of cell (i, j) within that line. */
  function PlaceOf(axis: Axis, i: int, j: int): int {
    if axis == X then j else i
  }

  function ApplyLine(op: Op, s: seq<Rank>, opp: bool): (r: seq<Rank>)
    ensures |r| == |s|
  {
    match op
    case Shift => ShiftLine(s, opp)
    case Merge => MergeLine(s, opp)
  }

  /** shift_x, shift_y, merge_x and merge_y on a value: the line operation on every line along the axis. */
  function Apply(g: Grid, op: Op, axis: Axis, opp: bool): Grid {
    seq(SIZE, i requires 0 <= i < SIZE =>
      seq(SIZE, j requires 0 <= j < SIZE =>
        ApplyLine(op, Line(g, axis, LineOf(axis, i, j)), opp)[PlaceOf(axis, i, j)]))
  }

  function Transpose(g: Grid): Grid {
    seq(SIZE, i requires 0 <= i < SIZE => Column(g, i))
  }

  function EmptyGrid(): Grid {
    seq(SIZE, _ => Zeros(SIZE))
  }

  predicate HasRoom(g: Grid) {
    exists i, j | 0 <= i < SIZE && 0 <= j < SIZE :: g[i][j] == 0
  }

  /** Every cell is below the largest rank: merging cannot wrap around. */
  predicate Bounded(g: Grid) {
    forall i, j | 0 <= i < SIZE && 0 <= j < SIZE :: g[i][j] < MAX_RANK
  }

  /** The sum of f over the first n lines along the axis. */
  function LinesTotal(g: Grid, axis: Axis, f: Rank -> nat, n: nat): nat
    requires n <= SIZE
  {
    if n == 0 then 0 else LinesTotal(g, axis, f, n - 1) + Sum(Line(g, axis, n - 1), f)
  }

  /** The sum of f over all cells. */
  function Total(g: Grid, f: Rank -> nat): nat {
    LinesTotal(g, X, f, SIZE)
  }

  function CellScore(r: Rank): nat {
    Pow2(r)
  }

  /** calculate_score: the sum over all cells of BASE^cell, empty cells included. */
  function Score(g: Grid): nat {
    Total(g, CellScore)
  }

  /** Neither a shift nor a merge along the axis toward the given end changes the board. */
  predicate Stuck(g: Grid, axis: Axis, opp: bool) {
    Apply(g, Shift, axis, opp) == g && Apply(g, Merge, axis, opp) == g
  }

  /** is_game_over: no shift and no merge in any of the four directions succeeds. */
  predicate GameOver(g: Grid) {
    Stuck(g, X, false) && Stuck(g, X, true) && Stuck(g, Y, false) && Stuck(g, Y, true)
  }

  // ---------------------------------------------------------------------
  // Lines of a board

  /** Line l of the result is the line operation applied to line l. */
  lemma ApplyLineAt(g: Grid, op: Op, axis: Axis, opp: bool, l: int)
    requires 0 <= l < SIZE
    ensures Line(Apply(g, op, axis, opp), axis, l) == ApplyLine(op, Line(g, axis, l), opp)
  {
  }

  lemma LinesEqual(g: Grid, h: Grid, axis: Axis)
    requires forall l | 0 <= l < SIZE :: Line(g, axis, l) == Line(h, axis, l)
    ensures g == h
  {
    forall i | 0 <= i < SIZE
      ensures g[i] == h[i]
    {
      forall j | 0 <= j < SIZE
        ensures g[i][j] == h[i][j]
      {
        assert Line(g, axis, LineOf(axis, i, j))[PlaceOf(axis, i, j)] == g[i][j];
        assert Line(h, axis, LineOf(axis, i, j))[PlaceOf(axis, i, j)] == h[i][j];
      }
    }
  }

  /** An operation leaves the board as it is exactly when it leaves every line along the axis as it is. */
  lemma ApplyFixedIff(g: Grid, op: Op, axis: Axis, opp: bool)
    ensures Apply(g, op, axis, opp) == g
        <==> forall l | 0 <= l < SIZE :: ApplyLine(op, Line(g, axis, l), opp) == Line(g, axis, l)
  {
    var r := Apply(g, op, axis, opp);
    forall l | 0 <= l < SIZE
      ensures Line(r, axis, l) == ApplyLine(op, Line(g, axis, l), opp)
    {
      ApplyLineAt(g, op, axis, opp, l);
    }
    if forall l | 0 <= l < SIZE :: ApplyLine(op, Line(g, axis, l), opp) == Line(g, axis, l) {
      LinesEqual(r, g, axis);
    }
  }

  /** Y operations are the X operations on the transposed board. */
  lemma YIsTransposedX(g: Grid, op: Op, opp: bool)
    ensures Apply(g, op, Y, opp) == Transpose(Apply(Transpose(g), op, X, opp))
  {
    var t := Transpose(g);
    forall l | 0 <= l < SIZE
      ensures Line(Apply(g, op, Y, opp), Y, l) == Line(Transpose(Apply(t, op, X, opp)), Y, l)
    {
      assert Column(g, l) == t[l];
      ApplyLineAt(g, op, Y, opp, l);
      ApplyLineAt(t, op, X, opp, l);
    }
    LinesEqual(Apply(g, op, Y, opp), Transpose(Apply(t, op, X, opp)), Y);
  }

  // ---------------------------------------------------------------------
  // Sums over the board

  lemma Sum4(s: seq<Rank>, f: Rank -> nat)
    requires |s| == 4
    ensures Sum(s, f) == f(s[0]) + f(s[1]) + f(s[2]) + f(s[3])
  {
    assert s[1..][1..] == s[2..];
    assert s[2..][1..] == s[3..];
    assert s[3..][1..] == [];
    assert Sum(s[3..], f) == f(s[3]);
    assert Sum(s[2..], f) == f(s[2]) + f(s[3]);
    assert Sum(s[1..], f) == f(s[1]) + f(s[2]) + f(s[3]);
  }

  lemma TotalUnfold(g: Grid, axis: Axis, f: Rank -> nat)
    ensures LinesTotal(g, axis, f, SIZE)
         == Sum(Line(g, axis, 0), f) + Sum(Line(g, axis, 1), f)
          + Sum(Line(g, axis, 2), f) + Sum(Line(g, axis, 3), f)
  {
    assert LinesTotal(g, axis, f, 1) == Sum(Line(g, axis, 0), f);
    assert LinesTotal(g, axis, f, 2) == LinesTotal(g, axis, f, 1) + Sum(Line(g, axis, 1), f);
    assert LinesTotal(g, axis, f, 3) == LinesTotal(g, axis, f, 2) + Sum(Line(g, axis, 2), f);
    assert LinesTotal(g, axis, f, 4) == LinesTotal(g, axis, f, 3) + Sum(Line(g, axis, 3), f);
  }

  /** Summing row by row or column by column gives the same total. */
  lemma TotalByColumns(g: Grid, f: Rank -> nat)
    ensures LinesTotal(g, Y, f, SIZE) == Total(g, f)
  {
    TotalUnfold(g, X, f);
    TotalUnfold(g, Y, f);
    forall l | 0 <= l < SIZE
      ensures Sum(Line(g, X, l), f) == f(g[l][0]) + f(g[l][1]) + f(g[l][2]) + f(g[l][3])
      ensures Sum(Line(g, Y, l), f) == f(g[0][l]) + f(g[1][l]) + f(g[2][l]) + f(g[3][l])
    {
      Sum4(Line(g, X, l), f);
      Sum4(Line(g, Y, l), f);
    }
  }

  lemma {:induction false} LinesTotalSame(g: Grid, h: Grid, axis: Axis, f: Rank -> nat, n: nat)
    requires n <= SIZE
    requires forall l | 0 <= l < n :: Sum(Line(g, axis, l), f) == Sum(Line(h, axis, l), f)
    ensures LinesTotal(g, axis, f, n) == LinesTotal(h, axis, f, n)
  {
    if n > 0 {
      LinesTotalSame(g, h, axis, f, n - 1);
    }
  }

  lemma {:induction false} TotalRowUpdate(g: Grid, i: int, row: seq<Rank>, f: Rank -> nat, n: nat)
    requires 0 <= i < SIZE && |row| == SIZE && n <= SIZE
    ensures var h: Grid := g[i := row];
      LinesTotal(h, X, f, n) + (if i < n then Sum(g[i], f) else 0)
        == LinesTotal(g, X, f, n) + (if i < n then Sum(row, f) else 0)
  {
    if n > 0 {
      TotalRowUpdate(g, i, row, f, n - 1);
    }
  }

  /** A board operation keeps any total that each of its line operations keeps. */
  lemma TotalKept(g: Grid, op: Op, axis: Axis, opp: bool, f: Rank -> nat)
    requires forall l | 0 <= l < SIZE :: Sum(ApplyLine(op, Line(g, axis, l), opp), f) == Sum(Line(g, axis, l), f)
    ensures Total(Apply(g, op, axis, opp), f) == Total(g, f)
  {
    var r := Apply(g, op, axis, opp);
    forall l | 0 <= l < SIZE
      ensures Sum(Line(r, axis, l), f) == Sum(Line(g, axis, l), f)
    {
      ApplyLineAt(g, op, axis, opp, l);
    }
    LinesTotalSame(r, g, axis, f, SIZE);
    TotalByColumns(r, f);
    TotalByColumns(g, f);
  }

  /** The tile value of a board: the sum of BASE^rank over the non-empty cells. */
  function TileValue(g: Grid): nat {
    Total(g, Value)
  }

  /** The number of tiles on a board. */
  function TileCount(g: Grid): nat {
    Total(g, IsTile)
  }

  /** The number of merges a merge along the axis makes, over all lines. */
  function MergesOnBoard(g: Grid, axis: Axis, opp: bool, n: nat): nat
    requires n <= SIZE
  {
    if n == 0 then 0 else MergesOnBoard(g, axis, opp, n - 1) + MergeCount(Line(g, axis, n - 1), opp)
  }

  lemma BoundedLine(g: Grid, axis: Axis, l: int)
    requires Bounded(g) && 0 <= l < SIZE
    ensures BelowMax(Line(g, axis, l))
  {
  }

  /** shift_x and shift_y keep the tile value and the number of tiles. */
  lemma ShiftKeepsTiles(g: Grid, axis: Axis, opp: bool)
    ensures TileValue(Apply(g, Shift, axis, opp)) == TileValue(g)
    ensures TileCount(Apply(g, Shift, axis, opp)) == TileCount(g)
  {
    forall l | 0 <= l < SIZE
      ensures Sum(ApplyLine(Shift, Line(g, axis, l), opp), Value) == Sum(Line(g, axis, l), Value)
      ensures Sum(ApplyLine(Shift, Line(g, axis, l), opp), IsTile) == Sum(Line(g, axis, l), IsTile)
    {
      ShiftKeepsSum(Line(g, axis, l), opp, Value);
      ShiftKeepsSum(Line(g, axis, l), opp, IsTile);
    }
    TotalKept(g, Shift, axis, opp, Value);
    TotalKept(g, Shift, axis, opp, IsTile);
  }

  /** merge_x and merge_y keep the tile value of the board. */
  lemma MergeKeepsTileValue(g: Grid, axis: Axis, opp: bool)
    requires Bounded(g)
    ensures TileValue(Apply(g, Merge, axis, opp)) == TileValue(g)
  {
    forall l | 0 <= l < SIZE
      ensures Sum(ApplyLine(Merge, Line(g, axis, l), opp), Value) == Sum(Line(g, axis, l), Value)
    {
      BoundedLine(g, axis, l);
      MergeKeepsValue(Line(g, axis, l), opp);
    }
    TotalKept(g, Merge, axis, opp, Value);
  }

  lemma {:induction false} MergesRemoveTiles(g: Grid, axis: Axis, opp: bool, n: nat)
    requires Bounded(g) && n <= SIZE
    ensures LinesTotal(Apply(g, Merge, axis, opp), axis, IsTile, n) + MergesOnBoard(g, axis, opp, n)
         == LinesTotal(g, axis, IsTile, n)
  {
    if n > 0 {
      MergesRemoveTiles(g, axis, opp, n - 1);
      ApplyLineAt(g, Merge, axis, opp, n - 1);
      BoundedLine(g, axis, n - 1);
      MergeCountsTiles(Line(g, axis, n - 1), opp);
    }
  }

  /** merge_x and merge_y remove one tile per merge. */
  lemma MergeCountsBoardTiles(g: Grid, axis: Axis, opp: bool)
    requires Bounded(g)
    ensures TileCount(Apply(g, Merge, axis, opp)) + MergesOnBoard(g, axis, opp, SIZE) == TileCount(g)
  {
    MergesRemoveTiles(g, axis, opp, SIZE);
    TotalByColumns(g, IsTile);
    TotalByColumns(Apply(g, Merge, axis, opp), IsTile);
  }

  lemma {:induction false} MergesDropTiles(g: Grid, axis: Axis, opp: bool, n: nat)
    requires n <= SIZE
    ensures LinesTotal(Apply(g, Merge, axis, opp), axis, IsTile, n) + MergesOnBoard(g, axis, opp, n)
         <= LinesTotal(g, axis, IsTile, n)
  {
    if n > 0 {
      MergesDropTiles(g, axis, opp, n - 1);
      ApplyLineAt(g, Merge, axis, opp, n - 1);
      MergeDropsTiles(Line(g, axis, n - 1), opp);
    }
  }

  /** With any ranks, each merge removes at least one tile from the board. */
  lemma MergeDropsBoardTiles(g: Grid, axis: Axis, opp: bool)
    ensures TileCount(Apply(g, Merge, axis, opp)) + MergesOnBoard(g, axis, opp, SIZE) <= TileCount(g)
  {
    MergesDropTiles(g, axis, opp, SIZE);
    TotalByColumns(g, IsTile);
    TotalByColumns(Apply(g, Merge, axis, opp), IsTile);
  }

  lemma {:induction false} MergesZeroIff(g: Grid, axis: Axis, opp: bool, n: nat)
    requires n <= SIZE
    ensures MergesOnBoard(g, axis, opp, n) == 0
        <==> forall l | 0 <= l < n :: MergeLine(Line(g, axis, l), opp) == Line(g, axis, l)
  {
    if n > 0 {
      MergesZeroIff(g, axis, opp, n - 1);
      MergeFixedIff(Line(g, axis, n - 1), opp);
    }
  }

  /**
   * merge_x and merge_y report no change exactly when no line along the axis
   * holds two neighbouring equal tiles, and then they make no merge.
   */
  lemma MergeFixedOnBoard(g: Grid, axis: Axis, opp: bool)
    ensures Apply(g, Merge, axis, opp) == g
        <==> forall l | 0 <= l < SIZE :: !HasPair(Line(g, axis, l))
    ensures Apply(g, Merge, axis, opp) == g <==> MergesOnBoard(g, axis, opp, SIZE) == 0
  {
    ApplyFixedIff(g, Merge, axis, opp);
    MergesZeroIff(g, axis, opp, SIZE);
    forall l | 0 <= l < SIZE
      ensures MergeLine(Line(g, axis, l), opp) == Line(g, axis, l) <==> !HasPair(Line(g, axis, l))
    {
      MergeFixedIff(Line(g, axis, l), opp);
    }
  }

  /**
   * shift_x and shift_y: every line along the axis has its tiles contiguous at
   * the target end, in their original order, and nothing else on the board.
   */
  lemma ShiftShapeOnBoard(g: Grid, axis: Axis, opp: bool, l: int)
    requires 0 <= l < SIZE
    ensures Packed(Line(Apply(g, Shift, axis, opp), axis, l), opp)
    ensures NonZero(Line(Apply(g, Shift, axis, opp), axis, l)) == NonZero(Line(g, axis, l))
  {
    ApplyLineAt(g, Shift, axis, opp, l);
    ShiftLineShape(Line(g, axis, l), opp);
  }

  /** shift_x and shift_y report no change exactly when every line is already packed. */
  lemma ShiftFixedOnBoard(g: Grid, axis: Axis, opp: bool)
    ensures Apply(g, Shift, axis, opp) == g
        <==> forall l | 0 <= l < SIZE :: Packed(Line(g, axis, l), opp)
  {
    ApplyFixedIff(g, Shift, axis, opp);
    forall l | 0 <= l < SIZE
      ensures ShiftLine(Line(g, axis, l), opp) == Line(g, axis, l) <==> Packed(Line(g, axis, l), opp)
    {
      ShiftFixedIff(Line(g, axis, l), opp);
    }
  }

  /** A second shift in the same direction reports no change. */
  lemma ShiftIdempotentOnBoard(g: Grid, axis: Axis, opp: bool)
    ensures Apply(Apply(g, Shift, axis, opp), Shift, axis, opp) == Apply(g, Shift, axis, opp)
  {
    var r := Apply(g, Shift, axis, opp);
    forall l | 0 <= l < SIZE
      ensures ShiftLine(Line(r, axis, l), opp) == Line(r, axis, l)
    {
      ApplyLineAt(g, Shift, axis, opp, l);
      ShiftIdempotent(Line(g, axis, l), opp);
    }
    ApplyFixedIff(r, Shift, axis, opp);
  }

  // ---------------------------------------------------------------------
  // Empty cells

  lemma RoomFromLine(g: Grid, axis: Axis, l: int)
    requires 0 <= l < SIZE && HasEmpty(Line(g, axis, l))
    ensures HasRoom(g)
  {
    var k :| 0 <= k < SIZE && Line(g, axis, l)[k] == 0;
    if axis == X {
      assert g[l][k] == 0;
    } else {
      assert g[k][l] == 0;
    }
  }

  lemma LineFromRoom(g: Grid, axis: Axis) returns (l: int)
    requires HasRoom(g)
    ensures 0 <= l < SIZE && HasEmpty(Line(g, axis, l))
  {
    var i, j :| 0 <= i < SIZE && 0 <= j < SIZE && g[i][j] == 0;
    l := LineOf(axis, i, j);
    assert Line(g, axis, l)[PlaceOf(axis, i, j)] == 0;
  }

  /** shift_x and shift_y neither fill nor create empty cells. */
  lemma ShiftKeepsRoomOnBoard(g: Grid, axis: Axis, opp: bool)
    requires HasRoom(g)
    ensures HasRoom(Apply(g, Shift, axis, opp))
  {
    var l := LineFromRoom(g, axis);
    ApplyLineAt(g, Shift, axis, opp, l);
    ShiftKeepsRoom(Line(g, axis, l), opp);
    RoomFromLine(Apply(g, Shift, axis, opp), axis, l);
  }

  /** An operation that changes the board leaves an empty cell on it. */
  lemma ChangedLeavesRoom(g: Grid, op: Op, axis: Axis, opp: bool)
    requires Apply(g, op, axis, opp) != g
    ensures HasRoom(Apply(g, op, axis, opp))
  {
    ApplyFixedIff(g, op, axis, opp);
    var l :| 0 <= l < SIZE && ApplyLine(op, Line(g, axis, l), opp) != Line(g, axis, l);
    ApplyLineAt(g, op, axis, opp, l);
    if op == Shift {
      ShiftMovedHasRoom(Line(g, axis, l), opp);
    } else {
      MergedHasRoom(Line(g, axis, l), opp);
    }
    RoomFromLine(Apply(g, op, axis, opp), axis, l);
  }

  /** shift_x and shift_y only move tiles, so they keep every rank below the largest. */
  lemma ShiftKeepsBounded(g: Grid, axis: Axis, opp: bool)
    requires Bounded(g)
    ensures Bounded(Apply(g, Shift, axis, opp))
  {
    var r := Apply(g, Shift, axis, opp);
    forall i, j | 0 <= i < SIZE && 0 <= j < SIZE
      ensures r[i][j] < MAX_RANK
    {
      var l := LineOf(axis, i, j);
      BoundedLine(g, axis, l);
      ShiftKeepsBelowMax(Line(g, axis, l), opp);
    }
  }

  // ---------------------------------------------------------------------
  // Score

  lemma {:induction false} SumScoreSplit(s: seq<Rank>)
    ensures Sum(s, CellScore) == Sum(s, Value) + Sum(s, IsEmpty)
    ensures Sum(s, CellScore) >= |s|
  {
    if s != [] {
      SumScoreSplit(s[1..]);
    }
  }

  lemma {:induction false} LinesScoreSplit(g: Grid, n: nat)
    requires n <= SIZE
    ensures LinesTotal(g, X, CellScore, n) == LinesTotal(g, X, Value, n) + LinesTotal(g, X, IsEmpty, n)
    ensures LinesTotal(g, X, CellScore, n) >= n * SIZE
  {
    if n > 0 {
      LinesScoreSplit(g, n - 1);
      SumScoreSplit(g[n - 1]);
    }
  }

  /**
   * The score is the tile value plus one for every empty cell (BASE^0), so it
   * is never below the number of cells.
   */
  lemma ScoreSplit(g: Grid)
    ensures Score(g) == TileValue(g) + Total(g, IsEmpty)
    ensures Score(g) >= SIZE * SIZE
  {
    LinesScoreSplit(g, SIZE);
  }

  /** A running sum over the first n rows never exceeds the sum over the board. */
  lemma {:induction false} LinesTotalGrows(g: Grid, f: Rank -> nat, n: nat)
    requires n <= SIZE
    ensures LinesTotal(g, X, f, n) <= Total(g, f)
    decreases SIZE - n
  {
    if n < SIZE {
      LinesTotalGrows(g, f, n + 1);
    }
  }

  /**
   * Adding cell (i, j) to the running sum of the rows before i and the
   * cells before j in row i stays within the score of the whole board.
   */
  lemma ScoreSoFar(g: Grid, i: int, j: int)
    requires 0 <= i < SIZE && 0 <= j < SIZE
    ensures Sum(g[i][..j + 1], CellScore) == Sum(g[i][..j], CellScore) + CellScore(g[i][j])
    ensures LinesTotal(g, X, CellScore, i) + Sum(g[i][..j + 1], CellScore) <= Score(g)
  {
    var row := g[i];
    assert row[..j + 1] == row[..j] + [row[j]];
    SumAppend(row[..j], [row[j]], CellScore);
    assert Sum([row[j]], CellScore) == CellScore(row[j]) by {
      assert [row[j]][1..] == [];
    }
    assert row == row[..j + 1] + row[j + 1..];
    SumAppend(row[..j + 1], row[j + 1..], CellScore);
    LinesTotalGrows(g, CellScore, i + 1);
  }

  /** An empty board scores SIZE * SIZE = 16. */
  lemma ScoreOfEmpty()
    ensures Score(EmptyGrid()) == SIZE * SIZE
  {
    var g := EmptyGrid();
    TotalUnfold(g, X, CellScore);
    forall l | 0 <= l < SIZE
      ensures Sum(g[l], CellScore) == SIZE
    {
      Sum4(g[l], CellScore);
    }
  }

  // ---------------------------------------------------------------------
  // Game over

  lemma StuckLines(g: Grid, axis: Axis)
    ensures Stuck(g, axis, false) && Stuck(g, axis, true)
        <==> forall l, k | 0 <= l < SIZE && 0 <= k < SIZE - 1 ::
               !Movable(Line(g, axis, l)[k], Line(g, axis, l)[k + 1])
  {
    ApplyFixedIff(g, Shift, axis, false);
    ApplyFixedIff(g, Shift, axis, true);
    ApplyFixedIff(g, Merge, axis, false);
    ApplyFixedIff(g, Merge, axis, true);
    forall l | 0 <= l < SIZE
      ensures (ShiftLine(Line(g, axis, l), false) == Line(g, axis, l) &&
               ShiftLine(Line(g, axis, l), true) == Line(g, axis, l) &&
               MergeLine(Line(g, axis, l), false) == Line(g, axis, l) &&
               MergeLine(Line(g, axis, l), true) == Line(g, axis, l))
          <==> forall k | 0 <= k < SIZE - 1 :: !Movable(Line(g, axis, l)[k], Line(g, axis, l)[k + 1])
    {
      LineStuckIff(Line(g, axis, l));
    }
  }

  /** Cell (i, j) and its right-hand neighbour could move or combine. */
  predicate MovableRight(g: Grid, i: int, j: int)
    requires 0 <= i < SIZE && 0 <= j < SIZE - 1
  {
    Movable(g[i][j], g[i][j + 1])
  }

  /** Cell (i, j) and the cell below it could move or combine. */
  predicate MovableDown(g: Grid, i: int, j: int)
    requires 0 <= i < SIZE - 1 && 0 <= j < SIZE
  {
    Movable(g[i][j], g[i + 1][j])
  }

  lemma StuckRows(g: Grid)
    ensures Stuck(g, X, false) && Stuck(g, X, true)
        <==> forall i, j | 0 <= i < SIZE && 0 <= j < SIZE - 1 :: !MovableRight(g, i, j)
  {
    StuckLines(g, X);
    if forall i, j | 0 <= i < SIZE && 0 <= j < SIZE - 1 :: !MovableRight(g, i, j) {
      forall l, k | 0 <= l < SIZE && 0 <= k < SIZE - 1
        ensures !Movable(Line(g, X, l)[k], Line(g, X, l)[k + 1])
      {
        assert !MovableRight(g, l, k);
      }
    }
    if forall l, k | 0 <= l < SIZE && 0 <= k < SIZE - 1 :: !Movable(Line(g, X, l)[k], Line(g, X, l)[k + 1]) {
      forall i, j | 0 <= i < SIZE && 0 <= j < SIZE - 1
        ensures !MovableRight(g, i, j)
      {
        assert Line(g, X, i)[j] == g[i][j] && Line(g, X, i)[j + 1] == g[i][j + 1];
      }
    }
  }

  lemma StuckColumns(g: Grid)
    ensures Stuck(g, Y, false) && Stuck(g, Y, true)
        <==> forall i, j | 0 <= i < SIZE - 1 && 0 <= j < SIZE :: !MovableDown(g, i, j)
  {
    StuckLines(g, Y);
    if forall i, j | 0 <= i < SIZE - 1 && 0 <= j < SIZE :: !MovableDown(g, i, j) {
      forall l, k | 0 <= l < SIZE && 0 <= k < SIZE - 1
        ensures !Movable(Line(g, Y, l)[k], Line(g, Y, l)[k + 1])
      {
        assert !MovableDown(g, k, l);
      }
    }
    if forall l, k | 0 <= l < SIZE && 0 <= k < SIZE - 1 :: !Movable(Line(g, Y, l)[k], Line(g, Y, l)[k + 1]) {
      forall i, j | 0 <= i < SIZE - 1 && 0 <= j < SIZE
        ensures !MovableDown(g, i, j)
      {
        assert Line(g, Y, j)[i] == g[i][j] && Line(g, Y, j)[i + 1] == g[i + 1][j];
      }
    }
  }

  /**
   * The game is over exactly when no two horizontally or vertically
   * neighbouring cells are an empty cell beside a tile or two equal tiles.
   */
  lemma GameOverIffNoMove(g: Grid)
    ensures GameOver(g) <==>
      (forall i, j | 0 <= i < SIZE && 0 <= j < SIZE - 1 :: !MovableRight(g, i, j)) &&
      (forall i, j | 0 <= i < SIZE - 1 && 0 <= j < SIZE :: !MovableDown(g, i, j))
  {
    StuckRows(g);
    StuckColumns(g);
  }

  /** A full board of alternating ranks: no two neighbours equal, no empty cell. */
  function Checkerboard(): Grid {
    seq(SIZE, i => seq(SIZE, j => if (i + j) % 2 == 0 then 1 else 2))
  }

  lemma CheckerboardIsOver()
    ensures GameOver(Checkerboard())
  {
    var g := Checkerboard();
    forall i, j | 0 <= i < SIZE && 0 <= j < SIZE - 1
      ensures !MovableRight(g, i, j)
    {
      assert (i + j) % 2 != (i + j + 1) % 2;
    }
    forall i, j | 0 <= i < SIZE - 1 && 0 <= j < SIZE
      ensures !MovableDown(g, i, j)
    {
      assert (i + j) % 2 != (i + 1 + j) % 2;
    }
    GameOverIffNoMove(g);
  }

  /**
   * The empty board is over too: no shift and no merge changes it, which is
   * what "no possible moves left" says of a board with no tiles.
   */
  lemma EmptyIsOver()
    ensures GameOver(EmptyGrid())
  {
    var g := EmptyGrid();
    forall i, j | 0 <= i < SIZE && 0 <= j < SIZE - 1
      ensures !MovableRight(g, i, j)
    {
    }
    forall i, j | 0 <= i < SIZE - 1 && 0 <= j < SIZE
      ensures !MovableDown(g, i, j)
    {
    }
    GameOverIffNoMove(g);
  }

  /** The same board with its corner emptied is not over. */
  lemma OpenedCheckerboardIsNotOver()
    ensures !GameOver(Checkerboard()[0 := Checkerboard()[0][0 := 0]])
  {
    var h := Checkerboard()[0 := Checkerboard()[0][0 := 0]];
    GameOverIffNoMove(h);
    assert MovableRight(h, 0, 0);
  }
}
