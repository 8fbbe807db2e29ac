/**
 * The engine of include/core.h on the game's own state: the 4x4 matrix of
 * ranks that every function of the header reads or updates in place. Each
 * method is proved against the value-level model: the new contents of the
 * matrix are the function of the old contents defined in Board, Spawning
 * and Moves, whose properties are proved there.
 */
module Core {
  import opened Lines
  import opened Board
  import opened Spawning
  import opened Moves
  import opened Passes

  /** The C int calculate_score returns. */
  newtype Int32 = x: int | -0x8000_0000 <= x < 0x8000_0000

  const INT_MAX: int := 0x7fff_ffff

  /** The matrix is SIZE x SIZE. */
  predicate Square(m: array2<Rank>) {
    m.Length0 == SIZE && m.Length1 == SIZE
  }

  /** The contents of the matrix as a board value. */
  function Cells(m: array2<Rank>): Grid
    requires Square(m)
    reads m
  {
    seq(SIZE, i requires 0 <= i < SIZE reads m =>
      seq(SIZE, j requires 0 <= j < SIZE reads m => m[i, j]))
  }

  /** The row and the column of position p of line l along the axis. */
  function RowAt(axis: Axis, l: int, p: int): int {
    if axis == X then l else p
  }

  function ColAt(axis: Axis, l: int, p: int): int {
    if axis == X then p else l
  }

  lemma CellsAre(m: array2<Rank>, g: Grid)
    requires Square(m)
    requires forall i, j | 0 <= i < SIZE && 0 <= j < SIZE :: m[i, j] == g[i][j]
    ensures Cells(m) == g
  {
    forall i | 0 <= i < SIZE
      ensures Cells(m)[i] == g[i]
    {
    }
  }

  /** clear_matrix: every cell becomes empty. */
  method ClearMatrix(m: array2<Rank>)
    requires Square(m)
    modifies m
    ensures Cells(m) == EmptyGrid()
  {
    for i := 0 to SIZE
      invariant forall a, b | 0 <= a < i && 0 <= b < SIZE :: m[a, b] == 0
    {
      for j := 0 to SIZE
        invariant forall a, b | 0 <= a < i && 0 <= b < SIZE :: m[a, b] == 0
        invariant forall b | 0 <= b < j :: m[i, b] == 0
      {
        m[i, j] := 0;
      }
    }
    CellsAre(m, EmptyGrid());
  }

  /** Line l along the axis as the loops walk it, from the target end. */
  function Read(m: array2<Rank>, axis: Axis, l: int, opp: bool): (s: seq<Rank>)
    requires Square(m) && 0 <= l < SIZE
    reads m
    ensures |s| == SIZE
  {
    seq(SIZE, t requires 0 <= t < SIZE reads m => m[RowAt(axis, l, Idx(opp, t)), ColAt(axis, l, Idx(opp, t))])
  }

  /** Cell (i, j) is off line l along the axis. */
  predicate OffLine(axis: Axis, l: int, i: int, j: int) {
    0 <= i < SIZE && 0 <= j < SIZE && LineOf(axis, i, j) != l
  }

  lemma ReadIsLine(m: array2<Rank>, axis: Axis, l: int, opp: bool)
    requires Square(m) && 0 <= l < SIZE
    ensures Read(m, axis, l, opp) == Orient(Line(Cells(m), axis, l), opp)
  {
    var s := Line(Cells(m), axis, l);
    forall t | 0 <= t < SIZE
      ensures Read(m, axis, l, opp)[t] == Orient(s, opp)[t]
    {
    }
  }

  /** Different positions of a line are different cells. */
  lemma PlacesDiffer(axis: Axis, l: int, opp: bool, t: int, u: int)
    requires t != u
    ensures RowAt(axis, l, Idx(opp, t)) != RowAt(axis, l, Idx(opp, u)) ||
            ColAt(axis, l, Idx(opp, t)) != ColAt(axis, l, Idx(opp, u))
  {
  }

  /** The store matrix[i][j] = v at position t of line l. */
  method Put(m: array2<Rank>, axis: Axis, l: int, opp: bool, t: int, v: Rank)
    requires Square(m) && 0 <= l < SIZE && 0 <= t < SIZE
    modifies m
    ensures Read(m, axis, l, opp) == old(Read(m, axis, l, opp))[t := v]
    ensures forall i, j | OffLine(axis, l, i, j) :: m[i, j] == old(m[i, j])
  {
    m[RowAt(axis, l, Idx(opp, t)), ColAt(axis, l, Idx(opp, t))] := v;
    forall u | 0 <= u < SIZE && u != t
      ensures m[RowAt(axis, l, Idx(opp, u)), ColAt(axis, l, Idx(opp, u))] ==
        old(m[RowAt(axis, l, Idx(opp, u)), ColAt(axis, l, Idx(opp, u))])
    {
      PlacesDiffer(axis, l, opp, u, t);
    }
  }

  /**
   * A pass over line l that left it reading r from the target end and
   * touched nothing else: the line is r oriented back and the other lines
   * are kept.
   */
  lemma FinishLine(m: array2<Rank>, g: Grid, axis: Axis, l: int, opp: bool, r: seq<Rank>)
    requires Square(m) && 0 <= l < SIZE
    requires Read(m, axis, l, opp) == r
    requires forall i, j | OffLine(axis, l, i, j) :: m[i, j] == g[i][j]
    ensures Line(Cells(m), axis, l) == Orient(r, opp)
    ensures forall k | 0 <= k < SIZE && k != l :: Line(Cells(m), axis, k) == Line(g, axis, k)
  {
    ReadIsLine(m, axis, l, opp);
    OrientTwice(Line(Cells(m), axis, l), opp);
    forall k | 0 <= k < SIZE && k != l
      ensures Line(Cells(m), axis, k) == Line(g, axis, k)
    {
      forall p | 0 <= p < SIZE
        ensures Line(Cells(m), axis, k)[p] == Line(g, axis, k)[p]
      {
        assert OffLine(axis, l, RowAt(axis, k, p), ColAt(axis, k, p));
      }
    }
  }

  /**
   * One line of shift_x / shift_y: the tiles of line l are packed toward the
   * target end in their order, with a write position w that trails the read
   * position k. changed tells whether a tile moved.
   */
  method ShiftLineAt(m: array2<Rank>, axis: Axis, l: int, opp: bool) returns (changed: bool)
    requires Square(m) && 0 <= l < SIZE
    modifies m
    ensures Line(Cells(m), axis, l) == ShiftLine(Line(old(Cells(m)), axis, l), opp)
    ensures forall k | 0 <= k < SIZE && k != l :: Line(Cells(m), axis, k) == Line(old(Cells(m)), axis, k)
    ensures changed <==> Line(Cells(m), axis, l) != Line(old(Cells(m)), axis, l)
  {
    ghost var g := Cells(m);
    ghost var s := Read(m, axis, l, opp);
    ReadIsLine(m, axis, l, opp);
    changed := false;
    var w := 0;
    for k := 0 to SIZE
      invariant Read(m, axis, l, opp) == CompactPass(s, k).0
      invariant w == CompactPass(s, k).1
      invariant forall i, j | OffLine(axis, l, i, j) :: m[i, j] == g[i][j]
      invariant changed <==> CompactPass(s, k).0 != s
    {
      CompactPassStep(s, k);
      var v := m[RowAt(axis, l, Idx(opp, k)), ColAt(axis, l, Idx(opp, k))];
      assert v == s[k] by {
        assert v == Read(m, axis, l, opp)[k];
      }
      if v != 0 {
        if w != k {
          Put(m, axis, l, opp, w, v);
          Put(m, axis, l, opp, k, 0);
          changed := true;
        }
        w := w + 1;
      }
    }
    CompactPassDone(s);
    ShiftLineDone(m, g, axis, l, opp, s);
  }

  lemma ShiftLineDone(m: array2<Rank>, g: Grid, axis: Axis, l: int, opp: bool, s: seq<Rank>)
    requires Square(m) && 0 <= l < SIZE
    requires s == Orient(Line(g, axis, l), opp)
    requires Read(m, axis, l, opp) == Compact(s)
    requires forall i, j | OffLine(axis, l, i, j) :: m[i, j] == g[i][j]
    ensures Line(Cells(m), axis, l) == ShiftLine(Line(g, axis, l), opp)
    ensures forall k | 0 <= k < SIZE && k != l :: Line(Cells(m), axis, k) == Line(g, axis, k)
    ensures Compact(s) != s <==> Line(Cells(m), axis, l) != Line(g, axis, l)
  {
    FinishLine(m, g, axis, l, opp, Compact(s));
    OrientTwice(Line(g, axis, l), opp);
    if Compact(s) != s {
      OrientInjective(Compact(s), s, opp);
    }
  }

  /**
   * One line of merge_x / merge_y: scanning from the target end, a tile
   * equal to its neighbour takes the next rank and the neighbour is emptied.
   * changed tells whether any pair merged.
   */
  method MergeLineAt(m: array2<Rank>, axis: Axis, l: int, opp: bool) returns (changed: bool)
    requires Square(m) && 0 <= l < SIZE
    modifies m
    ensures Line(Cells(m), axis, l) == MergeLine(Line(old(Cells(m)), axis, l), opp)
    ensures forall k | 0 <= k < SIZE && k != l :: Line(Cells(m), axis, k) == Line(old(Cells(m)), axis, k)
    ensures changed <==> Line(Cells(m), axis, l) != Line(old(Cells(m)), axis, l)
  {
    ghost var g := Cells(m);
    ghost var s := Read(m, axis, l, opp);
    ReadIsLine(m, axis, l, opp);
    changed := false;
    for k := 0 to SIZE - 1
      invariant Read(m, axis, l, opp) == MergePass(s, k)
      invariant forall i, j | OffLine(axis, l, i, j) :: m[i, j] == g[i][j]
      invariant changed <==> MergePass(s, k) != s
    {
      MergePassInvariant(s, k);
      var a := m[RowAt(axis, l, Idx(opp, k)), ColAt(axis, l, Idx(opp, k))];
      var b := m[RowAt(axis, l, Idx(opp, k + 1)), ColAt(axis, l, Idx(opp, k + 1))];
      assert a == Read(m, axis, l, opp)[k];
      assert b == Read(m, axis, l, opp)[k + 1];
      if a != 0 && a == b {
        Put(m, axis, l, opp, k, Succ(a));
        Put(m, axis, l, opp, k + 1, 0);
        assert MergePass(s, k + 1)[k + 1] != s[k + 1] by {
          assert MergePass(s, k)[k + 1..][0] == s[k + 1..][0];
        }
        changed := true;
      }
    }
    MergePassDone(s);
    MergeLineDone(m, g, axis, l, opp, s);
  }

  lemma MergeLineDone(m: array2<Rank>, g: Grid, axis: Axis, l: int, opp: bool, s: seq<Rank>)
    requires Square(m) && 0 <= l < SIZE
    requires s == Orient(Line(g, axis, l), opp)
    requires Read(m, axis, l, opp) == MergeFront(s)
    requires forall i, j | OffLine(axis, l, i, j) :: m[i, j] == g[i][j]
    ensures Line(Cells(m), axis, l) == MergeLine(Line(g, axis, l), opp)
    ensures forall k | 0 <= k < SIZE && k != l :: Line(Cells(m), axis, k) == Line(g, axis, k)
    ensures MergeFront(s) != s <==> Line(Cells(m), axis, l) != Line(g, axis, l)
  {
    FinishLine(m, g, axis, l, opp, MergeFront(s));
    OrientTwice(Line(g, axis, l), opp);
    if MergeFront(s) != s {
      OrientInjective(MergeFront(s), s, opp);
    }
  }

  /**
   * The line operation on every line along the axis, one line at a time.
   * changed tells whether any line changed.
   */
  method ApplyAxis(m: array2<Rank>, op: Op, axis: Axis, opp: bool) returns (changed: bool)
    requires Square(m)
    modifies m
    ensures Cells(m) == Apply(old(Cells(m)), op, axis, opp)
    ensures changed <==> Cells(m) != old(Cells(m))
  {
    ghost var g := Cells(m);
    changed := false;
    for l := 0 to SIZE
      invariant forall k | 0 <= k < l :: Line(Cells(m), axis, k) == ApplyLine(op, Line(g, axis, k), opp)
      invariant forall k | l <= k < SIZE :: Line(Cells(m), axis, k) == Line(g, axis, k)
      invariant changed <==> exists k | 0 <= k < l :: Line(Cells(m), axis, k) != Line(g, axis, k)
    {
      var c;
      if op == Shift {
        c := ShiftLineAt(m, axis, l, opp);
      } else {
        c := MergeLineAt(m, axis, l, opp);
      }
      changed := changed || c;
    }
    ApplyDone(Cells(m), g, op, axis, opp);
  }

  lemma ApplyDone(h: Grid, g: Grid, op: Op, axis: Axis, opp: bool)
    requires forall k | 0 <= k < SIZE :: Line(h, axis, k) == ApplyLine(op, Line(g, axis, k), opp)
    ensures h == Apply(g, op, axis, opp)
    ensures h != g <==> exists k | 0 <= k < SIZE :: Line(h, axis, k) != Line(g, axis, k)
  {
    forall k | 0 <= k < SIZE
      ensures Line(h, axis, k) == Line(Apply(g, op, axis, opp), axis, k)
    {
      ApplyLineAt(g, op, axis, opp, k);
    }
    LinesEqual(h, Apply(g, op, axis, opp), axis);
    if forall k | 0 <= k < SIZE :: Line(h, axis, k) == Line(g, axis, k) {
      LinesEqual(h, g, axis);
    }
  }

  /** shift_x: every row packed toward its left (opp false) or right end. */
  method ShiftX(m: array2<Rank>, opp: bool) returns (changed: bool)
    requires Square(m)
    modifies m
    ensures Cells(m) == Apply(old(Cells(m)), Shift, X, opp)
    ensures changed <==> Cells(m) != old(Cells(m))
  {
    changed := ApplyAxis(m, Shift, X, opp);
  }

  /** shift_y: every column packed toward its top (opp false) or bottom end. */
  method ShiftY(m: array2<Rank>, opp: bool) returns (changed: bool)
    requires Square(m)
    modifies m
    ensures Cells(m) == Apply(old(Cells(m)), Shift, Y, opp)
    ensures changed <==> Cells(m) != old(Cells(m))
  {
    changed := ApplyAxis(m, Shift, Y, opp);
  }

  /** merge_x: equal neighbours in every row merged, scanning from the left (opp false) or the right. */
  method MergeX(m: array2<Rank>, opp: bool) returns (changed: bool)
    requires Square(m)
    modifies m
    ensures Cells(m) == Apply(old(Cells(m)), Merge, X, opp)
    ensures changed <==> Cells(m) != old(Cells(m))
  {
    changed := ApplyAxis(m, Merge, X, opp);
  }

  /** merge_y: equal neighbours in every column merged, scanning from the top (opp false) or the bottom. */
  method MergeY(m: array2<Rank>, opp: bool) returns (changed: bool)
    requires Square(m)
    modifies m
    ensures Cells(m) == Apply(old(Cells(m)), Merge, Y, opp)
    ensures changed <==> Cells(m) != old(Cells(m))
  {
    changed := ApplyAxis(m, Merge, Y, opp);
  }

  /** The number of empty cells, counted row by row. */
  method CountEmpty(m: array2<Rank>) returns (count: int)
    requires Square(m)
    ensures count == |EmptyCells(Cells(m))|
  {
    ghost var g := Cells(m);
    count := 0;
    for i := 0 to SIZE
      invariant count == |EmptyUpTo(g, i)|
    {
      for j := 0 to SIZE
        invariant count == |EmptyUpTo(g, i)| + |EmptyInRow(g, i, j)|
      {
        if m[i, j] == 0 {
          count := count + 1;
        }
      }
    }
  }

  /**
   * add_random: the model counts the empty cells, reduces the draw rnd
   * modulo the count and puts a tile of rank 1 in the empty cell of that
   * index, counting row by row. The header warns that a full matrix ends in
   * a floating point exception; here the caller must leave an empty cell.
   */
  method AddRandom(m: array2<Rank>, rnd: nat)
    requires Square(m)
    requires HasRoom(Cells(m))
    modifies m
    ensures Cells(m) == Spawn(old(Cells(m)), rnd)
  {
    var count := CountEmpty(m);
    RoomListed(Cells(m));
    var i, j := FindEmpty(m, rnd % count);
    Place(m, i, j);
  }

  /** The empty cell with index target, counting row by row. */
  method FindEmpty(m: array2<Rank>, target: int) returns (i: int, j: int)
    requires Square(m)
    requires 0 <= target < |EmptyCells(Cells(m))|
    ensures 0 <= i < SIZE && 0 <= j < SIZE
    ensures (i, j) == EmptyCells(Cells(m))[target]
  {
    ghost var g := Cells(m);
    var seen := 0;
    for a := 0 to SIZE
      invariant seen == |EmptyUpTo(g, a)| <= target
    {
      for b := 0 to SIZE
        invariant seen == |EmptyUpTo(g, a)| + |EmptyInRow(g, a, b)| <= target
      {
        if m[a, b] == 0 {
          if seen == target {
            EmptyCellsAt(g, a, b);
            return a, b;
          }
          seen := seen + 1;
        }
      }
    }
    i, j := 0, 0;
  }

  /** The store matrix[i][j] = 1. */
  method Place(m: array2<Rank>, i: int, j: int)
    requires Square(m) && 0 <= i < SIZE && 0 <= j < SIZE
    modifies m
    ensures Cells(m) == old(Cells(m))[i := old(Cells(m))[i][j := 1]]
  {
    ghost var g := Cells(m);
    m[i, j] := 1;
    CellsAre(m, g[i := g[i][j := 1]]);
  }

  /**
   * move_x: shift and merge along the rows; if either changed the matrix,
   * shift again to close the gaps the merges left and add a random tile.
   */
  method MoveX(m: array2<Rank>, opp: bool, rnd: nat)
    requires Square(m)
    modifies m
    ensures Cells(m) == Move(old(Cells(m)), X, opp, rnd)
  {
    ghost var g := Cells(m);
    var shifted := ShiftX(m, opp);
    var merged := MergeX(m, opp);
    if shifted || merged {
      var _ := ShiftX(m, opp);
      SlideLeavesRoom(g, X, opp);
      AddRandom(m, rnd);
    }
  }

  /** move_y: move_x along the columns. */
  method MoveY(m: array2<Rank>, opp: bool, rnd: nat)
    requires Square(m)
    modifies m
    ensures Cells(m) == Move(old(Cells(m)), Y, opp, rnd)
  {
    ghost var g := Cells(m);
    var shifted := ShiftY(m, opp);
    var merged := MergeY(m, opp);
    if shifted || merged {
      var _ := ShiftY(m, opp);
      SlideLeavesRoom(g, Y, opp);
      AddRandom(m, rnd);
    }
  }

  /**
   * calculate_score: the sum over all cells of BASE^cell, accumulated in a
   * C int; the caller must keep the score within INT_MAX.
   */
  method CalculateScore(m: array2<Rank>) returns (score: Int32)
    requires Square(m)
    requires Score(Cells(m)) <= INT_MAX
    ensures score as int == Score(Cells(m))
  {
    ghost var g := Cells(m);
    score := 0;
    for i := 0 to SIZE
      invariant score as int == LinesTotal(g, X, CellScore, i)
    {
      for j := 0 to SIZE
        invariant score as int == LinesTotal(g, X, CellScore, i) + Sum(g[i][..j], CellScore)
      {
        ScoreSoFar(g, i, j);
        score := score + Pow2(m[i, j]) as Int32;
      }
      assert g[i][..SIZE] == g[i];
    }
  }

  /**
   * is_game_over: try the four shifts and the four merges on a scratch copy
   * of the matrix; the game is over when none of them changes it. The matrix
   * itself is left as it is.
   */
  method IsGameOver(m: array2<Rank>) returns (over: bool)
    requires Square(m)
    ensures over <==> GameOver(Cells(m))
  {
    var copy := new Rank[SIZE, SIZE]((i, j) requires 0 <= i < SIZE && 0 <= j < SIZE reads m => m[i, j]);
    CellsAre(copy, Cells(m));
    var changed := ShiftX(copy, false);
    if changed { return false; }
    changed := ShiftX(copy, true);
    if changed { return false; }
    changed := ShiftY(copy, false);
    if changed { return false; }
    changed := ShiftY(copy, true);
    if changed { return false; }
    changed := MergeX(copy, false);
    if changed { return false; }
    changed := MergeX(copy, true);
    if changed { return false; }
    changed := MergeY(copy, false);
    if changed { return false; }
    changed := MergeY(copy, true);
    if changed { return false; }
    return true;
  }
}
