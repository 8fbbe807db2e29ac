/**
 * add_random on a value. The header promises a tile of rank 1 in a random
 * empty cell. The model makes the choice concrete: it reduces a draw modulo
 * the number of empty cells and fills the empty cell of that index, counting
 * row by row. The draw is a parameter.
 */
module Spawning {
  import opened Lines
  import opened Board

  /** Cell c comes before cell d in row-major order. */
  predicate Before(c: (int, int), d: (int, int)) {
    c.0 < d.0 || (c.0 == d.0 && c.1 < d.1)
  }

  /** The empty cells among the first j cells of row i, left to right. */
  function EmptyInRow(g: Grid, i: int, j: int): seq<(int, int)>
    requires 0 <= i < SIZE && 0 <= j <= SIZE
  {
    if j == 0 then []
    else EmptyInRow(g, i, j - 1) + (if g[i][j - 1] == 0 then [(i, j - 1)] else [])
  }

  /** The empty cells of the first i rows, in row-major order. */
  function EmptyUpTo(g: Grid, i: int): seq<(int, int)>
    requires 0 <= i <= SIZE
  {
    if i == 0 then []
    else EmptyUpTo(g, i - 1) + EmptyInRow(g, i - 1, |g[i - 1]|)
  }

  /** Every empty cell of the board, once each, in row-major order. */
  function EmptyCells(g: Grid): seq<(int, int)> {
    EmptyUpTo(g, |g|)
  }

  /** The row list holds exactly the empty cells of the first j columns of row i. */
  lemma {:induction false} RowListed(g: Grid, i: int, j: int)
    requires 0 <= i < SIZE && 0 <= j <= SIZE
    ensures var r := EmptyInRow(g, i, j);
      (forall c | c in r :: c.0 == i && 0 <= c.1 < j && g[i][c.1] == 0) &&
      (forall k | 0 <= k < j && g[i][k] == 0 :: (i, k) in r)
  {
    if j > 0 {
      RowListed(g, i, j - 1);
      var r, e := EmptyInRow(g, i, j - 1), if g[i][j - 1] == 0 then [(i, j - 1)] else [];
      assert EmptyInRow(g, i, j) == r + e;
      forall k | 0 <= k < j && g[i][k] == 0
        ensures (i, k) in r + e
      {
        if k < j - 1 {
          assert (i, k) in r;
        } else {
          assert (i, k) in e;
        }
      }
    }
  }

  /** The list of the first i rows holds exactly their empty cells. */
  lemma {:induction false} UpToListed(g: Grid, i: int)
    requires 0 <= i <= SIZE
    ensures var r := EmptyUpTo(g, i);
      (forall c | c in r :: 0 <= c.0 < i && 0 <= c.1 < SIZE && g[c.0][c.1] == 0) &&
      (forall a, b | 0 <= a < i && 0 <= b < SIZE && g[a][b] == 0 :: (a, b) in r)
  {
    if i > 0 {
      UpToListed(g, i - 1);
      RowListed(g, i - 1, SIZE);
      var r, e := EmptyUpTo(g, i - 1), EmptyInRow(g, i - 1, SIZE);
      assert EmptyUpTo(g, i) == r + e;
      forall a, b | 0 <= a < i && 0 <= b < SIZE && g[a][b] == 0
        ensures (a, b) in r + e
      {
        if a < i - 1 {
          assert (a, b) in r;
        } else {
          assert (a, b) in e;
        }
      }
    }
  }

  /** The board list holds exactly the empty cells of the board. */
  lemma CellsListed(g: Grid)
    ensures forall c | c in EmptyCells(g) :: 0 <= c.0 < SIZE && 0 <= c.1 < SIZE && g[c.0][c.1] == 0
    ensures forall a, b | 0 <= a < SIZE && 0 <= b < SIZE && g[a][b] == 0 :: (a, b) in EmptyCells(g)
  {
    UpToListed(g, SIZE);
  }

  lemma RoomListed(g: Grid)
    requires HasRoom(g)
    ensures |EmptyCells(g)| > 0
  {
    var i, j :| 0 <= i < SIZE && 0 <= j < SIZE && g[i][j] == 0;
    CellsListed(g);
    assert (i, j) in EmptyCells(g);
  }

  /** The empty cells of a row are listed left to right. */
  lemma {:induction false} RowOrdered(g: Grid, i: int, j: int)
    requires 0 <= i < SIZE && 0 <= j <= SIZE
    ensures var r := EmptyInRow(g, i, j);
      forall x, y | 0 <= x < y < |r| :: Before(r[x], r[y])
  {
    if j > 0 {
      RowOrdered(g, i, j - 1);
      RowListed(g, i, j - 1);
      var r := EmptyInRow(g, i, j - 1);
      assert forall x | 0 <= x < |r| :: r[x] in r;
    }
  }

  /** The empty cells of the first i rows are listed in row-major order. */
  lemma {:induction false} UpToOrdered(g: Grid, i: int)
    requires 0 <= i <= SIZE
    ensures var r := EmptyUpTo(g, i);
      forall x, y | 0 <= x < y < |r| :: Before(r[x], r[y])
  {
    if i > 0 {
      UpToOrdered(g, i - 1);
      RowOrdered(g, i - 1, SIZE);
      UpToListed(g, i - 1);
      RowListed(g, i - 1, SIZE);
      var a, b := EmptyUpTo(g, i - 1), EmptyInRow(g, i - 1, SIZE);
      assert forall x | 0 <= x < |a| :: a[x] in a;
      assert forall y | 0 <= y < |b| :: b[y] in b;
    }
  }

  lemma {:induction false} RowPrefix(g: Grid, i: int, j: int, j': int)
    requires 0 <= i < SIZE && 0 <= j <= j' <= SIZE
    ensures |EmptyInRow(g, i, j)| <= |EmptyInRow(g, i, j')|
    ensures EmptyInRow(g, i, j) == EmptyInRow(g, i, j')[..|EmptyInRow(g, i, j)|]
    decreases j' - j
  {
    if j < j' {
      RowPrefix(g, i, j, j' - 1);
    }
  }

  lemma {:induction false} RowsPrefix(g: Grid, i: int, i': int)
    requires 0 <= i <= i' <= SIZE
    ensures |EmptyUpTo(g, i)| <= |EmptyUpTo(g, i')|
    ensures EmptyUpTo(g, i) == EmptyUpTo(g, i')[..|EmptyUpTo(g, i)|]
    decreases i' - i
  {
    if i < i' {
      RowsPrefix(g, i, i' - 1);
    }
  }

  /**
   * Counting row by row, an empty cell (i, j) is preceded by exactly the
   * empty cells of the earlier rows and of the earlier columns of row i.
   */
  lemma EmptyCellsAt(g: Grid, i: int, j: int)
    requires 0 <= i < SIZE && 0 <= j < SIZE && g[i][j] == 0
    ensures var n := |EmptyUpTo(g, i)| + |EmptyInRow(g, i, j)|;
      n < |EmptyCells(g)| && EmptyCells(g)[n] == (i, j)
  {
    EmptyInRowAt(g, i, j);
    UpToNext(g, i);
    var n := |EmptyUpTo(g, i)| + |EmptyInRow(g, i, j)|;
    assert EmptyUpTo(g, i + 1)[n] == (i, j);
    IndexInCells(g, i + 1, n);
  }

  lemma UpToNext(g: Grid, i: int)
    requires 0 <= i < SIZE
    ensures EmptyUpTo(g, i + 1) == EmptyUpTo(g, i) + EmptyInRow(g, i, SIZE)
  {
  }

  /** A position listed among the empty cells of the first i rows keeps its place in the whole list. */
  lemma IndexInCells(g: Grid, i: int, n: int)
    requires 0 <= i <= SIZE && 0 <= n < |EmptyUpTo(g, i)|
    ensures n < |EmptyCells(g)| && EmptyCells(g)[n] == EmptyUpTo(g, i)[n]
  {
    RowsPrefix(g, i, SIZE);
  }

  /** Within its row, the empty cell (i, j) comes after the empty cells before column j. */
  lemma EmptyInRowAt(g: Grid, i: int, j: int)
    requires 0 <= i < SIZE && 0 <= j < SIZE && g[i][j] == 0
    ensures |EmptyInRow(g, i, j)| < |EmptyInRow(g, i, SIZE)|
    ensures EmptyInRow(g, i, SIZE)[|EmptyInRow(g, i, j)|] == (i, j)
  {
    assert EmptyInRow(g, i, j + 1) == EmptyInRow(g, i, j) + [(i, j)];
    RowPrefix(g, i, j + 1, SIZE);
  }

  /** The cell add_random fills when the draw is rnd. */
  function SpawnCell(g: Grid, rnd: nat): (c: (int, int))
    requires HasRoom(g)
  {
    RoomListed(g);
    EmptyCells(g)[rnd % |EmptyCells(g)|]
  }

  /** add_random on a value: the chosen empty cell becomes a tile of rank 1. */
  function Spawn(g: Grid, rnd: nat): Grid
    requires HasRoom(g)
  {
    var c := SpawnCell(g, rnd);
    SpawnCellEmpty(g, rnd);
    g[c.0 := g[c.0][c.1 := 1]]
  }

  /** The cells in which two boards differ. */
  function Changed(g: Grid, h: Grid): set<(int, int)> {
    set i, j | 0 <= i < SIZE && 0 <= j < SIZE && g[i][j] != h[i][j] :: (i, j)
  }

  lemma SpawnCellEmpty(g: Grid, rnd: nat)
    requires HasRoom(g)
    ensures var c := SpawnCell(g, rnd);
      0 <= c.0 < SIZE && 0 <= c.1 < SIZE && g[c.0][c.1] == 0
  {
    RoomListed(g);
    CellsListed(g);
    assert SpawnCell(g, rnd) in EmptyCells(g);
  }

  /** add_random changes exactly one cell, and that cell goes from empty to rank 1. */
  lemma SpawnChangesOneCell(g: Grid, rnd: nat)
    requires HasRoom(g)
    ensures exists i, j | 0 <= i < SIZE && 0 <= j < SIZE ::
      g[i][j] == 0 && Spawn(g, rnd)[i][j] == 1 && Changed(g, Spawn(g, rnd)) == {(i, j)}
  {
    var c := SpawnCell(g, rnd);
    SpawnCellEmpty(g, rnd);
    var h := Spawn(g, rnd);
    assert h[c.0][c.1] == 1;
    assert Changed(g, h) == {(c.0, c.1)};
  }

  /** Only the draw modulo the number of empty cells matters. */
  lemma SpawnModulo(g: Grid, rnd: nat)
    requires HasRoom(g)
    ensures var n := |EmptyCells(g)|; n > 0 && Spawn(g, rnd) == Spawn(g, rnd % n)
  {
    RoomListed(g);
    var n := |EmptyCells(g)|;
    assert (rnd % n) % n == rnd % n;
  }

  lemma ModSmall(k: nat, n: nat)
    requires k < n
    ensures k % n == k
  {
  }

  lemma SpawnAt(g: Grid, rnd: nat, i: int, j: int)
    requires HasRoom(g) && 0 <= i < SIZE && 0 <= j < SIZE
    ensures Spawn(g, rnd)[i][j] == if (i, j) == SpawnCell(g, rnd) then 1 else g[i][j]
  {
    SpawnCellEmpty(g, rnd);
  }

  /** Different residues of the draw fill different cells. */
  lemma SpawnDistinct(g: Grid, x: nat, y: nat)
    requires HasRoom(g)
    requires x < y < |EmptyCells(g)|
    ensures Spawn(g, x) != Spawn(g, y)
  {
    var e := EmptyCells(g);
    var n := |e|;
    ModSmall(x, n);
    ModSmall(y, n);
    var cx, cy := SpawnCell(g, x), SpawnCell(g, y);
    assert cx == e[x] && cy == e[y];
    UpToOrdered(g, SIZE);
    assert e == EmptyUpTo(g, SIZE);
    assert Before(cx, cy);
    SpawnCellEmpty(g, x);
    SpawnAt(g, x, cx.0, cx.1);
    SpawnAt(g, y, cx.0, cx.1);
    assert Spawn(g, x)[cx.0][cx.1] != Spawn(g, y)[cx.0][cx.1];
  }

  /**
   * Every empty cell is filled for some residue of the draw; with
   * SpawnDistinct, for exactly one, so a uniform draw gives a uniform choice.
   */
  lemma SpawnReaches(g: Grid, i: int, j: int)
    requires HasRoom(g)
    requires 0 <= i < SIZE && 0 <= j < SIZE && g[i][j] == 0
    ensures exists k | 0 <= k < |EmptyCells(g)| :: Spawn(g, k)[i][j] == 1
  {
    var e := EmptyCells(g);
    CellsListed(g);
    assert (i, j) in e;
    var k :| 0 <= k < |e| && e[k] == (i, j);
    ModSmall(k, |e|);
    assert SpawnCell(g, k) == (i, j);
    SpawnAt(g, k, i, j);
    assert Spawn(g, k)[i][j] == 1;
  }

  /** The new tile adds BASE^1 = 2 to the tile value of the board. */
  lemma SpawnAddsTwo(g: Grid, rnd: nat)
    requires HasRoom(g)
    ensures TileValue(Spawn(g, rnd)) == TileValue(g) + 2
    ensures Bounded(g) ==> Bounded(Spawn(g, rnd))
  {
    var c := SpawnCell(g, rnd);
    SpawnCellEmpty(g, rnd);
    SumUpdate(g[c.0], c.1, 1, Value);
    TotalRowUpdate(g, c.0, g[c.0][c.1 := 1], Value, SIZE);
  }
}
