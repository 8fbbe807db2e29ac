/**
 * move_x and move_y on a value: shift, merge, and -- only if either of them
 * changed the board -- shift again to close the gaps the merges left, then
 * add_random.
 */
module Moves {
  import opened Lines
  import opened Board
  import opened Spawning

  /** The board after shift, merge and the second shift, before the new tile. */
  function Slide(g: Grid, axis: Axis, opp: bool): Grid {
    Apply(Apply(Apply(g, Shift, axis, opp), Merge, axis, opp), Shift, axis, opp)
  }

  /** shift or merge reports a change. */
  predicate Moves(g: Grid, axis: Axis, opp: bool) {
    var s := Apply(g, Shift, axis, opp);
    s != g || Apply(s, Merge, axis, opp) != s
  }

  /** A move that changes something always leaves room for the new tile. */
  lemma SlideLeavesRoom(g: Grid, axis: Axis, opp: bool)
    requires Moves(g, axis, opp)
    ensures HasRoom(Slide(g, axis, opp))
  {
    var s := Apply(g, Shift, axis, opp);
    var m := Apply(s, Merge, axis, opp);
    if s != g {
      ChangedLeavesRoom(g, Shift, axis, opp);
      if m == s {
        assert HasRoom(m);
      } else {
        ChangedLeavesRoom(s, Merge, axis, opp);
      }
    } else {
      ChangedLeavesRoom(s, Merge, axis, opp);
    }
    ShiftKeepsRoomOnBoard(m, axis, opp);
  }

  /** move_x (axis X) and move_y (axis Y); rnd is the random draw add_random makes. */
  function Move(g: Grid, axis: Axis, opp: bool, rnd: nat): Grid {
    if Moves(g, axis, opp) then
      SlideLeavesRoom(g, axis, opp);
      Spawn(Slide(g, axis, opp), rnd)
    else
      g
  }

  /**
   * A move that changes nothing leaves the board identical and adds no tile;
   * otherwise exactly one cell, empty after the slide, becomes rank 1.
   */
  lemma MoveOutcome(g: Grid, axis: Axis, opp: bool, rnd: nat)
    ensures !Moves(g, axis, opp) ==> Move(g, axis, opp, rnd) == g
    ensures Moves(g, axis, opp) ==>
      exists i, j | 0 <= i < SIZE && 0 <= j < SIZE ::
        Slide(g, axis, opp)[i][j] == 0 && Move(g, axis, opp, rnd)[i][j] == 1 &&
        Changed(Slide(g, axis, opp), Move(g, axis, opp, rnd)) == {(i, j)}
  {
    if Moves(g, axis, opp) {
      SlideLeavesRoom(g, axis, opp);
      SpawnChangesOneCell(Slide(g, axis, opp), rnd);
    }
  }

  /**
   * Shifts and merges keep the tile value of the board, so a move that
   * changes something adds exactly the 2 of the new tile, and one that
   * changes nothing adds nothing.
   */
  lemma MoveTileValue(g: Grid, axis: Axis, opp: bool, rnd: nat)
    requires Bounded(g)
    ensures TileValue(Move(g, axis, opp, rnd)) == TileValue(g) + (if Moves(g, axis, opp) then 2 else 0)
  {
    if Moves(g, axis, opp) {
      var s := Apply(g, Shift, axis, opp);
      var m := Apply(s, Merge, axis, opp);
      ShiftKeepsTiles(g, axis, opp);
      ShiftKeepsBounded(g, axis, opp);
      MergeKeepsTileValue(s, axis, opp);
      ShiftKeepsTiles(m, axis, opp);
      SlideLeavesRoom(g, axis, opp);
      SpawnAddsTwo(Slide(g, axis, opp), rnd);
    }
  }

  /**
   * A move changes something exactly when the slide changes the board: a
   * merge removes at least one tile, and a shift that moved a tile is not
   * undone by the second shift.
   */
  lemma MovesIffSlideChanges(g: Grid, axis: Axis, opp: bool)
    ensures Moves(g, axis, opp) <==> Slide(g, axis, opp) != g
  {
    var s := Apply(g, Shift, axis, opp);
    var m := Apply(s, Merge, axis, opp);
    if m == s {
      ShiftIdempotentOnBoard(g, axis, opp);
    } else {
      ShiftKeepsTiles(g, axis, opp);
      MergeDropsBoardTiles(s, axis, opp);
      MergeFixedOnBoard(s, axis, opp);
      ShiftKeepsTiles(m, axis, opp);
    }
  }

  /** The board whose every row is [4,2,0,0]: a move to the left changes nothing and adds no tile. */
  lemma NoOpExample(rnd: nat)
    ensures var g := seq(SIZE, _ => [2, 1, 0, 0]);
      IsGrid(g) && !Moves(g, X, false) && Move(g, X, false, rnd) == g
  {
    var g: Grid := seq(SIZE, _ => [2, 1, 0, 0]);
    forall l | 0 <= l < SIZE
      ensures Packed(Line(g, X, l), false) && !HasPair(Line(g, X, l))
    {
      assert Line(g, X, l) == [2, 1, 0, 0];
    }
    ShiftFixedOnBoard(g, X, false);
    MergeFixedOnBoard(g, X, false);
  }
}
