# 2048 grid engine in Dafny

A model of the game engine declared in `include/core.h` of a small C
implementation of 2048. The game state is a 4x4 matrix of `unsigned char`
ranks: rank 0 is an empty cell and rank r > 0 is a tile showing BASE^r with
BASE = 2. The engine clears the matrix, adds a tile of rank 1 in a random
empty cell, scores the matrix, shifts and merges rows (`_x`) or columns
(`_y`) toward either end, combines those into a move, and decides whether
the game is over.

The project has two layers.

- The value layer gives each operation a meaning as a function on boards
  (`Grid`, a 4x4 `seq<seq<Rank>>`) and proves what the game promises about
  it:
  - `lines.dfy` (module `Lines`): shift and merge on one line. A direction
    flag `opp` is false for left/top and true for right/bottom; the
    right/bottom operation is the left/top one on the reversed line.
  - `board.dfy` (module `Board`): the line operations on every row or
    column, sums over the board, the score and the game-over predicate.
  - `spawn.dfy` (module `Spawning`): add_random on a value.
  - `moves.dfy` (module `Moves`): a whole move.
- The imperative layer works on the matrix the C functions receive:
  - `core.dfy` (module `Core`): an `array2<Rank>`, updated in place by
    methods with loops. Every method is proved to leave `Cells(m)`, the
    matrix read as a board, equal to the value-layer function of the old
    contents.
  - `passes.dfy` (module `Passes`): the states a line goes through during
    one pass of those loops.

Behaviour the model fixes:

- Merge scans from the target end. The nearest equal pair merges first, and
  a tile made in this pass does not merge again. In ranks, `[1,1,1,1]`
  merged left is `[2,0,2,0]` and `[1,1,1,0]` merged right is `[1,0,2,0]`.
- Merging increments the rank as an `unsigned char`, so two tiles of rank
  255 make a cell of rank 0 (`Lines.Succ`).
- A move shifts, then merges. If either changed the matrix, it shifts again
  to close the gaps the merges left, then adds a random tile. The header
  comments at include/core.h:114 and :158 name only shift, merge and
  add_random; the second shift is how the game plays. With it, the row
  `[2,2,2,2]` (ranks 1) moved left ends as `[4,4,0,0]`, not `[4,0,4,0]`
  (`Lines.SlideExamples`).
- The header promises only that add_random puts rank 1 in a random empty
  cell. The model makes that choice concrete: it counts the empty cells n,
  takes the draw modulo n and puts rank 1 in the empty cell with that index,
  counting row by row. The draw is the parameter `rnd`.
- calculate_score follows the header's formula: every cell adds BASE^rank,
  so an empty cell adds BASE^0 = 1 and an empty board scores 16.
- The board with no tiles counts as over: none of the eight operations
  changes it, so it has no possible moves left (`Board.EmptyIsOver`).
- is_game_over runs the four shifts and the four merges on a scratch copy of
  the matrix. It returns false at the first one that reports a change.

## Model

| member | source | states |
|---|---|---|
| Core.ClearMatrix | include/core.h:43-50 | afterwards every one of the 16 cells is 0 |
| Core.AddRandom | include/core.h:52-64 | on a matrix with an empty cell, the new contents are `Spawn` of the old: the empty cell with index `rnd % n`, counting row by row, becomes rank 1 |
| Core.CountEmpty | include/core.h:52-64 | returns the number of empty cells of the matrix |
| Core.FindEmpty | include/core.h:52-64 | returns the empty cell with the given index in row-major order |
| Core.CalculateScore | include/core.h:66-75 | the returned C int is the sum over all cells of 2^rank, provided that sum fits in an int |
| Core.ShiftX | include/core.h:81-93 | every row becomes `ShiftLine` of itself toward the chosen end; the flag is true exactly when the matrix changed |
| Core.ShiftY | include/core.h:125-137 | the same for every column |
| Core.MergeX | include/core.h:96-108 | every row becomes `MergeLine` of itself toward the chosen end; the flag is true exactly when the matrix changed |
| Core.MergeY | include/core.h:140-152 | the same for every column |
| Core.MoveX | include/core.h:111-121 | the new contents are `Move` of the old along the rows: unchanged if neither shift nor merge changed anything, else the re-shifted board with one new tile |
| Core.MoveY | include/core.h:155-165 | the same along the columns |
| Core.IsGameOver | include/core.h:33-41 | leaves the matrix untouched; returns true exactly when no shift and no merge in any of the four directions would change it |
| Core.ShiftLineAt | include/core.h:81-93 | one line becomes `ShiftLine` of itself, the other lines keep their contents, and the flag is true exactly when the line changed |
| Core.MergeLineAt | include/core.h:96-108 | one line becomes `MergeLine` of itself, the other lines keep their contents, and the flag is true exactly when the line changed |
| Core.ApplyAxis | include/core.h:81-108 | the line operation applied to every line along the axis; the flag is true exactly when the matrix changed |
| Passes.CompactPassShape | include/core.h:81-93 | after the shift loop has read k cells, the tiles read are packed at the target end in their order, the rest of the cells read are empty, and the write position counts the tiles |
| Passes.CompactPassDone | include/core.h:81-93 | a finished shift loop leaves the compacted line |
| Passes.MergePassInvariant | include/core.h:96-108 | what the merge loop has written, followed by the merge of the rest, is the merge of the whole line; the cells not yet reached are untouched |
| Passes.MergePassDone | include/core.h:96-108 | a finished merge loop leaves `MergeFront` of the line |
| Lines.Succ | include/core.h:96-108 | the merged rank is the next rank, wrapping 255 to 0 as an unsigned char; it always differs from the old rank |
| Lines.ShiftLineShape | include/core.h:81-93 | a shifted line has the same length, its tiles are contiguous at the target end, and its tiles are those of the input in the same order |
| Lines.ShiftFixedIff | include/core.h:81-93 | shifting leaves a line unchanged exactly when it is already packed toward the target end |
| Lines.PackedIffNoGap | include/core.h:81-93 | a line is packed exactly when no empty cell sits next to a tile on the tile's target side |
| Lines.ShiftIdempotent | include/core.h:84-91 | shifting twice in one direction is shifting once |
| Lines.ShiftKeepsSum | include/core.h:81-93 | a shift keeps any sum over the cells that counts empty cells as 0 |
| Lines.ShiftKeepsBelowMax | include/core.h:81-93 | a shift keeps every rank below 255 if it was |
| Lines.ShiftKeepsRoom | include/core.h:111-121 | a shifted line has an empty cell exactly when the line had one |
| Lines.ShiftMovedHasRoom | include/core.h:111-121 | a shift that changes a line leaves an empty cell in it |
| Lines.MergeFixedIff | include/core.h:96-108 | merging leaves a line unchanged exactly when no two neighbours are equal tiles, which is also exactly when no pair merges |
| Lines.MergeKeepsValue | include/core.h:96-108 | with no rank at 255, a merge keeps the sum of the tile values 2^rank |
| Lines.MergeCountsTiles | include/core.h:96-108 | with no rank at 255, a merge lowers the number of tiles by one per merged pair |
| Lines.MergeDropsTiles | include/core.h:96-108 | with any ranks, a merge lowers the number of tiles by at least one per merged pair (two when a pair of 255s wraps to an empty cell) |
| Lines.MergedHasRoom | include/core.h:111-121 | a merge that changes a line leaves an empty cell in it |
| Lines.LineStuckIff | include/core.h:33-41 | shift and merge toward both ends all leave a line unchanged exactly when no neighbouring pair is an empty cell beside a tile or two equal tiles |
| Lines.MergeExamples | include/core.h:96-108 | `[1,1,1,1]` merges to `[2,0,2,0]` left and `[0,2,0,2]` right; `[1,1,1,0]` to `[2,0,1,0]` left and `[1,0,2,0]` right |
| Lines.ShiftExamples | include/core.h:81-93 | a full line is left as it is; `[0,1,1,0]` shifted left is `[1,1,0,0]` |
| Lines.ShiftGapExamples | include/core.h:81-93 | `[2,0,2,0]` shifted left is `[2,2,0,0]`; `[0,2,0,2]` shifted right is `[0,0,2,2]` |
| Lines.SlideExamples | include/core.h:111-121 | shift, merge and shift turn `[1,1,1,1]` into `[2,2,0,0]` left and `[0,0,2,2]` right, and `[0,1,1,0]` into `[2,0,0,0]` left |
| Board.YIsTransposedX | include/core.h:125-152 | every `_y` operation is the `_x` operation on the transposed board |
| Board.ShiftShapeOnBoard | include/core.h:81-93 | after a shift every line is packed toward the target end and holds the tiles it held, in order |
| Board.ShiftFixedOnBoard | include/core.h:81-93 | a shift leaves the board unchanged exactly when every line is already packed |
| Board.ShiftIdempotentOnBoard | include/core.h:84-91 | a second shift in the same direction changes nothing |
| Board.ShiftKeepsTiles | include/core.h:81-93 | a shift keeps the tile value and the number of tiles of the board |
| Board.ShiftKeepsBounded | include/core.h:81-93 | a shift keeps every rank below 255 if it was |
| Board.ShiftKeepsRoomOnBoard | include/core.h:111-121 | a shift keeps an empty cell on a board that has one |
| Board.MergeKeepsTileValue | include/core.h:96-108 | with no rank at 255, a merge keeps the sum of 2^rank over the tiles |
| Board.MergeCountsBoardTiles | include/core.h:96-108 | with no rank at 255, the number of tiles after a merge plus the number of merged pairs is the number before |
| Board.MergeDropsBoardTiles | include/core.h:96-108 | with any ranks, the number of tiles after a merge plus the number of merged pairs is at most the number before |
| Board.MergeFixedOnBoard | include/core.h:96-108 | a merge leaves the board unchanged exactly when no line has two equal neighbouring tiles, which is also exactly when no pair merges |
| Board.ChangedLeavesRoom | include/core.h:111-121 | a shift or merge that changes the board leaves an empty cell |
| Board.ScoreSplit | include/core.h:66-75 | the score is the tile value plus one per empty cell, so every board scores at least 16 |
| Board.ScoreOfEmpty | include/core.h:66-75 | the empty board scores 16 |
| Board.GameOverIffNoMove | include/core.h:33-41 | the game is over exactly when no two horizontal or vertical neighbours are an empty cell beside a tile or two equal tiles |
| Board.CheckerboardIsOver | include/core.h:33-41 | a full board with no two equal neighbours is over |
| Board.EmptyIsOver | include/core.h:33-41 | the board with no tiles is over, since no shift or merge changes it |
| Board.OpenedCheckerboardIsNotOver | include/core.h:33-41 | emptying one cell of that board makes a move possible again |
| Spawning.EmptyCellsAt | include/core.h:52-64 | the empty cell (i, j) has, as its index, the number of empty cells before it in row-major order |
| Spawning.CellsListed | include/core.h:52-64 | the list add_random counts and indexes holds exactly the empty cells of the board |
| Spawning.UpToOrdered | include/core.h:52-64 | the empty cells are listed in row-major order, the order in which the model's add_random counts them |
| Spawning.RoomListed | include/core.h:52-64 | a board with an empty cell has a non-empty list of empty cells, so the modulo is defined |
| Spawning.SpawnChangesOneCell | include/core.h:52-64 | exactly one cell changes, and it goes from 0 to 1 |
| Spawning.SpawnModulo | include/core.h:52-64 | only the draw modulo the number of empty cells decides the cell |
| Spawning.SpawnDistinct | include/core.h:52-64 | different residues of the draw fill different cells |
| Spawning.SpawnReaches | include/core.h:52-64 | every empty cell is filled for some residue of the draw |
| Spawning.SpawnAddsTwo | include/core.h:52-64 | the new tile adds 2 to the tile value and keeps ranks below 255 |
| Moves.SlideLeavesRoom | include/core.h:111-121 | when shift or merge changed the board, the re-shifted board has an empty cell for add_random |
| Moves.MoveOutcome | include/core.h:111-121 | a move in which neither shift nor merge changed anything leaves the board identical; otherwise exactly one cell that was empty after the slide becomes 1 |
| Moves.MoveTileValue | include/core.h:111-121 | with no rank at 255, a move adds 2 to the tile value when it changes something and 0 when it does not |
| Moves.MovesIffSlideChanges | include/core.h:111-121 | shift or merge reports a change exactly when the slide changes the board |
| Moves.NoOpExample | include/core.h:111-121 | on a board whose every row is `[4,2,0,0]`, a move to the left changes nothing and adds no tile |

## Left out

- `print_matrix` (include/core.h:30) writes to a `FILE*` stream. Output is not modelled.
- The C file that implements the header is not part of this model. The loops the model gives its methods are therefore its own choice. These are the write-position compaction, the pair-by-pair merge scan, the count-then-walk choice in add_random and the scratch copy in is_game_over. Each is proved to compute the value-layer function.
- `rand()`: the draw is the parameter `rnd` of `AddRandom` and `Move`. Randomness and uniformity are not modelled. `SpawnDistinct` and `SpawnReaches` show that every residue of the draw picks its own empty cell.
- Core.AddRandom: requires an empty cell. The header warns at include/core.h:60-62 that a full matrix ends in a floating point exception. That crash is not modelled.
- Core.CalculateScore: requires the score to fit in a C `int`. The C `int` overflow is not modelled.
- Board.MergeKeepsTileValue: requires no rank at 255, because the unsigned char increment turns two rank-255 tiles into an empty cell.
- Board.MergeCountsBoardTiles: requires no rank at 255, for the same reason. Without the bound, Board.MergeDropsBoardTiles proves the count drops by at least one per merged pair.
- Lines.MergeKeepsValue: requires no rank at 255, for the same reason.
- Lines.MergeCountsTiles: requires no rank at 255, for the same reason. Without the bound, Lines.MergeDropsTiles proves the count drops by at least one per merged pair.
- Moves.MoveTileValue: requires no rank at 255, for the same reason.
- `typedef char bool` (include/core.h:13): the flags and the direction are Dafny `bool`. Any non-zero direction in C means right or bottom, which is `opp == true` here.
