/**
 * One line of the 2048 board -- a row or a column -- as a sequence of ranks.
 *
 * A cell holds a rank: 0 is an empty cell, a rank r > 0 is a tile shown as
 * BASE^r with BASE = 2. Shifting and merging are defined here once, toward
 * the front of the line (left or top); the opposite direction (right or
 * bottom) is the same operation applied to the reversed line.
 */
module Lines {

  /** Side length of the square board (SIZE in the C header). */
  const SIZE := 4

  /** Largest value an `unsigned char` cell can hold. */
  const MAX_RANK := 255

  /** The content of one cell, an `unsigned char`. */
  type Rank = r: int | 0 <= r <= MAX_RANK

  /** The C increment of an `unsigned char`: rank 255 wraps around to 0. */
  function Succ(r: Rank): (r': Rank)
    ensures r' != r
    ensures r < MAX_RANK ==> r' == r + 1
    ensures r == MAX_RANK ==> r' == 0
  {
    (r + 1) % (MAX_RANK + 1)
  }

  /** BASE^r with BASE = 2. */
  function Pow2(r: nat): (p: nat)
    ensures p >= 1
  {
    if r == 0 then 1 else 2 * Pow2(r - 1)
  }

  /** What a cell adds to the displayed tile total: 0 for an empty cell. */
  function Value(r: Rank): nat {
    if r == 0 then 0 else Pow2(r)
  }

  /** 1 for a tile, 0 for an empty cell. */
  function IsTile(r: Rank): nat {
    if r == 0 then 0 else 1
  }

  /** 1 for an empty cell, 0 for a tile. */
  function IsEmpty(r: Rank): nat {
    if r == 0 then 1 else 0
  }

  /** The sum of f over the cells of a line. */
  function Sum(s: seq<Rank>, f: Rank -> nat): nat {
    if s == [] then 0 else f(s[0]) + Sum(s[1..], f)
  }

  predicate HasEmpty(s: seq<Rank>) {
    exists k | 0 <= k < |s| :: s[k] == 0
  }

  /** No cell is at the largest rank, so incrementing any of them cannot wrap. */
  predicate BelowMax(s: seq<Rank>) {
    forall k | 0 <= k < |s| :: s[k] < MAX_RANK
  }

  function Reverse(s: seq<Rank>): seq<Rank> {
    seq(|s|, k requires 0 <= k < |s| => s[|s| - 1 - k])
  }

  /**
   * The line as read from its target end: unchanged toward the front
   * (opp == false: left or top), reversed toward the back (opp == true:
   * right or bottom, any non-zero direction in the C code).
   */
  function Orient(s: seq<Rank>, opp: bool): seq<Rank> {
    if opp then Reverse(s) else s
  }

  /** Position in the line of the k-th cell counted from the target end. */
  function Idx(opp: bool, k: int): int {
    if opp then SIZE - 1 - k else k
  }

  function Zeros(n: nat): seq<Rank> {
    seq(n, _ => 0)
  }

  /** The tiles of a line, in order, without the empty cells. */
  function NonZero(s: seq<Rank>): (r: seq<Rank>)
    ensures |r| <= |s|
    ensures forall k | 0 <= k < |r| :: r[k] != 0
  {
    if s == [] then []
    else NonZero(s[..|s| - 1]) + (if s[|s| - 1] == 0 then [] else [s[|s| - 1]])
  }

  /** All tiles slid to the front, in order, empty cells after them. */
  function Compact(s: seq<Rank>): seq<Rank> {
    NonZero(s) + Zeros(|s| - |NonZero(s)|)
  }

  /** shift on one line: compact toward the target end without merging. */
  function ShiftLine(s: seq<Rank>, opp: bool): (r: seq<Rank>)
    ensures |r| == |s|
  {
    Orient(Compact(Orient(s, opp)), opp)
  }

  /**
   * Merge toward the front: scanning from the front, a tile equal to the
   * next cell becomes rank + 1 and that next cell becomes empty; the scan
   * resumes after the pair, so a tile made in this pass is not merged again.
   */
  function MergeFront(s: seq<Rank>): (r: seq<Rank>)
    ensures |r| == |s|
  {
    if |s| < 2 then s
    else if s[0] != 0 && s[0] == s[1] then [Succ(s[0]), 0] + MergeFront(s[2..])
    else [s[0]] + MergeFront(s[1..])
  }

  /** The number of pairs MergeFront combines. */
  function Merges(s: seq<Rank>): nat {
    if |s| < 2 then 0
    else if s[0] != 0 && s[0] == s[1] then 1 + Merges(s[2..])
    else Merges(s[1..])
  }

  /** merge on one line, toward the target end. */
  function MergeLine(s: seq<Rank>, opp: bool): (r: seq<Rank>)
    ensures |r| == |s|
  {
    Orient(MergeFront(Orient(s, opp)), opp)
  }

  /** The number of merges MergeLine makes. */
  function MergeCount(s: seq<Rank>, opp: bool): nat {
    Merges(Orient(s, opp))
  }

  /** Tiles sit contiguously at the target end, empty cells elsewhere. */
  predicate Packed(s: seq<Rank>, opp: bool) {
    if opp then forall i, j | 0 <= i < j < |s| :: s[j] == 0 ==> s[i] == 0
    else forall i, j | 0 <= i < j < |s| :: s[i] == 0 ==> s[j] == 0
  }

  /** An empty cell next to a tile on its far side: a shift can move the tile. */
  predicate Gap(a: Rank, b: Rank, opp: bool) {
    if opp then a != 0 && b == 0 else a == 0 && b != 0
  }

  /** Two adjacent cells a merge would combine. */
  predicate Pair(a: Rank, b: Rank) {
    a != 0 && a == b
  }

  /** Two neighbouring cells some shift or merge along their line would change. */
  predicate Movable(a: Rank, b: Rank) {
    Gap(a, b, false) || Gap(a, b, true) || Pair(a, b)
  }

  predicate HasPair(s: seq<Rank>) {
    exists k | 0 <= k < |s| - 1 :: Pair(s[k], s[k + 1])
  }

  // ---------------------------------------------------------------------
  // Reversal

  lemma OrientTwice(s: seq<Rank>, opp: bool)
    ensures |Orient(s, opp)| == |s|
    ensures Orient(Orient(s, opp), opp) == s
  {
  }

  lemma OrientInjective(a: seq<Rank>, b: seq<Rank>, opp: bool)
    ensures Orient(a, opp) == Orient(b, opp) <==> a == b
  {
    OrientTwice(a, opp);
    OrientTwice(b, opp);
  }

  lemma ReverseCons(s: seq<Rank>)
    requires s != []
    ensures Reverse(s) == Reverse(s[1..]) + [s[0]]
  {
  }

  lemma {:induction false} SumAppend(a: seq<Rank>, b: seq<Rank>, f: Rank -> nat)
    ensures Sum(a + b, f) == Sum(a, f) + Sum(b, f)
  {
    if a != [] {
      assert (a + b)[1..] == a[1..] + b;
      SumAppend(a[1..], b, f);
    } else {
      assert a + b == b;
    }
  }

  lemma {:induction false} SumReverse(s: seq<Rank>, f: Rank -> nat)
    ensures Sum(Reverse(s), f) == Sum(s, f)
  {
    if s != [] {
      ReverseCons(s);
      SumAppend(Reverse(s[1..]), [s[0]], f);
      SumReverse(s[1..], f);
    }
  }

  lemma {:induction false} SumUpdate(s: seq<Rank>, k: int, v: Rank, f: Rank -> nat)
    requires 0 <= k < |s|
    ensures Sum(s[k := v], f) + f(s[k]) == Sum(s, f) + f(v)
  {
    if k == 0 {
      assert s[k := v][1..] == s[1..];
    } else {
      assert s[k := v][1..] == s[1..][k - 1 := v];
      SumUpdate(s[1..], k - 1, v, f);
    }
  }

  lemma SumOrient(s: seq<Rank>, opp: bool, f: Rank -> nat)
    ensures Sum(Orient(s, opp), f) == Sum(s, f)
  {
    if opp {
      SumReverse(s, f);
    }
  }

  lemma {:induction false} SumZeros(n: nat, f: Rank -> nat)
    requires f(0) == 0
    ensures Sum(Zeros(n), f) == 0
  {
    if n > 0 {
      assert Zeros(n)[1..] == Zeros(n - 1);
      SumZeros(n - 1, f);
    }
  }

  /** Dropping the empty cells changes no sum that empty cells do not contribute to. */
  lemma {:induction false} SumNonZero(s: seq<Rank>, f: Rank -> nat)
    requires f(0) == 0
    ensures Sum(NonZero(s), f) == Sum(s, f)
  {
    if s != [] {
      var p, x := s[..|s| - 1], s[|s| - 1];
      assert s == p + [x];
      SumNonZero(p, f);
      SumAppend(NonZero(p), if x == 0 then [] else [x], f);
      SumAppend(p, [x], f);
    }
  }

  // ---------------------------------------------------------------------
  // The tiles of a line

  lemma {:induction false} NonZeroAppend(a: seq<Rank>, b: seq<Rank>)
    ensures NonZero(a + b) == NonZero(a) + NonZero(b)
  {
    if b != [] {
      var p, x := b[..|b| - 1], b[|b| - 1];
      assert (a + b)[..|a + b| - 1] == a + p;
      assert b[..|b| - 1] == p;
      NonZeroAppend(a, p);
    } else {
      assert a + b == a;
    }
  }

  lemma {:induction false} NonZeroZeros(n: nat)
    ensures NonZero(Zeros(n)) == []
  {
    if n > 0 {
      assert Zeros(n)[..n - 1] == Zeros(n - 1);
      NonZeroZeros(n - 1);
    }
  }

  lemma {:induction false} NonZeroOfTiles(s: seq<Rank>)
    requires forall k | 0 <= k < |s| :: s[k] != 0
    ensures NonZero(s) == s
  {
    if s != [] {
      NonZeroOfTiles(s[..|s| - 1]);
    }
  }

  lemma {:induction false} NonZeroReverse(s: seq<Rank>)
    ensures NonZero(Reverse(s)) == Reverse(NonZero(s))
  {
    if s != [] {
      var p, x := s[..|s| - 1], s[|s| - 1];
      assert s == p + [x];
      assert Reverse(s) == [x] + Reverse(p);
      NonZeroAppend([x], Reverse(p));
      NonZeroReverse(p);
      assert NonZero([x]) == (if x == 0 then [] else [x]) by {
        assert [x][..0] == [];
      }
      var t := if x == 0 then [] else [x];
      assert Reverse(NonZero(p) + t) == Reverse(t) + Reverse(NonZero(p));
    }
  }

  lemma {:induction false} NonZeroShorterIff(s: seq<Rank>)
    ensures |NonZero(s)| < |s| <==> HasEmpty(s)
  {
    if s != [] {
      var p := s[..|s| - 1];
      NonZeroShorterIff(p);
      if HasEmpty(p) {
        var k :| 0 <= k < |p| && p[k] == 0;
        assert s[k] == 0;
      }
      if HasEmpty(s) && s[|s| - 1] != 0 {
        var k :| 0 <= k < |s| && s[k] == 0;
        assert p[k] == 0;
      }
    }
  }

  lemma NonZeroCompact(s: seq<Rank>)
    ensures NonZero(Compact(s)) == NonZero(s)
  {
    NonZeroAppend(NonZero(s), Zeros(|s| - |NonZero(s)|));
    NonZeroZeros(|s| - |NonZero(s)|);
    NonZeroOfTiles(NonZero(s));
  }

  // ---------------------------------------------------------------------
  // Shift

  lemma PackedReverse(s: seq<Rank>, opp: bool)
    ensures Packed(Reverse(s), opp) <==> Packed(s, !opp)
  {
    var r := Reverse(s);
    if Packed(s, !opp) {
      forall i, j | 0 <= i < j < |r|
        ensures if opp then (r[j] == 0 ==> r[i] == 0) else (r[i] == 0 ==> r[j] == 0)
      {
        assert r[i] == s[|s| - 1 - i] && r[j] == s[|s| - 1 - j];
      }
    }
    if Packed(r, opp) {
      forall i, j | 0 <= i < j < |s|
        ensures if !opp then (s[j] == 0 ==> s[i] == 0) else (s[i] == 0 ==> s[j] == 0)
      {
        assert s[i] == r[|s| - 1 - i] && s[j] == r[|s| - 1 - j];
      }
    }
  }

  lemma CompactPacked(s: seq<Rank>)
    ensures |Compact(s)| == |s|
    ensures Packed(Compact(s), false)
  {
  }

  lemma {:induction false} PackedIsCompact(s: seq<Rank>)
    requires Packed(s, false)
    ensures Compact(s) == s
  {
    if s != [] {
      var p, x := s[..|s| - 1], s[|s| - 1];
      assert s == p + [x];
      PackedIsCompact(p);
      var z := |p| - |NonZero(p)|;
      if x == 0 {
        assert Zeros(z + 1) == Zeros(z) + [0];
      }
    }
  }

  /**
   * shift's result: the tiles of the line, in their original order,
   * contiguous at the target end, empty cells elsewhere.
   */
  lemma ShiftLineShape(s: seq<Rank>, opp: bool)
    ensures |ShiftLine(s, opp)| == |s|
    ensures Packed(ShiftLine(s, opp), opp)
    ensures NonZero(ShiftLine(s, opp)) == NonZero(s)
  {
    var o := Orient(s, opp);
    CompactPacked(o);
    NonZeroCompact(o);
    if opp {
      PackedReverse(Compact(o), true);
      NonZeroReverse(Compact(o));
      NonZeroReverse(s);
      OrientTwice(NonZero(s), true);
    }
  }

  /** Two lines with the same tiles, both packed toward one end, are equal. */
  lemma PackedUnique(a: seq<Rank>, b: seq<Rank>, opp: bool)
    requires |a| == |b| && NonZero(a) == NonZero(b)
    requires Packed(a, opp) && Packed(b, opp)
    ensures a == b
  {
    if opp {
      PackedReverse(a, false);
      PackedReverse(b, false);
      NonZeroReverse(a);
      NonZeroReverse(b);
      PackedIsCompact(Reverse(a));
      PackedIsCompact(Reverse(b));
      OrientInjective(a, b, true);
    } else {
      PackedIsCompact(a);
      PackedIsCompact(b);
    }
  }

  /** shift reports no change exactly when the line is already packed. */
  lemma ShiftFixedIff(s: seq<Rank>, opp: bool)
    ensures ShiftLine(s, opp) == s <==> Packed(s, opp)
  {
    ShiftLineShape(s, opp);
    if Packed(s, opp) {
      PackedUnique(ShiftLine(s, opp), s, opp);
    }
  }

  /** A second shift in the same direction changes nothing. */
  lemma ShiftIdempotent(s: seq<Rank>, opp: bool)
    ensures ShiftLine(ShiftLine(s, opp), opp) == ShiftLine(s, opp)
  {
    ShiftLineShape(s, opp);
    ShiftFixedIff(ShiftLine(s, opp), opp);
  }

  lemma {:induction false} NoGapRun(s: seq<Rank>, opp: bool, i: int, j: int)
    requires forall k | 0 <= k < |s| - 1 :: !Gap(s[k], s[k + 1], opp)
    requires 0 <= i <= j < |s|
    requires if opp then s[j] == 0 else s[i] == 0
    ensures if opp then s[i] == 0 else s[j] == 0
    decreases j - i
  {
    if i < j {
      if opp {
        NoGapRun(s, opp, i + 1, j);
        assert !Gap(s[i], s[i + 1], opp);
      } else {
        NoGapRun(s, opp, i, j - 1);
        assert !Gap(s[j - 1], s[j], opp);
      }
    }
  }

  /** Packed, stated on neighbouring cells only. */
  lemma PackedIffNoGap(s: seq<Rank>, opp: bool)
    ensures Packed(s, opp) <==> forall k | 0 <= k < |s| - 1 :: !Gap(s[k], s[k + 1], opp)
  {
    if forall k | 0 <= k < |s| - 1 :: !Gap(s[k], s[k + 1], opp) {
      forall i, j | 0 <= i < j < |s|
        ensures if opp then (s[j] == 0 ==> s[i] == 0) else (s[i] == 0 ==> s[j] == 0)
      {
        if opp && s[j] == 0 {
          NoGapRun(s, opp, i, j);
        }
        if !opp && s[i] == 0 {
          NoGapRun(s, opp, i, j);
        }
      }
    }
    if Packed(s, opp) {
      forall k | 0 <= k < |s| - 1
        ensures !Gap(s[k], s[k + 1], opp)
      {
        assert k < k + 1;
      }
    }
  }

  /** shift neither creates nor fills empty cells. */
  lemma ShiftKeepsRoom(s: seq<Rank>, opp: bool)
    ensures HasEmpty(ShiftLine(s, opp)) <==> HasEmpty(s)
  {
    ShiftLineShape(s, opp);
    NonZeroShorterIff(s);
    NonZeroShorterIff(ShiftLine(s, opp));
  }

  /** A shift that moves a tile leaves an empty cell behind it. */
  lemma ShiftMovedHasRoom(s: seq<Rank>, opp: bool)
    requires ShiftLine(s, opp) != s
    ensures HasEmpty(ShiftLine(s, opp))
  {
    ShiftFixedIff(s, opp);
    ShiftKeepsRoom(s, opp);
    var i, j :| 0 <= i < j < |s| && (if opp then s[j] == 0 && s[i] != 0 else s[i] == 0 && s[j] != 0);
    assert s[if opp then j else i] == 0;
  }

  /** shift keeps every sum to which empty cells contribute nothing. */
  lemma ShiftKeepsSum(s: seq<Rank>, opp: bool, f: Rank -> nat)
    requires f(0) == 0
    ensures Sum(ShiftLine(s, opp), f) == Sum(s, f)
  {
    var o := Orient(s, opp);
    SumOrient(Compact(o), opp, f);
    SumAppend(NonZero(o), Zeros(|o| - |NonZero(o)|), f);
    SumZeros(|o| - |NonZero(o)|, f);
    SumNonZero(o, f);
    SumOrient(s, opp, f);
  }

  /** shift only moves cells: no rank appears that was not there. */
  lemma ShiftKeepsBelowMax(s: seq<Rank>, opp: bool)
    requires BelowMax(s)
    ensures BelowMax(ShiftLine(s, opp))
  {
    ShiftLineShape(s, opp);
    var r := ShiftLine(s, opp);
    forall k | 0 <= k < |r|
      ensures r[k] < MAX_RANK
    {
      if r[k] != 0 {
        NonZeroMember(r, k);
        NonZeroFrom(s, r[k]);
      }
    }
  }

  lemma {:induction false} NonZeroMember(s: seq<Rank>, k: int)
    requires 0 <= k < |s| && s[k] != 0
    ensures s[k] in NonZero(s)
  {
    if k < |s| - 1 {
      NonZeroMember(s[..|s| - 1], k);
    }
  }

  lemma {:induction false} NonZeroFrom(s: seq<Rank>, x: Rank)
    requires x in NonZero(s)
    ensures exists k | 0 <= k < |s| :: s[k] == x
  {
    var p := s[..|s| - 1];
    if x in NonZero(p) {
      NonZeroFrom(p, x);
      var k :| 0 <= k < |p| && p[k] == x;
      assert s[k] == x;
    } else {
      assert s[|s| - 1] == x;
    }
  }

  // ---------------------------------------------------------------------
  // Merge

  lemma HasPairReverse(s: seq<Rank>)
    ensures HasPair(Reverse(s)) <==> HasPair(s)
  {
    var r := Reverse(s);
    if HasPair(s) {
      var k :| 0 <= k < |s| - 1 && Pair(s[k], s[k + 1]);
      var k' := |s| - 2 - k;
      assert r[k'] == s[k + 1] && r[k' + 1] == s[k];
    }
    if HasPair(r) {
      var k :| 0 <= k < |r| - 1 && Pair(r[k], r[k + 1]);
      var k' := |s| - 2 - k;
      assert s[k'] == r[k + 1] && s[k' + 1] == r[k];
    }
  }

  lemma {:induction false} MergeFrontFixedIff(s: seq<Rank>)
    ensures MergeFront(s) == s <==> !HasPair(s)
    ensures Merges(s) == 0 <==> !HasPair(s)
    decreases |s|
  {
    if |s| >= 2 {
      if Pair(s[0], s[1]) {
        assert MergeFront(s)[0] == Succ(s[0]) != s[0];
      } else {
        MergeFrontFixedIff(s[1..]);
        if HasPair(s) {
          var k :| 0 <= k < |s| - 1 && Pair(s[k], s[k + 1]);
          assert Pair(s[1..][k - 1], s[1..][k]);
        }
        if HasPair(s[1..]) {
          var k :| 0 <= k < |s| - 2 && Pair(s[1..][k], s[1..][k + 1]);
          assert Pair(s[k + 1], s[k + 2]);
        }
        assert s == [s[0]] + s[1..];
      }
    }
  }

  /**
   * merge reports no change exactly when no two neighbouring cells hold the
   * same tile; that is also when it makes no merge.
   */
  lemma MergeFixedIff(s: seq<Rank>, opp: bool)
    ensures MergeLine(s, opp) == s <==> !HasPair(s)
    ensures MergeCount(s, opp) == 0 <==> !HasPair(s)
  {
    var o := Orient(s, opp);
    MergeFrontFixedIff(o);
    OrientTwice(s, opp);
    OrientInjective(MergeFront(o), o, opp);
    if opp {
      HasPairReverse(s);
    }
  }

  lemma {:induction false} MergeFrontSums(s: seq<Rank>)
    requires BelowMax(s)
    ensures Sum(MergeFront(s), Value) == Sum(s, Value)
    ensures Sum(MergeFront(s), IsTile) + Merges(s) == Sum(s, IsTile)
    decreases |s|
  {
    if |s| >= 2 {
      if Pair(s[0], s[1]) {
        MergeFrontSums(s[2..]);
        var r := MergeFront(s);
        assert r[1..][1..] == MergeFront(s[2..]);
        assert s[1..][1..] == s[2..];
        assert Value(Succ(s[0])) == 2 * Value(s[0]);
      } else {
        MergeFrontSums(s[1..]);
        assert MergeFront(s)[1..] == MergeFront(s[1..]);
      }
    }
  }

  /** merge keeps the total of the displayed tile values. */
  lemma MergeKeepsValue(s: seq<Rank>, opp: bool)
    requires BelowMax(s)
    ensures Sum(MergeLine(s, opp), Value) == Sum(s, Value)
  {
    var o := Orient(s, opp);
    assert BelowMax(o);
    MergeFrontSums(o);
    SumOrient(MergeFront(o), opp, Value);
    SumOrient(s, opp, Value);
  }

  /** Every merge removes exactly one tile. */
  lemma MergeCountsTiles(s: seq<Rank>, opp: bool)
    requires BelowMax(s)
    ensures Sum(MergeLine(s, opp), IsTile) + MergeCount(s, opp) == Sum(s, IsTile)
  {
    var o := Orient(s, opp);
    assert BelowMax(o);
    MergeFrontSums(o);
    SumOrient(MergeFront(o), opp, IsTile);
    SumOrient(s, opp, IsTile);
  }

  /**
   * Without any bound on the ranks, every merge removes at least one tile:
   * exactly one, or two when a pair of rank 255 wraps to an empty cell.
   */
  lemma {:induction false} MergeFrontDropsTiles(s: seq<Rank>)
    ensures Sum(MergeFront(s), IsTile) + Merges(s) <= Sum(s, IsTile)
    decreases |s|
  {
    if |s| >= 2 {
      if Pair(s[0], s[1]) {
        MergeFrontDropsTiles(s[2..]);
        var r := MergeFront(s);
        assert r[1..][1..] == MergeFront(s[2..]);
        assert s[1..][1..] == s[2..];
      } else {
        MergeFrontDropsTiles(s[1..]);
        assert MergeFront(s)[1..] == MergeFront(s[1..]);
      }
    }
  }

  /** Every merge removes at least one tile, whatever the ranks. */
  lemma MergeDropsTiles(s: seq<Rank>, opp: bool)
    ensures Sum(MergeLine(s, opp), IsTile) + MergeCount(s, opp) <= Sum(s, IsTile)
  {
    var o := Orient(s, opp);
    MergeFrontDropsTiles(o);
    SumOrient(MergeFront(o), opp, IsTile);
    SumOrient(s, opp, IsTile);
  }

  lemma {:induction false} MergeFrontRoom(s: seq<Rank>)
    requires MergeFront(s) != s
    ensures HasEmpty(MergeFront(s))
    decreases |s|
  {
    if Pair(s[0], s[1]) {
      assert MergeFront(s)[1] == 0;
    } else {
      MergeFrontRoom(s[1..]);
      var k :| 0 <= k < |s| - 1 && MergeFront(s[1..])[k] == 0;
      assert MergeFront(s)[k + 1] == 0;
    }
  }

  /** A merge that combines a pair leaves an empty cell. */
  lemma MergedHasRoom(s: seq<Rank>, opp: bool)
    requires MergeLine(s, opp) != s
    ensures HasEmpty(MergeLine(s, opp))
  {
    var o := Orient(s, opp);
    OrientTwice(s, opp);
    MergeFrontRoom(o);
    var k :| 0 <= k < |o| && MergeFront(o)[k] == 0;
    if opp {
      assert MergeLine(s, opp)[|s| - 1 - k] == 0;
    }
  }

  /**
   * No shift and no merge in either direction changes the line exactly
   * when no two neighbouring cells are movable.
   */
  lemma LineStuckIff(s: seq<Rank>)
    ensures (ShiftLine(s, false) == s && ShiftLine(s, true) == s &&
             MergeLine(s, false) == s && MergeLine(s, true) == s)
        <==> forall k | 0 <= k < |s| - 1 :: !Movable(s[k], s[k + 1])
  {
    ShiftFixedIff(s, false);
    ShiftFixedIff(s, true);
    PackedIffNoGap(s, false);
    PackedIffNoGap(s, true);
    MergeFixedIff(s, false);
    MergeFixedIff(s, true);
    if forall k | 0 <= k < |s| - 1 :: !Movable(s[k], s[k + 1]) {
      assert !HasPair(s);
    }
    if !HasPair(s) {
      forall k | 0 <= k < |s| - 1
        ensures !Pair(s[k], s[k + 1])
      {
      }
    }
  }

  /** The scan order decides which pair of a run of equal tiles merges. */
  lemma MergeExamples()
    ensures MergeLine([1, 1, 1, 1], false) == [2, 0, 2, 0]
    ensures MergeLine([1, 1, 1, 1], true) == [0, 2, 0, 2]
    ensures MergeLine([1, 1, 1, 0], false) == [2, 0, 1, 0]
    ensures MergeLine([1, 1, 1, 0], true) == [1, 0, 2, 0]
  {
    assert [1, 1, 1, 1][2..] == [1, 1];
    assert [1, 1, 1, 0][2..] == [1, 0];
    assert Reverse([1, 1, 1, 0]) == [0, 1, 1, 1];
    assert [0, 1, 1, 1][1..] == [1, 1, 1];
    assert [1, 1, 1][2..] == [1];
    assert Reverse([0, 2, 0, 1]) == [1, 0, 2, 0];
    assert Reverse([2, 0, 2, 0]) == [0, 2, 0, 2];
  }

  lemma ShiftExamples()
    ensures ShiftLine([1, 1, 1, 1], false) == [1, 1, 1, 1]
    ensures ShiftLine([1, 1, 1, 1], true) == [1, 1, 1, 1]
    ensures ShiftLine([0, 1, 1, 0], false) == [1, 1, 0, 0]
  {
    NonZeroOfTiles([1, 1, 1, 1]);
    assert Reverse([1, 1, 1, 1]) == [1, 1, 1, 1];
    assert [0, 1, 1, 0][..3] == [0, 1, 1];
    assert [0, 1, 1][..2] == [0, 1];
    assert [0, 1][..1] == [0];
    assert NonZero([0, 1, 1, 0]) == [1, 1];
  }

  lemma ShiftGapExamples()
    ensures ShiftLine([2, 0, 2, 0], false) == [2, 2, 0, 0]
    ensures ShiftLine([0, 2, 0, 2], true) == [0, 0, 2, 2]
    ensures ShiftLine([2, 0, 0, 0], false) == [2, 0, 0, 0]
  {
    assert [2, 0, 2, 0][..3] == [2, 0, 2];
    assert [2, 0, 2][..2] == [2, 0];
    assert [2, 0][..1] == [2];
    assert NonZero([2, 0, 2, 0]) == [2, 2];
    assert Reverse([0, 2, 0, 2]) == [2, 0, 2, 0];
    assert Reverse([2, 2, 0, 0]) == [0, 0, 2, 2];
    assert [2, 0, 0, 0][..3] == [2, 0, 0];
    assert [2, 0, 0][..2] == [2, 0];
    assert NonZero([2, 0, 0, 0]) == [2];
  }

  /**
   * The whole slide of a move on one line: [2,2,2,2] (ranks 1) becomes
   * [4,4,0,0] toward the left and [0,0,4,4] toward the right.
   */
  lemma SlideExamples()
    ensures ShiftLine(MergeLine(ShiftLine([1, 1, 1, 1], false), false), false) == [2, 2, 0, 0]
    ensures ShiftLine(MergeLine(ShiftLine([1, 1, 1, 1], true), true), true) == [0, 0, 2, 2]
    ensures ShiftLine(MergeLine(ShiftLine([0, 1, 1, 0], false), false), false) == [2, 0, 0, 0]
  {
    MergeExamples();
    ShiftExamples();
    ShiftGapExamples();
    assert MergeLine([1, 1, 0, 0], false) == [2, 0, 0, 0] by {
      assert [1, 1, 0, 0][2..] == [0, 0];
      assert [0, 0][1..] == [0];
    }
  }
}
