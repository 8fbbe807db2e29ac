/**
 * The in-place passes that shift and merge make over one line, read from
 * the target end: the contents of the line after the pass has handled its
 * first k cells, and the proof that a finished pass leaves the line that
 * Lines specifies.
 */
module Passes {
  import opened Lines

  /**
   * The compaction pass after reading k cells, with its write position. A
   * tile read at position k is moved to the write position w and its old
   * cell emptied; a tile already at w stays; either way w advances. An empty
   * cell is passed over.
   */
  function CompactPass(s: seq<Rank>, k: int): (r: (seq<Rank>, int))
    requires 0 <= k <= |s|
    ensures |r.0| == |s|
    ensures 0 <= r.1 <= k
  {
    if k == 0 then (s, 0)
    else
      var (c, w) := CompactPass(s, k - 1);
      if s[k - 1] == 0 then (c, w)
      else if w != k - 1 then (c[w := s[k - 1]][k - 1 := 0], w + 1)
      else (c, w + 1)
  }

  lemma NonZeroSnoc(s: seq<Rank>, k: int)
    requires 0 <= k < |s|
    ensures NonZero(s[..k + 1]) == NonZero(s[..k]) + (if s[k] == 0 then [] else [s[k]])
  {
    assert s[..k + 1][..k] == s[..k];
  }

  /**
   * After k cells the write position is the number of tiles read, those
   * tiles are packed at the front in their order, the rest of the cells read
   * are empty, and the cells not yet read are untouched.
   */
  lemma {:induction false} CompactPassShape(s: seq<Rank>, k: int)
    requires 0 <= k <= |s|
    ensures CompactPass(s, k).1 == |NonZero(s[..k])| <= k
    ensures CompactPass(s, k).0 == NonZero(s[..k]) + Zeros(k - |NonZero(s[..k])|) + s[k..]
  {
    if k == 0 {
      assert s[..0] == [];
    } else {
      var j := k - 1;
      CompactPassShape(s, j);
      NonZeroSnoc(s, j);
      var a := NonZero(s[..j]);
      var w := |a|;
      var rest := s[k..];
      assert s[j..] == [s[j]] + rest;
      if s[j] == 0 {
        assert NonZero(s[..k]) == a;
        PassEmpty(a, j - w, rest);
      } else if w != j {
        assert NonZero(s[..k]) == a + [s[j]];
        MoveAcrossGap(a, j - w, s[j], rest);
      } else {
        assert NonZero(s[..k]) == a + [s[j]];
        TileInPlace(a, s[j], rest);
      }
    }
  }

  /** Passing over an empty cell lengthens the run of empty cells. */
  lemma PassEmpty(a: seq<Rank>, n: nat, rest: seq<Rank>)
    ensures a + Zeros(n) + ([0] + rest) == a + Zeros(n + 1) + rest
  {
    assert Zeros(n) + [0] == Zeros(n + 1);
  }

  /** A tile read at the write position stays where it is. */
  lemma TileInPlace(a: seq<Rank>, x: Rank, rest: seq<Rank>)
    ensures a + Zeros(0) + ([x] + rest) == a + [x] + Zeros(0) + rest
  {
    assert Zeros(0) == [];
  }

  /** A finished compaction pass is Compact. */
  lemma CompactPassDone(s: seq<Rank>)
    ensures CompactPass(s, |s|).0 == Compact(s)
  {
    CompactPassShape(s, |s|);
    assert s[..|s|] == s;
  }

  /** The pass reads cell k as it was, and the write position trails k. */
  lemma CompactPassStep(s: seq<Rank>, k: int)
    requires 0 <= k < |s|
    ensures CompactPass(s, k).0[k] == s[k]
    ensures CompactPass(s, k).1 <= k
  {
    CompactPassShape(s, k);
    assert CompactPass(s, k).0[k] == s[k..][0];
  }

  /** Moving a tile back across a run of n > 0 empty cells. */
  lemma MoveAcrossGap(a: seq<Rank>, n: nat, x: Rank, rest: seq<Rank>)
    requires n > 0
    ensures (a + Zeros(n) + ([x] + rest))[|a| := x][|a| + n := 0] == a + [x] + Zeros(n) + rest
  {
    var c := a + Zeros(n) + ([x] + rest);
    var d := c[|a| := x][|a| + n := 0];
    var e := a + [x] + Zeros(n) + rest;
    forall t | 0 <= t < |e|
      ensures d[t] == e[t]
    {
    }
  }

  /**
   * The merge pass after looking at the pairs that start at positions
   * 0 .. k-1: a pair of equal tiles becomes one tile of the next rank (the
   * unsigned char increment) followed by an empty cell.
   */
  function MergePass(s: seq<Rank>, k: int): (r: seq<Rank>)
    requires 0 <= k < |s|
    ensures |r| == |s|
  {
    if k == 0 then s
    else
      var c := MergePass(s, k - 1);
      if c[k - 1] != 0 && c[k - 1] == c[k] then c[k - 1 := Succ(c[k - 1])][k := 0] else c
  }

  lemma {:induction false} MergeFrontZero(t: seq<Rank>)
    ensures MergeFront([0] + t) == [0] + MergeFront(t)
  {
    if |t| == 0 {
      assert [0] + t == [0];
    } else {
      assert ([0] + t)[1..] == t;
    }
  }

  /** MergeFront at a pair that merges. */
  lemma MergeFrontPair(c: seq<Rank>, j: int)
    requires 0 <= j && j + 1 < |c| && c[j] != 0 && c[j] == c[j + 1]
    ensures MergeFront(c[j..]) == [Succ(c[j]), 0] + MergeFront(c[j + 2..])
  {
    assert c[j..][0] == c[j] && c[j..][1] == c[j + 1];
    assert c[j..][2..] == c[j + 2..];
  }

  /** MergeFront at a pair that does not merge. */
  lemma MergeFrontSingle(c: seq<Rank>, j: int)
    requires 0 <= j && j + 1 < |c| && !(c[j] != 0 && c[j] == c[j + 1])
    ensures MergeFront(c[j..]) == [c[j]] + MergeFront(c[j + 1..])
  {
    assert c[j..][0] == c[j] && c[j..][1] == c[j + 1];
    assert c[j..][1..] == c[j + 1..];
  }

  /**
   * What the merge pass has written so far, followed by MergeFront of the
   * rest, is MergeFront of the whole line; the cells after k are untouched,
   * and cell k is either untouched or emptied by the pair before it.
   */
  lemma {:induction false} MergePassInvariant(s: seq<Rank>, k: int)
    requires 0 <= k < |s|
    ensures var c := MergePass(s, k);
      c[..k] + MergeFront(c[k..]) == MergeFront(s) &&
      c[k + 1..] == s[k + 1..] &&
      (c[k] == s[k] || c[k] == 0)
  {
    if k == 0 {
      assert s[0..] == s;
    } else {
      MergePassInvariant(s, k - 1);
      var c := MergePass(s, k - 1);
      var j := k - 1;
      assert c[k] == s[k] by {
        assert c[k..][0] == s[k..][0];
      }
      if c[j] != 0 && c[j] == c[k] {
        MergeFrontPair(c, j);
        MergePairStep(c, j);
      } else {
        MergeFrontSingle(c, j);
        assert c[..j] + [c[j]] == c[..k];
      }
    }
  }

  /** The sequence facts of a merging step, kept apart to keep the proof small. */
  lemma MergePairStep(c: seq<Rank>, j: int)
    requires 0 <= j && j + 1 < |c| && c[j] != 0
    ensures var d := c[j := Succ(c[j])][j + 1 := 0];
      d[..j + 1] + MergeFront(d[j + 1..]) == c[..j] + ([Succ(c[j]), 0] + MergeFront(c[j + 2..])) &&
      d[j + 2..] == c[j + 2..]
  {
    var d := c[j := Succ(c[j])][j + 1 := 0];
    assert d[..j + 1] == c[..j] + [Succ(c[j])];
    assert d[j + 1..] == [0] + c[j + 2..];
    MergeFrontZero(c[j + 2..]);
  }

  lemma MergePassDone(s: seq<Rank>)
    requires |s| > 0
    ensures MergePass(s, |s| - 1) == MergeFront(s)
  {
    var k := |s| - 1;
    MergePassInvariant(s, k);
    var c := MergePass(s, k);
    LastCell(c);
  }

  /** MergeFront leaves the last cell alone, so the finished pass needs no more work. */
  lemma LastCell(c: seq<Rank>)
    requires |c| > 0
    ensures c[..|c| - 1] + MergeFront(c[|c| - 1..]) == c
  {
    var t := c[|c| - 1..];
    assert |t| == 1;
    assert c[..|c| - 1] + t == c;
  }
}
