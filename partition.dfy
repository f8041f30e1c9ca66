/**
 * How the engine splits the grid's columns among its worker threads: worker k
 * of n gets the half-open column range [k * w, (k + 1) * w) with
 * w = width / n, except the last worker, whose range runs to the width and so
 * absorbs the remainder columns.
 */
module Partition {
  import opened Wrappers

  /** The half-open column range [lo, hi) one worker computes. */
  datatype ColumnRange = ColumnRange(lo: int, hi: int) {
    predicate Contains(c: int) { lo <= c < hi }
  }

  /** Why starting the workers fails. */
  datatype StartError =
    | NegativeArrayLength  // a negative length in the first array allocation that fails:
                           // the thread array when numThreads <= -2, the flag array when numThreads == -1
    | DivideByZero       // width / numThreads with no workers

  /** rs cuts [0, width) into consecutive ranges: it starts at 0, ends at
      width, no range is reversed and each range starts where the previous one
      ends. */
  ghost predicate Tiles(rs: seq<ColumnRange>, width: int) {
    |rs| > 0 && rs[0].lo == 0 && rs[|rs| - 1].hi == width &&
    (forall k :: 0 <= k < |rs| ==> rs[k].lo <= rs[k].hi) &&
    (forall k :: 0 <= k < |rs| - 1 ==> rs[k].hi == rs[k + 1].lo)
  }

  /** The sizes the engine hands out: every range but the last has
      width / n columns, the last one also takes the width % n left over. */
  ghost predicate Balanced(rs: seq<ColumnRange>, width: int, n: int)
    requires n >= 1 && |rs| == n
  {
    (forall k :: 0 <= k < n - 1 ==> rs[k].hi - rs[k].lo == width / n) &&
    rs[n - 1].hi - rs[n - 1].lo == width / n + width % n
  }

  /**
   * The range computation done when the workers start: one range per worker.
   * The caller has already allocated one flag per worker, so a negative count
   * never gets here; a count of zero fails on the division.
   */
  method PlanColumns(width: nat, numThreads: int) returns (r: Result<seq<ColumnRange>, StartError>)
    requires numThreads >= 0
    ensures numThreads == 0 <==> r == Failure(DivideByZero)
    ensures numThreads >= 1 ==> r.Success? && |r.value| == numThreads
    ensures numThreads >= 1 ==> Tiles(r.value, width) && Balanced(r.value, width, numThreads)
  {
    if numThreads == 0 {
      return Failure(DivideByZero);
    }
    var widthPerThread := width / numThreads;
    var rs: seq<ColumnRange> := [];
    var i := 0;
    while i < numThreads
      invariant 0 <= i <= numThreads
      invariant |rs| == i
      invariant forall k :: 0 <= k < i ==> rs[k].lo == k * widthPerThread
      invariant forall k :: 0 <= k < i && k != numThreads - 1 ==> rs[k].hi == (k + 1) * widthPerThread
      invariant forall k :: 0 <= k < i && k == numThreads - 1 ==> rs[k].hi == width
    {
      var iMin := i * widthPerThread;
      var iMax;
      if i != numThreads - 1 {
        iMax := (i + 1) * widthPerThread;
      } else {
        iMax := width;
      }
      rs := rs + [ColumnRange(iMin, iMax)];
      i := i + 1;
    }
    PlanIsTiling(rs, width, numThreads);
    r := Success(rs);
  }

  /** The engine's range formula yields a balanced tiling of [0, width). */
  lemma PlanIsTiling(rs: seq<ColumnRange>, width: nat, n: int)
    requires n >= 1 && |rs| == n
    requires forall k :: 0 <= k < n ==> rs[k].lo == k * (width / n)
    requires forall k :: 0 <= k < n - 1 ==> rs[k].hi == (k + 1) * (width / n)
    requires rs[n - 1].hi == width
    ensures Tiles(rs, width) && Balanced(rs, width, n)
  {
  }

  /** In a tiling, an earlier range ends no later than a later one starts. */
  lemma {:induction false} TilesOrdered(rs: seq<ColumnRange>, width: int, k1: int, k2: int)
    requires Tiles(rs, width)
    requires 0 <= k1 < k2 < |rs|
    ensures rs[k1].hi <= rs[k2].lo
    decreases k2 - k1
  {
    if k2 > k1 + 1 {
      TilesOrdered(rs, width, k1, k2 - 1);
    }
  }

  /** Every range of a tiling lies inside [0, width). */
  lemma TilesWithin(rs: seq<ColumnRange>, width: int, k: int)
    requires Tiles(rs, width)
    requires 0 <= k < |rs|
    ensures 0 <= rs[k].lo && rs[k].hi <= width
  {
    if k > 0 {
      TilesOrdered(rs, width, 0, k);
    }
    if k < |rs| - 1 {
      TilesOrdered(rs, width, k, |rs| - 1);
    }
  }

  /** Helper: a column at or after the start of range k and before the width
      lies in range k or a later one. */
  lemma {:induction false} CoveredFrom(rs: seq<ColumnRange>, width: int, c: int, k: int) returns (m: int)
    requires Tiles(rs, width)
    requires 0 <= k < |rs| && rs[k].lo <= c < width
    ensures k <= m < |rs| && rs[m].Contains(c)
    decreases |rs| - k
  {
    if c < rs[k].hi {
      m := k;
    } else {
      m := CoveredFrom(rs, width, c, k + 1);
    }
  }

  /** A tiling covers exactly the columns [0, width). */
  lemma TilesCover(rs: seq<ColumnRange>, width: int, c: int)
    requires Tiles(rs, width)
    ensures 0 <= c < width <==> exists k :: 0 <= k < |rs| && rs[k].Contains(c)
  {
    if 0 <= c < width {
      var m := CoveredFrom(rs, width, c, 0);
    }
    forall k | 0 <= k < |rs| && rs[k].Contains(c)
      ensures 0 <= c < width
    {
      TilesWithin(rs, width, k);
    }
  }

  /** No column of a tiling belongs to two ranges, so no cell is written by
      two workers. */
  lemma TilesDisjoint(rs: seq<ColumnRange>, width: int, c: int, k1: int, k2: int)
    requires Tiles(rs, width)
    requires 0 <= k1 < |rs| && 0 <= k2 < |rs|
    requires rs[k1].Contains(c) && rs[k2].Contains(c)
    ensures k1 == k2
  {
    if k1 < k2 {
      TilesOrdered(rs, width, k1, k2);
    } else if k2 < k1 {
      TilesOrdered(rs, width, k2, k1);
    }
  }

  /** A balanced tiling is exactly the engine's formula: range k starts at
      k * (width / n), and every range but the last ends at (k + 1) * (width / n). */
  lemma {:induction false} BalancedTilingStart(rs: seq<ColumnRange>, width: int, n: int, k: int)
    requires n >= 1 && |rs| == n
    requires Tiles(rs, width) && Balanced(rs, width, n)
    requires 0 <= k < n
    ensures rs[k].lo == k * (width / n)
    ensures k < n - 1 ==> rs[k].hi == (k + 1) * (width / n)
  {
    if k > 0 {
      BalancedTilingStart(rs, width, n, k - 1);
      assert rs[k].lo == rs[k - 1].hi;
    }
    if k < n - 1 {
      assert (k + 1) * (width / n) == k * (width / n) + width / n;
    }
  }

  /** A corollary of TilesCover: whatever order the ranges are taken in, and
      with any repetition, together they still cover exactly [0, width). */
  lemma AnyOrderCovers(rs: seq<ColumnRange>, width: int, order: seq<ColumnRange>, c: int)
    requires Tiles(rs, width)
    requires forall t :: 0 <= t < |order| ==> order[t] in rs
    requires forall k :: 0 <= k < |rs| ==> rs[k] in order
    ensures 0 <= c < width <==> exists t :: 0 <= t < |order| && order[t].Contains(c)
  {
    TilesCover(rs, width, c);
    if 0 <= c < width {
      var k :| 0 <= k < |rs| && rs[k].Contains(c);
      var t :| 0 <= t < |order| && order[t] == rs[k];
    }
    forall t | 0 <= t < |order| && order[t].Contains(c)
      ensures 0 <= c < width
    {
      var k :| 0 <= k < |rs| && rs[k] == order[t];
    }
  }
}
