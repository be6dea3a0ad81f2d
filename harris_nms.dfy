/**
 * The non-maximum suppression (NMS) scan of the Harris corner routine
 * (`detKeypointsHarris`): every cell of the truncated, normalised response
 * grid that lies strictly above `MinResponse` becomes a candidate keypoint,
 * which is checked against the keypoints already in the caller's list.
 *
 * The specification is a row-major fold: `ScanRows` folds `ScanRow` over
 * the rows, `ScanRow` folds `ScanCell` over the columns of one row, and
 * `Suppress` is the effect of one candidate on the list. The method
 * `DetectHarrisNms` is the nested loop itself, proved equal to that fold.
 */
module HarrisNms {
  import opened CvTypes

  /** Aperture of the Sobel operator; a candidate's size is twice this. */
  const ApertureSize: int := 3
  /** A cell is a candidate only when its response is strictly above this. */
  const MinResponse: int := 100

  /** `overlaps(candidate, existing)` stands for
      `cv::KeyPoint::overlap(candidate, existing) > maxOverlap`, with
      `maxOverlap` = 0.0. The geometry is the library's; it stays abstract. */
  type OverlapTest = (KeyPoint, KeyPoint) -> bool

  /** The keypoint built for the cell in column `col` of row `row`. */
  function Candidate(col: nat, row: nat, response: int): (kp: KeyPoint)
    ensures kp.x == col as real && kp.y == row as real
    ensures kp.size == 6.0 && kp.response == response as real
    ensures kp.angle == -1.0 && kp.octave == 0 && kp.classId == -1
  {
    DefaultKeyPoint.(x := col as real, y := row as real,
                     size := (2 * ApertureSize) as real, response := response as real)
  }

  /** `cand` may overwrite `kp`: they overlap and `cand` responds strictly more. */
  predicate Replaceable(cand: KeyPoint, kp: KeyPoint, overlaps: OverlapTest)
  {
    overlaps(cand, kp) && cand.response > kp.response
  }

  /** Some entry of `kps` overlaps `cand`. */
  predicate AnyOverlap(kps: seq<KeyPoint>, cand: KeyPoint, overlaps: OverlapTest)
  {
    exists t :: 0 <= t < |kps| && overlaps(cand, kps[t])
  }

  /** The first index, in list order, of an entry that `cand` may overwrite,
      or |kps| when there is none. */
  function FirstReplaceable(kps: seq<KeyPoint>, cand: KeyPoint, overlaps: OverlapTest): (k: nat)
    ensures k <= |kps|
    ensures k < |kps| ==> Replaceable(cand, kps[k], overlaps)
    ensures forall t :: 0 <= t < k ==> !Replaceable(cand, kps[t], overlaps)
    decreases |kps|
  {
    if kps == [] then 0
    else if Replaceable(cand, kps[0], overlaps) then 0
    else 1 + FirstReplaceable(kps[1..], cand, overlaps)
  }

  /** The effect of one candidate on the list: overwrite the first entry it
      may replace; otherwise discard it if it overlaps anything; otherwise
      append it. */
  function Suppress(kps: seq<KeyPoint>, cand: KeyPoint, overlaps: OverlapTest): seq<KeyPoint>
  {
    var k := FirstReplaceable(kps, cand, overlaps);
    if k < |kps| then kps[k := cand]
    else if AnyOverlap(kps, cand, overlaps) then kps
    else kps + [cand]
  }

  /** The effect of cell (row `j`, column `i`) on the list. */
  function ScanCell(kps: seq<KeyPoint>, grid: seq<seq<int>>, j: nat, i: nat, overlaps: OverlapTest): seq<KeyPoint>
    requires j < |grid| && i < |grid[j]|
  {
    if grid[j][i] > MinResponse then Suppress(kps, Candidate(i, j, grid[j][i]), overlaps)
    else kps
  }

  /** The list after scanning the first `n` columns of row `j`, from `kps`. */
  function ScanRow(kps: seq<KeyPoint>, grid: seq<seq<int>>, j: nat, n: nat, overlaps: OverlapTest): seq<KeyPoint>
    requires j < |grid| && n <= |grid[j]|
    decreases n
  {
    if n == 0 then kps
    else ScanCell(ScanRow(kps, grid, j, n - 1, overlaps), grid, j, n - 1, overlaps)
  }

  /** The list after scanning the first `m` rows in full, from `kps`. */
  function ScanRows(kps: seq<KeyPoint>, grid: seq<seq<int>>, m: nat, overlaps: OverlapTest): seq<KeyPoint>
    requires m <= |grid|
    decreases m
  {
    if m == 0 then kps
    else ScanRow(ScanRows(kps, grid, m - 1, overlaps), grid, m - 1, |grid[m - 1]|, overlaps)
  }

  /** The list after the whole row-major scan of `grid`, starting from the
      caller's `kps` (which is not cleared). */
  function Nms(grid: seq<seq<int>>, kps: seq<KeyPoint>, overlaps: OverlapTest): seq<KeyPoint>
  {
    ScanRows(kps, grid, |grid|, overlaps)
  }

  /** The number of cells among the first `n` of row `j` above `MinResponse`. */
  function CountAboveRow(grid: seq<seq<int>>, j: nat, n: nat): nat
    requires j < |grid| && n <= |grid[j]|
    decreases n
  {
    if n == 0 then 0
    else CountAboveRow(grid, j, n - 1) + (if grid[j][n - 1] > MinResponse then 1 else 0)
  }

  /** The number of cells in the first `m` rows above `MinResponse`. */
  function CountAboveRows(grid: seq<seq<int>>, m: nat): nat
    requires m <= |grid|
    decreases m
  {
    if m == 0 then 0
    else CountAboveRows(grid, m - 1) + CountAboveRow(grid, m - 1, |grid[m - 1]|)
  }

  function CountAbove(grid: seq<seq<int>>): nat
  {
    CountAboveRows(grid, |grid|)
  }

  /** No cell of `grid` lies above `MinResponse`. */
  predicate AllBelowThreshold(grid: seq<seq<int>>)
  {
    forall j, i :: 0 <= j < |grid| && 0 <= i < |grid[j]| ==> grid[j][i] <= MinResponse
  }

  /** Two grids of the same shape that agree on every cell that is above
      `MinResponse` in either of them. */
  predicate SameAboveThreshold(g1: seq<seq<int>>, g2: seq<seq<int>>)
  {
    && |g1| == |g2|
    && (forall j :: 0 <= j < |g1| ==> |g1[j]| == |g2[j]|)
    && (forall j, i :: 0 <= j < |g1| && 0 <= i < |g1[j]| && i < |g2[j]| ==>
          (g1[j][i] > MinResponse || g2[j][i] > MinResponse) ==> g1[j][i] == g2[j][i])
  }

  /** `kp` is the candidate of some above-threshold cell of `grid`. */
  ghost predicate IsCandidateOf(grid: seq<seq<int>>, kp: KeyPoint)
  {
    exists j, i :: 0 <= j < |grid| && 0 <= i < |grid[j]| && grid[j][i] > MinResponse
                   && kp == Candidate(i, j, grid[j][i])
  }

  /** Every entry of `r` is either the entry the caller supplied at that index
      or the candidate of an above-threshold cell of `grid`. */
  ghost predicate WrittenFrom(grid: seq<seq<int>>, init: seq<KeyPoint>, r: seq<KeyPoint>)
  {
    forall k :: 0 <= k < |r| ==> (k < |init| && r[k] == init[k]) || IsCandidateOf(grid, r[k])
  }

  /** `after` keeps every entry of `before` at its index, each one either
      unchanged or overwritten by one with a strictly higher response. */
  predicate Dominates(after: seq<KeyPoint>, before: seq<KeyPoint>)
  {
    && |before| <= |after|
    && forall k :: 0 <= k < |before| ==>
         after[k] == before[k] || after[k].response > before[k].response
  }

  // ---------------------------------------------------------------------
  // One candidate
  // ---------------------------------------------------------------------

  /** A candidate adds an entry exactly when it overlaps no entry, and then it is
      appended after the unchanged list; otherwise the length is unchanged. */
  lemma SuppressAppendsIffNoOverlap(kps: seq<KeyPoint>, cand: KeyPoint, overlaps: OverlapTest)
    ensures |Suppress(kps, cand, overlaps)| == |kps| || |Suppress(kps, cand, overlaps)| == |kps| + 1
    ensures |Suppress(kps, cand, overlaps)| == |kps| + 1 <==> !AnyOverlap(kps, cand, overlaps)
    ensures !AnyOverlap(kps, cand, overlaps) ==> Suppress(kps, cand, overlaps) == kps + [cand]
  {
  }

  /** When entry `k` is the first, in list order, that overlaps `cand` and has a
      strictly lower response, `cand` overwrites it and nothing else changes. */
  lemma SuppressReplacesFirst(kps: seq<KeyPoint>, cand: KeyPoint, overlaps: OverlapTest, k: nat)
    requires k < |kps| && Replaceable(cand, kps[k], overlaps)
    requires forall t :: 0 <= t < k ==> !Replaceable(cand, kps[t], overlaps)
    ensures Suppress(kps, cand, overlaps) == kps[k := cand]
  {
  }

  /** When `cand` overlaps some entry but each overlapping entry responds at
      least as strongly, `cand` is discarded. */
  lemma SuppressDiscards(kps: seq<KeyPoint>, cand: KeyPoint, overlaps: OverlapTest)
    requires AnyOverlap(kps, cand, overlaps)
    requires forall t :: 0 <= t < |kps| && overlaps(cand, kps[t]) ==> cand.response <= kps[t].response
    ensures Suppress(kps, cand, overlaps) == kps
  {
  }

  /** One candidate never removes an entry nor lowers a response, and every
      entry afterwards is the old entry at that index or the candidate. */
  lemma SuppressDominates(kps: seq<KeyPoint>, cand: KeyPoint, overlaps: OverlapTest)
    ensures Dominates(Suppress(kps, cand, overlaps), kps)
    ensures forall k :: 0 <= k < |Suppress(kps, cand, overlaps)| ==>
              (k < |kps| && Suppress(kps, cand, overlaps)[k] == kps[k]) || Suppress(kps, cand, overlaps)[k] == cand
  {
  }

  // ---------------------------------------------------------------------
  // The whole scan
  // ---------------------------------------------------------------------

  /** Domination composes: a later list dominates every earlier one. */
  lemma DominatesTransitive(a: seq<KeyPoint>, b: seq<KeyPoint>, c: seq<KeyPoint>)
    requires Dominates(a, b) && Dominates(b, c)
    ensures Dominates(a, c)
  {
  }

  /** Columns `lo` .. `n`-1 of row `j` are all at or below `MinResponse`:
      scanning them changes nothing. */
  lemma {:induction false} ScanRowSkipsLowCells(kps: seq<KeyPoint>, grid: seq<seq<int>>, j: nat, lo: nat, n: nat, overlaps: OverlapTest)
    requires j < |grid| && lo <= n <= |grid[j]|
    requires forall i :: lo <= i < n ==> grid[j][i] <= MinResponse
    ensures ScanRow(kps, grid, j, n, overlaps) == ScanRow(kps, grid, j, lo, overlaps)
    decreases n
  {
    if n > lo {
      ScanRowSkipsLowCells(kps, grid, j, lo, n - 1, overlaps);
    }
  }

  /** Rows `lo` .. `m`-1 are all at or below `MinResponse`: scanning them
      changes nothing. */
  lemma {:induction false} ScanRowsSkipLowRows(kps: seq<KeyPoint>, grid: seq<seq<int>>, lo: nat, m: nat, overlaps: OverlapTest)
    requires lo <= m <= |grid|
    requires forall j, i :: lo <= j < m && 0 <= i < |grid[j]| ==> grid[j][i] <= MinResponse
    ensures ScanRows(kps, grid, m, overlaps) == ScanRows(kps, grid, lo, overlaps)
    decreases m
  {
    if m > lo {
      ScanRowsSkipLowRows(kps, grid, lo, m - 1, overlaps);
      ScanRowSkipsLowCells(ScanRows(kps, grid, m - 1, overlaps), grid, m - 1, 0, |grid[m - 1]|, overlaps);
    }
  }

  /** A grid with no cell above `MinResponse` leaves the caller's list as it
      was (in particular an empty list stays empty). */
  lemma NmsBelowThresholdUnchanged(grid: seq<seq<int>>, kps: seq<KeyPoint>, overlaps: OverlapTest)
    requires AllBelowThreshold(grid)
    ensures Nms(grid, kps, overlaps) == kps
  {
    ScanRowsSkipLowRows(kps, grid, 0, |grid|, overlaps);
  }

  lemma {:induction false} ScanRowIgnoresLowCells(kps: seq<KeyPoint>, g1: seq<seq<int>>, g2: seq<seq<int>>, j: nat, n: nat, overlaps: OverlapTest)
    requires SameAboveThreshold(g1, g2)
    requires j < |g1| && n <= |g1[j]|
    ensures ScanRow(kps, g1, j, n, overlaps) == ScanRow(kps, g2, j, n, overlaps)
    decreases n
  {
    if n > 0 {
      ScanRowIgnoresLowCells(kps, g1, g2, j, n - 1, overlaps);
    }
  }

  lemma {:induction false} ScanRowsIgnoreLowCells(kps: seq<KeyPoint>, g1: seq<seq<int>>, g2: seq<seq<int>>, m: nat, overlaps: OverlapTest)
    requires SameAboveThreshold(g1, g2)
    requires m <= |g1|
    ensures ScanRows(kps, g1, m, overlaps) == ScanRows(kps, g2, m, overlaps)
    decreases m
  {
    if m > 0 {
      ScanRowsIgnoreLowCells(kps, g1, g2, m - 1, overlaps);
      ScanRowIgnoresLowCells(ScanRows(kps, g1, m - 1, overlaps), g1, g2, m - 1, |g1[m - 1]|, overlaps);
    }
  }

  /** Only cells above `MinResponse` matter: two grids of the same shape that
      agree on every such cell give the same list. */
  lemma NmsIgnoresLowCells(g1: seq<seq<int>>, g2: seq<seq<int>>, kps: seq<KeyPoint>, overlaps: OverlapTest)
    requires SameAboveThreshold(g1, g2)
    ensures Nms(g1, kps, overlaps) == Nms(g2, kps, overlaps)
  {
    ScanRowsIgnoreLowCells(kps, g1, g2, |g1|, overlaps);
  }

  lemma {:induction false} ScanRowDominates(kps: seq<KeyPoint>, grid: seq<seq<int>>, j: nat, n: nat, overlaps: OverlapTest)
    requires j < |grid| && n <= |grid[j]|
    ensures Dominates(ScanRow(kps, grid, j, n, overlaps), kps)
    ensures |ScanRow(kps, grid, j, n, overlaps)| <= |kps| + CountAboveRow(grid, j, n)
    decreases n
  {
    if n > 0 {
      var prev := ScanRow(kps, grid, j, n - 1, overlaps);
      ScanRowDominates(kps, grid, j, n - 1, overlaps);
      if grid[j][n - 1] > MinResponse {
        var cand := Candidate(n - 1, j, grid[j][n - 1]);
        SuppressDominates(prev, cand, overlaps);
        SuppressAppendsIffNoOverlap(prev, cand, overlaps);
        DominatesTransitive(Suppress(prev, cand, overlaps), prev, kps);
      }
    }
  }

  lemma {:induction false} ScanRowsDominate(kps: seq<KeyPoint>, grid: seq<seq<int>>, m: nat, overlaps: OverlapTest)
    requires m <= |grid|
    ensures Dominates(ScanRows(kps, grid, m, overlaps), kps)
    ensures |ScanRows(kps, grid, m, overlaps)| <= |kps| + CountAboveRows(grid, m)
    decreases m
  {
    if m > 0 {
      var prev := ScanRows(kps, grid, m - 1, overlaps);
      ScanRowsDominate(kps, grid, m - 1, overlaps);
      ScanRowDominates(prev, grid, m - 1, |grid[m - 1]|, overlaps);
      DominatesTransitive(ScanRows(kps, grid, m, overlaps), prev, kps);
    }
  }

  /** Over the whole scan no entry is removed, the response stored at each
      index never decreases, and the list grows by at most the number of
      above-threshold cells. */
  lemma NmsDominates(grid: seq<seq<int>>, kps: seq<KeyPoint>, overlaps: OverlapTest)
    ensures Dominates(Nms(grid, kps, overlaps), kps)
    ensures |kps| <= |Nms(grid, kps, overlaps)| <= |kps| + CountAbove(grid)
  {
    ScanRowsDominate(kps, grid, |grid|, overlaps);
  }

  lemma {:induction false} ScanRowWrittenFrom(kps: seq<KeyPoint>, init: seq<KeyPoint>, grid: seq<seq<int>>, j: nat, n: nat, overlaps: OverlapTest)
    requires j < |grid| && n <= |grid[j]|
    requires WrittenFrom(grid, init, kps)
    ensures WrittenFrom(grid, init, ScanRow(kps, grid, j, n, overlaps))
    decreases n
  {
    if n > 0 {
      var prev := ScanRow(kps, grid, j, n - 1, overlaps);
      ScanRowWrittenFrom(kps, init, grid, j, n - 1, overlaps);
      if grid[j][n - 1] > MinResponse {
        var cand := Candidate(n - 1, j, grid[j][n - 1]);
        assert IsCandidateOf(grid, cand);
        SuppressDominates(prev, cand, overlaps);
      }
    }
  }

  lemma {:induction false} ScanRowsWrittenFrom(kps: seq<KeyPoint>, grid: seq<seq<int>>, m: nat, overlaps: OverlapTest)
    requires m <= |grid|
    ensures WrittenFrom(grid, kps, ScanRows(kps, grid, m, overlaps))
    decreases m
  {
    if m > 0 {
      ScanRowsWrittenFrom(kps, grid, m - 1, overlaps);
      ScanRowWrittenFrom(ScanRows(kps, grid, m - 1, overlaps), kps, grid, m - 1, |grid[m - 1]|, overlaps);
    }
  }

  /** Every entry of the final list is the caller's entry at that index or a
      keypoint the scan wrote: at (column, row) of an above-threshold cell,
      with size 6 and that cell's response. */
  lemma NmsEntriesWrittenFrom(grid: seq<seq<int>>, kps: seq<KeyPoint>, overlaps: OverlapTest)
    ensures WrittenFrom(grid, kps, Nms(grid, kps, overlaps))
  {
    ScanRowsWrittenFrom(kps, grid, |grid|, overlaps);
  }

  // ---------------------------------------------------------------------
  // The loop
  // ---------------------------------------------------------------------

  /** The NMS loop of `detKeypointsHarris`: scans `grid` row by row, column
      by column, over the caller's list `keypoints`, and returns the list as
      the caller sees it afterwards. */
  method DetectHarrisNms(grid: seq<seq<int>>, keypoints: seq<KeyPoint>, overlaps: OverlapTest)
    returns (result: seq<KeyPoint>)
    ensures result == Nms(grid, keypoints, overlaps)
    ensures Dominates(result, keypoints)
    ensures |result| <= |keypoints| + CountAbove(grid)
    ensures WrittenFrom(grid, keypoints, result)
  {
    result := keypoints;
    var j := 0;
    while j < |grid|
      invariant 0 <= j <= |grid|
      invariant result == ScanRows(keypoints, grid, j, overlaps)
    {
      var i := 0;
      while i < |grid[j]|
        invariant 0 <= i <= |grid[j]|
        invariant result == ScanRow(ScanRows(keypoints, grid, j, overlaps), grid, j, i, overlaps)
      {
        var response := grid[j][i];
        if response > MinResponse {
          var cand := Candidate(i, j, response);
          ghost var before := result;
          var overlapFound := false;
          var k := 0;
          while k < |result|
            invariant 0 <= k <= |result| == |before|
            invariant result == before
            invariant forall t :: 0 <= t < k ==> !Replaceable(cand, before[t], overlaps)
            invariant overlapFound <==> exists t :: 0 <= t < k && overlaps(cand, before[t])
          {
            if overlaps(cand, result[k]) {
              overlapFound := true;
              if cand.response > result[k].response {
                result := result[k := cand];
                break;
              }
            }
            k := k + 1;
          }
          if !overlapFound {
            result := result + [cand];
          }
          assert result == Suppress(before, cand, overlaps);
        }
        i := i + 1;
      }
      j := j + 1;
    }
    NmsDominates(grid, keypoints, overlaps);
    NmsEntriesWrittenFrom(grid, keypoints, overlaps);
  }
}
