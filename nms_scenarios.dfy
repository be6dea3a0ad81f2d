/**
 * Concrete runs of the Harris NMS scan under one reading of the overlap
 * test: `ExactOverlap`, the circle-intersection test that
 * `cv::KeyPoint::overlap(a, b) > 0` computes, taken in exact arithmetic.
 */
module NmsScenarios {
  import opened CvTypes
  import opened HarrisNms

  /** Two keypoints' circles (diameter = size) overlap: both radii are
      positive and the centres are closer than the sum of the radii. */
  predicate ExactOverlap(a: KeyPoint, b: KeyPoint)
  {
    var ra := a.size / 2.0;
    var rb := b.size / 2.0;
    ra > 0.0 && rb > 0.0 &&
    (a.x - b.x) * (a.x - b.x) + (a.y - b.y) * (a.y - b.y) < (ra + rb) * (ra + rb)
  }

  /** Two candidates overlap exactly when their cells are less than 6 apart. */
  lemma CandidatesOverlap(c1: nat, r1: nat, v1: int, c2: nat, r2: nat, v2: int)
    ensures ExactOverlap(Candidate(c1, r1, v1), Candidate(c2, r2, v2)) <==>
            (c1 - c2) * (c1 - c2) + (r1 - r2) * (r1 - r2) < 36
  {
    var dx := c1 as real - c2 as real;
    var dy := r1 as real - r2 as real;
    assert dx * dx + dy * dy == ((c1 - c2) * (c1 - c2) + (r1 - r2) * (r1 - r2)) as real;
  }

  /** A 5x5 grid of zeros except 150 at (row 2, column 2) and 200 at (row 2,
      column 3). */
  const AdjacentGrid: seq<seq<int>> := [[0, 0, 0, 0, 0],
                                        [0, 0, 0, 0, 0],
                                        [0, 0, 150, 200, 0],
                                        [0, 0, 0, 0, 0],
                                        [0, 0, 0, 0, 0]]

  /** In row 2 the first cell is appended; the second overlaps it with a
      higher response and overwrites it. */
  lemma AdjacentGridMiddleRow()
    ensures ScanRow([], AdjacentGrid, 2, 5, ExactOverlap) == [Candidate(3, 2, 200)]
  {
    var g := AdjacentGrid;
    ScanRowSkipsLowCells([], g, 2, 0, 2, ExactOverlap);
    CandidatesOverlap(3, 2, 200, 2, 2, 150);
    assert ScanRow([], g, 2, 3, ExactOverlap) == [Candidate(2, 2, 150)];
    assert ScanRow([], g, 2, 4, ExactOverlap) == [Candidate(3, 2, 200)];
    ScanRowSkipsLowCells([], g, 2, 4, 5, ExactOverlap);
  }

  /** Scanning `AdjacentGrid` from an empty list leaves one keypoint, at
      (3, 2) with response 200: the stronger of two adjacent cells wins. */
  lemma AdjacentCellsKeepStronger()
    ensures Nms(AdjacentGrid, [], ExactOverlap) == [Candidate(3, 2, 200)]
  {
    var g := AdjacentGrid;
    ScanRowsSkipLowRows([], g, 0, 2, ExactOverlap);
    AdjacentGridMiddleRow();
    assert ScanRows([], g, 3, ExactOverlap) == [Candidate(3, 2, 200)];
    ScanRowsSkipLowRows([], g, 3, 5, ExactOverlap);
  }

  /** Row 0 has 150 at columns 0 and 6 and row 1 has 200 at column 3. */
  const OverlapGrid: seq<seq<int>> := [[150, 0, 0, 0, 0, 0, 150],
                                       [0, 0, 0, 200, 0, 0, 0]]

  /** The two cells of row 0 are 6 apart, so both are kept. */
  lemma OverlapGridFirstRow()
    ensures ScanRows([], OverlapGrid, 1, ExactOverlap) == [Candidate(0, 0, 150), Candidate(6, 0, 150)]
  {
    var g := OverlapGrid;
    var a := Candidate(0, 0, 150);
    assert ScanRow([], g, 0, 1, ExactOverlap) == [a];
    ScanRowSkipsLowCells([], g, 0, 1, 6, ExactOverlap);
    CandidatesOverlap(6, 0, 150, 0, 0, 150);
  }

  /** The cell of row 1 overlaps both kept keypoints; it overwrites the first
      and stops looking. */
  lemma OverlapGridSecondRow()
    ensures ScanRow([Candidate(0, 0, 150), Candidate(6, 0, 150)], OverlapGrid, 1, 7, ExactOverlap)
            == [Candidate(3, 1, 200), Candidate(6, 0, 150)]
  {
    var g := OverlapGrid;
    var ab := [Candidate(0, 0, 150), Candidate(6, 0, 150)];
    ScanRowSkipsLowCells(ab, g, 1, 0, 3, ExactOverlap);
    CandidatesOverlap(3, 1, 200, 0, 0, 150);
    assert ScanRow(ab, g, 1, 4, ExactOverlap) == [Candidate(3, 1, 200), Candidate(6, 0, 150)];
    ScanRowSkipsLowCells(ab, g, 1, 4, 7, ExactOverlap);
  }

  /** The list the scan returns can hold two overlapping keypoints: starting
      from an empty list, `OverlapGrid` leaves the 200 at (3, 1) beside the
      150 at (6, 0), and the two overlap. */
  lemma FirstMatchCanLeaveOverlap()
    ensures var r := Nms(OverlapGrid, [], ExactOverlap);
            r == [Candidate(3, 1, 200), Candidate(6, 0, 150)] &&
            ExactOverlap(r[0], r[1]) && ExactOverlap(r[1], r[0])
  {
    OverlapGridFirstRow();
    OverlapGridSecondRow();
    CandidatesOverlap(3, 1, 200, 6, 0, 150);
    CandidatesOverlap(6, 0, 150, 3, 1, 200);
  }
}
