# Harris keypoint suppression, ratio test and detector dispatch

This project models the original logic of `src/matching2D_Student.cpp` in a
camera feature-tracking pipeline. Almost everything in that file calls the
vision library; what it decides for itself is modelled here:

- **Harris non-maximum suppression (NMS).** `detKeypointsHarris` scans the
  normalised Harris response grid row by row, column by column. Each cell
  whose truncated response is strictly above 100 becomes a candidate
  keypoint at (column, row), with size 6 (twice the aperture 3) and the
  cell's response. The candidate is checked against the caller's keypoint
  list in order. If it overlaps an entry and responds strictly more, it
  overwrites that entry and the check stops. If it overlaps entries that
  respond at least as much, it is dropped. If it overlaps nothing, it is
  appended. The caller's list is never cleared, so keypoints already in it
  take part.
- **Lowe ratio test.** With the k-nearest-neighbour selector, each query's
  best match is appended to `matches` when its distance is below 0.8 times
  the second best's.
- **Norm choice.** The brute-force matcher uses Hamming distance for
  `"DES_BINARY"` descriptors and L2 for every other descriptor type.
- **Detector dispatch.** `detKeypointsModern` maps a detector name to a case
  number 1..7 through a fixed table, and the `switch` runs the matching
  routine. A name missing from the table reads as 0 and runs nothing.

Modules:

- `CvTypes` (`cv_types.dfy`): the keypoint and match value types.
- `HarrisNms` (`harris_nms.dfy`): the scan. `Nms` is the reference definition, a
  row-major fold of `Suppress`, which is the effect of one candidate.
  `DetectHarrisNms` is the nested loop, proved equal to `Nms`.
- `NmsScenarios` (`nms_scenarios.dfy`): concrete runs of the scan with the
  overlap test read as exact circle intersection.
- `MatchDescriptors` (`match_descriptors.dfy`): the norm choice and the
  ratio-test loop `FilterByRatio`, proved against `Kept`.
- `DetectorDispatch` (`detector_dispatch.dfy`): the name table and the switch.

The overlap test `cv::KeyPoint::overlap(candidate, existing) > maxOverlap`
(with `maxOverlap` = 0) belongs to the library. It is a parameter,
`overlaps: (KeyPoint, KeyPoint) -> bool`, of every NMS member. It is always
called with the candidate first, as in the code. The caller's keypoint
vector is passed by reference. The model takes it as the input
`keypoints` and returns its final contents as `result`. Inside the loop the
list is overwritten at an index or appended to, as in the code.

Two consequences of the code are worth stating plainly:

- The caller's list is never cleared, so its entries take part in the
  suppression and can be overwritten by stronger candidates.
- A candidate overwrites the first overlapping entry that has a lower
  response and then stops looking, so later overlapping entries are never
  examined. This replace-then-stop rule can leave two overlapping keypoints
  side by side; `NmsScenarios.FirstMatchCanLeaveOverlap` shows this on a 2x7
  grid that starts from an empty list.

## Model

| member | source | states |
|---|---|---|
| `HarrisNms.Candidate` | src/matching2D_Student.cpp:229-232 | the candidate for a cell sits at x = column, y = row, has size 6 and the cell's response; its other fields are a default keypoint's (angle -1, octave 0, class id -1) |
| `HarrisNms.FirstReplaceable` | src/matching2D_Student.cpp:236-247 | returns the least list index whose entry overlaps the candidate and responds strictly less, or the list length when no entry does; no earlier index qualifies |
| `HarrisNms.SuppressAppendsIffNoOverlap` | src/matching2D_Student.cpp:235-252 | one candidate keeps the list length or adds exactly one entry; it adds one exactly when no entry overlaps it, and then the old list is kept and the candidate is appended at the end |
| `HarrisNms.SuppressReplacesFirst` | src/matching2D_Student.cpp:236-247 | when entry k is the first, in list order, that overlaps the candidate with a strictly lower response, the candidate overwrites index k and every other index is unchanged |
| `HarrisNms.SuppressDiscards` | src/matching2D_Student.cpp:238-252 | a candidate that overlaps some entry, where every overlapping entry responds at least as strongly, leaves the list unchanged |
| `HarrisNms.SuppressDominates` | src/matching2D_Student.cpp:242-251 | after one candidate no entry is gone, each index holds its old entry or one with a strictly higher response, and every entry is the old one at its index or the candidate |
| `HarrisNms.Suppress` | src/matching2D_Student.cpp:235-252 | defines the effect of one candidate through `FirstReplaceable`: overwrite the first replaceable entry, else drop the candidate if it overlaps anything, else append it; see `SuppressAppendsIffNoOverlap`, `SuppressReplacesFirst`, `SuppressDiscards` and `SuppressDominates` |
| `HarrisNms.ScanCell` | src/matching2D_Student.cpp:225-226 | defines the effect of one cell: a cell above 100 offers its candidate to `Suppress`, any other cell leaves the list as it is; see `NmsBelowThresholdUnchanged` and `NmsIgnoresLowCells` |
| `HarrisNms.ScanRow` | src/matching2D_Student.cpp:223-254 | defines the inner column loop as a left fold of `ScanCell` over the first n columns of one row; see `DetectHarrisNms`, whose inner loop invariant is this fold |
| `HarrisNms.ScanRows` | src/matching2D_Student.cpp:221-255 | defines the outer row loop as a left fold of `ScanRow` over the first m rows; see `DetectHarrisNms`, whose outer loop invariant is this fold |
| `HarrisNms.Nms` | src/matching2D_Student.cpp:221-255 | defines the whole row-major scan from the caller's list; see `NmsDominates`, `NmsEntriesWrittenFrom`, `NmsBelowThresholdUnchanged` and `NmsIgnoresLowCells` |
| `HarrisNms.NmsBelowThresholdUnchanged` | src/matching2D_Student.cpp:221-226 | a grid with no cell above 100 leaves the caller's list exactly as it was; an empty list stays empty |
| `HarrisNms.NmsIgnoresLowCells` | src/matching2D_Student.cpp:225-226 | cells at or below 100 have no effect: two grids of the same shape that agree on every above-threshold cell give the same list |
| `HarrisNms.NmsDominates` | src/matching2D_Student.cpp:221-255 | over the whole scan no entry is removed, including the caller's own entries; each index's response never decreases; the final length lies between the initial length and that length plus the number of cells above 100 |
| `HarrisNms.NmsEntriesWrittenFrom` | src/matching2D_Student.cpp:221-255 | every final entry is the caller's entry at that index, or the candidate of an above-threshold cell (that cell's column and row, size 6, that cell's response) |
| `HarrisNms.DetectHarrisNms` | src/matching2D_Student.cpp:219-255 | the nested loop (rows outer, columns inner, list scan with overwrite-and-stop, append when no overlap) returns exactly the row-major fold `Nms`, with the domination, length and provenance properties above |
| `NmsScenarios.ExactOverlap` | src/matching2D_Student.cpp:238-239 | defines one exact-arithmetic reading of the library's test "overlap > 0": both radii positive and the centres closer than the sum of the radii; used only by the concrete runs; `CandidatesOverlap` shows two candidates overlap exactly when their cells are less than 6 apart |
| `NmsScenarios.AdjacentCellsKeepStronger` | src/matching2D_Student.cpp:221-255 | on a 5x5 grid of zeros holding 150 at (row 2, column 2) and 200 at (row 2, column 3), starting from an empty list, exactly one keypoint remains: (3, 2) with response 200 |
| `NmsScenarios.FirstMatchCanLeaveOverlap` | src/matching2D_Student.cpp:236-252 | on a 2x7 grid, starting from an empty list, the result is two keypoints that overlap each other: the overwrite stops at the first entry, so the second overlapping entry survives |
| `MatchDescriptors.NormFor` | src/matching2D_Student.cpp:17 | the norm is Hamming exactly when the descriptor type is "DES_BINARY", and L2 for every other type |
| `MatchDescriptors.PassesRatio` | src/matching2D_Student.cpp:81-85 | defines the test on one k-NN entry: the best distance is below 0.8 times the second best; see `PassingIndices` |
| `MatchDescriptors.Kept` | src/matching2D_Student.cpp:82-88 | defines the matches the loop appends, in the order of the k-NN entries; see `KeptSelectsPassing`, `KeptBounds` and `FilterByRatio` |
| `MatchDescriptors.PassingIndices` | src/matching2D_Student.cpp:82-88 | the strictly increasing sequence of exactly the k-NN entries whose best distance is below 0.8 times the second best |
| `MatchDescriptors.KeptSelectsPassing` | src/matching2D_Student.cpp:82-90 | the kept matches are, in order, the best matches of exactly the passing entries |
| `MatchDescriptors.KeptBounds` | src/matching2D_Student.cpp:82-90 | at most one match is kept per entry, and none is kept exactly when no entry passes |
| `MatchDescriptors.FilterByRatio` | src/matching2D_Student.cpp:80-90 | the loop returns the existing matches unchanged, followed by the kept matches in order; the length grows by at most the number of entries |
| `DetectorDispatch.CaseNumber` | src/matching2D_Student.cpp:419-433 | a name in the table gets a case number in 1..7; any other name gets 0 |
| `DetectorDispatch.SelectByName` | src/matching2D_Student.cpp:419-474 | each of the seven routines is selected by its table name ("SHITOMASI", "HARRIS", "ORB", "AKAZE", "SIFT", "BRISK", "FAST") |
| `DetectorDispatch.SelectedRoutineIsNamed` | src/matching2D_Student.cpp:419-474 | a name selects a routine exactly when it is in the table, and then the routine is the one with that name; any other name hits the empty default |
| `DetectorDispatch.SwitchCase` | src/matching2D_Student.cpp:433-474 | defines the `switch`: cases 1..7 give ShiTomasi, Harris, Orb, Akaze, Sift, Brisk and Fast, and every other number gives the empty default; its contract is given by `SelectByName` and `SelectedRoutineIsNamed` |
| `DetectorDispatch.SelectDetector` | src/matching2D_Student.cpp:433 | defines the dispatch as the `switch` applied to the table lookup; see `SelectByName` and `SelectedRoutineIsNamed`, which also show that distinct known names select distinct routines |

## Left out

- The vision library's own computation is not modelled, because each step is a call into a library whose code is not part of this model. This covers the Harris response, the min-max normalisation and the `(int)` truncation that produce the integer grid. It also covers the Shi-Tomasi, ORB, AKAZE, SIFT, BRISK and FAST detectors, descriptor extraction, `match` and `knnMatch`, and the conversions to 32-bit float.
- The internals of `cv::KeyPoint::overlap` are not modelled, because they are library floating-point geometry. The test stays a parameter. `NmsScenarios.ExactOverlap` is one exact-arithmetic reading of it, used only for the concrete runs.
- Float rounding is not modelled. Distances, responses and the 0.8 ratio are `real`, so `d0 < 0.8 * d1` is exact.
- NaN distances or responses are not modelled, because `real` has no NaN.
- The effect of running each selected detector is not modelled: the dispatch model stops at which routine runs. Case 7 runs the FAST detector object directly, not `detKeypointsFAST`, so it never visualises. That difference is not represented.
- Visualisation, timing with tick counts, and console output are not modelled, because they are I/O.
- The Shi-Tomasi `maxCorners` and `minDistance` arithmetic is not modelled, because it is floating-point input to a library call.
- Creating the matchers and extractors with fixed parameters is not modelled, because it configures library objects. The same goes for the FLANN float conversion and `descKeypoints`' choice of extractor by name.
- The guard that runs `knnMatch` only when both keypoint lists hold at least two entries is not modelled. The same goes for the `try`/`catch` around `knnMatch`. When the guard fails, the k-NN result is empty and `FilterByRatio` on an empty input returns `matches` unchanged.
- `MatchDescriptors.FilterByRatio` requires every k-NN entry to hold two matches, because the code reads the second match without a check.
- No lemma shows that a higher threshold never yields more keypoints: the code fixes the threshold at 100 and promises nothing about other thresholds.
