/**
 * The name-to-detector dispatch of `detKeypointsModern`: a detector name
 * is looked up in a fixed name-to-case table, and the case number selects
 * one detector routine; a name not in the table gets case 0, which falls
 * to the `default` branch and runs nothing.
 */
module DetectorDispatch {

  /** The routines the dispatch can run; `NoDetector` is the empty default. */
  datatype Detector = ShiTomasi | Harris | Orb | Akaze | Sift | Brisk | Fast | NoDetector

  /** The name-to-case table. */
  const DetectorCases: map<string, int> :=
    map["SHITOMASI" := 1, "HARRIS" := 2, "ORB" := 3, "AKAZE" := 4,
        "SIFT" := 5, "BRISK" := 6, "FAST" := 7]

  /** The names the table knows. */
  predicate KnownName(detectorType: string)
  {
    detectorType in DetectorCases
  }

  /** The case number of a name; a name missing from the table reads as 0,
      the value a lookup of a missing key produces. */
  function CaseNumber(detectorType: string): (n: int)
    ensures KnownName(detectorType) ==> 1 <= n <= 7
    ensures !KnownName(detectorType) ==> n == 0
  {
    if detectorType in DetectorCases then DetectorCases[detectorType] else 0
  }

  /** The `switch` over the case number. */
  function SwitchCase(n: int): Detector
  {
    match n
    case 1 => ShiTomasi
    case 2 => Harris
    case 3 => Orb
    case 4 => Akaze
    case 5 => Sift
    case 6 => Brisk
    case 7 => Fast
    case _ => NoDetector
  }

  /** The routine the dispatch runs for `detectorType`. */
  function SelectDetector(detectorType: string): Detector
  {
    SwitchCase(CaseNumber(detectorType))
  }

  /** The table name of each routine; the default has none. */
  function DetectorName(d: Detector): string
  {
    match d
    case ShiTomasi => "SHITOMASI"
    case Harris => "HARRIS"
    case Orb => "ORB"
    case Akaze => "AKAZE"
    case Sift => "SIFT"
    case Brisk => "BRISK"
    case Fast => "FAST"
    case NoDetector => ""
  }

  /** Each routine is selected by its own name. */
  lemma SelectByName(d: Detector)
    requires d != NoDetector
    ensures KnownName(DetectorName(d))
    ensures SelectDetector(DetectorName(d)) == d
  {
  }

  /** A name selects a routine exactly when the table knows it, and then the
      routine is the one of that name; every other name runs nothing. */
  lemma SelectedRoutineIsNamed(detectorType: string)
    ensures SelectDetector(detectorType) != NoDetector <==> KnownName(detectorType)
    ensures SelectDetector(detectorType) != NoDetector ==>
              DetectorName(SelectDetector(detectorType)) == detectorType
  {
  }
}
