/**
 * The two value types of the vision library that the original logic of
 * src/matching2D_Student.cpp reads and writes: a keypoint and a descriptor
 * match. Single-precision floats are modelled as `real` (no rounding).
 */
module CvTypes {

  /** A keypoint: position (x = column, y = row), neighbourhood diameter,
      orientation, detector response, pyramid octave and object class. */
  datatype KeyPoint = KeyPoint(
    x: real,
    y: real,
    size: real,
    angle: real,
    response: real,
    octave: int,
    classId: int)

  /** A default-constructed keypoint: position (0,0), size 0, angle -1,
      response 0, octave 0 and class id -1. */
  const DefaultKeyPoint: KeyPoint := KeyPoint(0.0, 0.0, 0.0, -1.0, 0.0, 0, -1)

  /** A descriptor match: query and train descriptor indices, image index
      and descriptor distance. */
  datatype DMatch = DMatch(queryIdx: int, trainIdx: int, imgIdx: int, distance: real)
}
