/**
 * The OpenCV value types that cross the boundaries of the detector, the
 * matcher and the example applications.
 */
module Features {

  /** `cv::Point2f`, with single-precision coordinates modelled as reals. */
  datatype Point = Point(x: real, y: real)

  /**
   * `cv::KeyPoint`, restricted to the fields the library sets: the position
   * and the detector response (the other fields keep OpenCV's defaults).
   */
  datatype KeyPoint = KeyPoint(pt: Point, response: real)

  /** `cv::DMatch`: a correspondence between a query and a train keypoint. */
  datatype DMatch = DMatch(queryIdx: int, trainIdx: int, imgIdx: int, distance: real)

  /** `FLT_MAX`, the distance a default-constructed `cv::DMatch` carries. */
  const FLT_MAX: real := 340282346638528859811704183484516925440.0

  /** The conversion of a float to `int` in C++: truncation toward zero. */
  function Trunc(r: real): (t: int)
    ensures r >= 0.0 ==> t as real <= r < t as real + 1.0
    ensures r < 0.0 ==> t as real - 1.0 < r <= t as real
  {
    if r >= 0.0 then r.Floor else -((-r).Floor)
  }
}
