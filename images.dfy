/**
 * Images as the codec sees them: a continuous `cv::Mat` of 8-bit samples,
 * stored row by row with the channels of a pixel next to each other.
 */
module Images {

  datatype Mat = Mat(rows: nat, cols: nat, channels: nat, data: seq<bv8>)

  /** A default-constructed `cv::Mat`: no rows, no columns, one channel. */
  const Empty: Mat := Mat(0, 0, 1, [])

  /** The sample buffer holds exactly rows * cols * channels samples. */
  predicate WellSized(m: Mat) {
    |m.data| == m.rows * m.cols * m.channels
  }

  /** A bit plane as the codec stores one: every sample is 0 or 255. */
  predicate Binary(s: seq<bv8>) {
    forall i :: 0 <= i < |s| ==> s[i] == 0 || s[i] == 255
  }
}
