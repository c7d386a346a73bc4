/** The vector linear interpolator over the input displacement field, seen only
    through the two queries the filter makes of it. */
module Interpolation {
  import opened ImageGeometry

  /** `isInsideBuffer(p)` says whether `p` lies in the input's sampled domain;
      `evaluate(p)` is the interpolated input vector there and may only be asked
      for points the first query accepts. */
  datatype Interpolator = Interpolator(
    dimension: nat,
    isInsideBuffer: Vec -> bool,
    evaluate: Vec --> Vec)
  {
    /** Every point inside the buffer can be evaluated and yields one component per axis. */
    ghost predicate Valid() {
      forall p :: isInsideBuffer(p) ==> evaluate.requires(p) && |evaluate(p)| == dimension
    }
  }
}
