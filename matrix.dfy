/** Dense row-major matrices of reals, as `cv::Mat` rows and torch tensors hold them. */
module Matrix {

  /** `m` has `rows` rows of `cols` entries each. */
  predicate IsMatrix(m: seq<seq<real>>, rows: nat, cols: nat)
  {
    |m| == rows && forall i :: 0 <= i < rows ==> |m[i]| == cols
  }

  /** A `cv::Mat` of `CV_32F` entries: its column count and its rows. */
  datatype Mat = Mat(cols: nat, data: seq<seq<real>>) {
    predicate Valid() { IsMatrix(data, |data|, cols) }
    function Rows(): nat { |data| }
  }

  /**
   * The contiguous result of `permute` that swaps the two axes of an
   * `|m|` by `cols` matrix.
   */
  function Transpose(m: seq<seq<real>>, cols: nat): (t: seq<seq<real>>)
    requires IsMatrix(m, |m|, cols)
    ensures IsMatrix(t, cols, |m|)
    ensures forall d, n :: 0 <= d < cols && 0 <= n < |m| ==> t[d][n] == m[n][d]
  {
    seq(cols, d requires 0 <= d < cols => seq(|m|, n requires 0 <= n < |m| => m[n][d]))
  }

  /** Swapping the axes twice gives back the original matrix. */
  lemma TransposeTwice(m: seq<seq<real>>, cols: nat)
    requires IsMatrix(m, |m|, cols)
    ensures Transpose(Transpose(m, cols), |m|) == m
  {
    var t := Transpose(Transpose(m, cols), |m|);
    forall n | 0 <= n < |m|
      ensures t[n] == m[n]
    {
      assert |t[n]| == |m[n]|;
    }
  }
}
