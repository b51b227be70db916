/**
 * The match selection at the end of `SuperGlueWrapper.forward`: from the
 * optimal-transport score matrix (N + 1 rows by M + 1 columns, the last row
 * and column being the dustbins) it keeps the pairs that are each other's
 * best match and score above the match threshold.
 *
 * The score matrix is a parameter (the network that computes it is not
 * modelled), and so is `exp`. The batch holds one image pair.
 */
module MutualMatch {
  import opened Wrappers
  import opened Matrix

  /** The first `n` rows of `s` have at least `m` entries: `s` holds an `n` by `m` block at its top left. */
  predicate Covers(s: seq<seq<real>>, n: nat, m: nat)
  {
    n <= |s| && forall i :: 0 <= i < n ==> m <= |s[i]|
  }

  /** `j` attains the maximum of row `i` of the `n` by `m` block of `s`. */
  predicate IsRowArgMax(s: seq<seq<real>>, n: nat, m: nat, i: nat, j: int)
    requires Covers(s, n, m) && i < n
  {
    0 <= j < m && forall k :: 0 <= k < m ==> s[i][k] <= s[i][j]
  }

  /** `i` attains the maximum of column `j` of the `n` by `m` block of `s`. */
  predicate IsColArgMax(s: seq<seq<real>>, n: nat, m: nat, j: nat, i: int)
    requires Covers(s, n, m) && j < m
  {
    0 <= i < n && forall k :: 0 <= k < n ==> s[k][j] <= s[i][j]
  }

  /** `indices0` and `indices1` are what `max(2).indices` and `max(1).indices` may return. */
  predicate AreArgMaxes(s: seq<seq<real>>, n: nat, m: nat, indices0: seq<int>, indices1: seq<int>)
    requires Covers(s, n, m)
  {
    && |indices0| == n && |indices1| == m
    && (forall i :: 0 <= i < n ==> IsRowArgMax(s, n, m, i, indices0[i]))
    && (forall j :: 0 <= j < m ==> IsColArgMax(s, n, m, j, indices1[j]))
  }

  /** Every entry of `indices0` indexes `indices1` and the other way round. */
  predicate InRange(indices0: seq<int>, indices1: seq<int>)
  {
    && (forall i :: 0 <= i < |indices0| ==> 0 <= indices0[i] < |indices1|)
    && (forall j :: 0 <= j < |indices1| ==> 0 <= indices1[j] < |indices0|)
  }

  /** `mutual0`: query i is mutual when its best train keypoint picks it back. */
  function Mutual0(indices0: seq<int>, indices1: seq<int>): seq<bool>
    requires InRange(indices0, indices1)
  {
    seq(|indices0|, i requires 0 <= i < |indices0| => indices1[indices0[i]] == i)
  }

  /** `mutual1`: train j is mutual when its best query keypoint picks it back. */
  function Mutual1(indices0: seq<int>, indices1: seq<int>): seq<bool>
    requires InRange(indices0, indices1)
  {
    seq(|indices1|, j requires 0 <= j < |indices1| => indices0[indices1[j]] == j)
  }

  /** `mscores0`: the exponentiated row maximum where mutual, zero elsewhere. */
  function MScores0(s: seq<seq<real>>, m: nat, indices0: seq<int>, mutual0: seq<bool>, exp: real -> real): seq<real>
    requires |mutual0| == |indices0| && Covers(s, |indices0|, m)
    requires forall i :: 0 <= i < |indices0| ==> 0 <= indices0[i] < m
  {
    seq(|indices0|, i requires 0 <= i < |indices0| => if mutual0[i] then exp(s[i][indices0[i]]) else 0.0)
  }

  /** `mscores1`: train j takes the score of its query partner where mutual, zero elsewhere. */
  function MScores1(mutual1: seq<bool>, indices1: seq<int>, mscores0: seq<real>): seq<real>
    requires |mutual1| == |indices1| && forall j :: 0 <= j < |indices1| ==> 0 <= indices1[j] < |mscores0|
  {
    seq(|indices1|, j requires 0 <= j < |indices1| => if mutual1[j] then mscores0[indices1[j]] else 0.0)
  }

  /** `valid0`: mutual and strictly above the threshold. */
  function Valid0(mutual0: seq<bool>, mscores0: seq<real>, threshold: real): seq<bool>
    requires |mutual0| == |mscores0|
  {
    seq(|mutual0|, i requires 0 <= i < |mutual0| => mutual0[i] && mscores0[i] > threshold)
  }

  /** `valid1`: mutual and the query partner is valid. */
  function Valid1(mutual1: seq<bool>, valid0: seq<bool>, indices1: seq<int>): seq<bool>
    requires |mutual1| == |indices1| && forall j :: 0 <= j < |indices1| ==> 0 <= indices1[j] < |valid0|
  {
    seq(|indices1|, j requires 0 <= j < |indices1| => mutual1[j] && valid0[indices1[j]])
  }

  /** The final `torch.where` on each side: the index where valid, -1 elsewhere. */
  function Where(valid: seq<bool>, indices: seq<int>): seq<int>
    requires |valid| == |indices|
  {
    seq(|valid|, i requires 0 <= i < |valid| => if valid[i] then indices[i] else -1)
  }

  /** The four tensors `forward` returns. */
  datatype Selection = Selection(matches0: seq<int>, matches1: seq<int>, mscores0: seq<real>, mscores1: seq<real>)

  /**
   * The selection from `mutual0` to the final `indices0` and `indices1`,
   * for given argmax indices of the `n` by `m` block of `s` (`indices0` has
   * one entry per row, `indices1` one per column).
   */
  function Select(s: seq<seq<real>>, m: nat, indices0: seq<int>, indices1: seq<int>,
                  exp: real -> real, threshold: real): Selection
    requires Covers(s, |indices0|, m) && |indices1| == m && InRange(indices0, indices1)
  {
    var mutual0 := Mutual0(indices0, indices1);
    var mutual1 := Mutual1(indices0, indices1);
    var mscores0 := MScores0(s, m, indices0, mutual0, exp);
    var mscores1 := MScores1(mutual1, indices1, mscores0);
    var valid0 := Valid0(mutual0, mscores0, threshold);
    var valid1 := Valid1(mutual1, valid0, indices1);
    Selection(Where(valid0, indices0), Where(valid1, indices1), mscores0, mscores1)
  }

  /** The first index at which `v` attains its maximum. */
  function ArgMax(v: seq<real>): (j: nat)
    requires |v| > 0
    ensures j < |v|
    ensures forall k :: 0 <= k < |v| ==> v[k] <= v[j]
    ensures forall k :: 0 <= k < j ==> v[k] < v[j]
  {
    if |v| == 1 then 0
    else
      var j := ArgMax(v[..|v| - 1]);
      if v[|v| - 1] > v[j] then |v| - 1 else j
  }

  /** Column `j` of the first `n` rows of `s`. */
  function Column(s: seq<seq<real>>, n: nat, j: nat): (c: seq<real>)
    requires n <= |s| && forall i :: 0 <= i < n ==> j < |s[i]|
    ensures |c| == n && forall i :: 0 <= i < n ==> c[i] == s[i][j]
  {
    seq(n, i requires 0 <= i < n => s[i][j])
  }

  /** `max(2).indices` over the `n` by `m` block, breaking ties toward the first column. */
  function RowArgMaxes(s: seq<seq<real>>, n: nat, m: nat): (indices0: seq<int>)
    requires m > 0 && Covers(s, n, m)
    ensures |indices0| == n
    ensures forall i :: 0 <= i < n ==> IsRowArgMax(s, n, m, i, indices0[i])
  {
    seq(n, i requires 0 <= i < n => ArgMax(s[i][..m]))
  }

  /** `max(1).indices` over the `n` by `m` block, breaking ties toward the first row. */
  function ColArgMaxes(s: seq<seq<real>>, n: nat, m: nat): (indices1: seq<int>)
    requires n > 0 && Covers(s, n, m)
    ensures |indices1| == m
    ensures forall j :: 0 <= j < m ==> IsColArgMax(s, n, m, j, indices1[j])
  {
    seq(m, j requires 0 <= j < m => ArgMax(Column(s, n, j)))
  }

  datatype Error = EmptyReduction

  /**
   * The match selection, from `max0` and `max1` to the returned indices and
   * scores, on the full score matrix of `cols` columns, whose last row and
   * column are the dustbins and take no part. The maximum over an empty
   * dimension raises, so there must be at least one keypoint on each side.
   * On success, every kept pair is mutual, above the threshold and the best
   * entry of both its row and its column, and the two match vectors agree
   * with each other.
   */
  function SelectMatches(scores: seq<seq<real>>, cols: nat, exp: real -> real, threshold: real): (r: Result<Selection, Error>)
    requires |scores| >= 1 && cols >= 1 && IsMatrix(scores, |scores|, cols)
    ensures r.Failure? <==> |scores| == 1 || cols == 1
    ensures r.Success? ==>
      var n, m := |scores| - 1, cols - 1;
      && |r.value.matches0| == |r.value.mscores0| == n
      && |r.value.matches1| == |r.value.mscores1| == m
      && (forall i :: 0 <= i < n ==> r.value.matches0[i] == -1 || 0 <= r.value.matches0[i] < m)
      && (forall j :: 0 <= j < m ==> r.value.matches1[j] == -1 || 0 <= r.value.matches1[j] < n)
      && (forall i, j :: 0 <= i < n && 0 <= j < m ==> (r.value.matches0[i] == j <==> r.value.matches1[j] == i))
      && (forall i :: 0 <= i < n && r.value.matches0[i] >= 0 ==>
            var j := r.value.matches0[i];
            && (forall k :: 0 <= k < m ==> scores[i][k] <= scores[i][j])
            && (forall k :: 0 <= k < n ==> scores[k][j] <= scores[i][j])
            && r.value.mscores0[i] == exp(scores[i][j]) > threshold)
  {
    var n, m := |scores| - 1, cols - 1;
    if n == 0 || m == 0 then Failure(EmptyReduction)
    else
      var indices0 := RowArgMaxes(scores, n, m);
      var indices1 := ColArgMaxes(scores, n, m);
      SelectShape(scores, m, indices0, indices1, exp, threshold);
      SelectSymmetric(scores, m, indices0, indices1, exp, threshold);
      SelectMutualBest(scores, n, m, indices0, indices1, exp, threshold);
      Success(Select(scores, m, indices0, indices1, exp, threshold))
  }

  /**
   * Lengths and ranges: each output entry is -1 or an index into the other
   * keypoint set. Query i keeps its best index exactly when it is mutual and
   * its score is strictly above the threshold, and train j takes the score of
   * its query partner exactly when it is mutual.
   */
  lemma SelectShape(s: seq<seq<real>>, m: nat, indices0: seq<int>, indices1: seq<int>,
                    exp: real -> real, threshold: real)
    requires Covers(s, |indices0|, m) && |indices1| == m && InRange(indices0, indices1)
    ensures var r, n := Select(s, m, indices0, indices1, exp, threshold), |indices0|;
      && |r.matches0| == |r.mscores0| == n && |r.matches1| == |r.mscores1| == m
      && (forall i :: 0 <= i < n ==> r.matches0[i] == -1 || 0 <= r.matches0[i] < m)
      && (forall j :: 0 <= j < m ==> r.matches1[j] == -1 || 0 <= r.matches1[j] < n)
      && (forall i :: 0 <= i < n ==>
            && r.mscores0[i] == (if indices1[indices0[i]] == i then exp(s[i][indices0[i]]) else 0.0)
            && (r.matches0[i] >= 0 <==> indices1[indices0[i]] == i && r.mscores0[i] > threshold)
            && (r.matches0[i] >= 0 ==> r.matches0[i] == indices0[i]))
      && (forall j :: 0 <= j < m ==>
            r.mscores1[j] == (if indices0[indices1[j]] == j then r.mscores0[indices1[j]] else 0.0))
  {
  }

  /** Symmetry: query i is matched to train j exactly when train j is matched to query i. */
  lemma SelectSymmetric(s: seq<seq<real>>, m: nat, indices0: seq<int>, indices1: seq<int>,
                        exp: real -> real, threshold: real)
    requires Covers(s, |indices0|, m) && |indices1| == m && InRange(indices0, indices1)
    ensures var r := Select(s, m, indices0, indices1, exp, threshold);
      forall i, j :: 0 <= i < |indices0| && 0 <= j < m ==> (r.matches0[i] == j <==> r.matches1[j] == i)
  {
    var r := Select(s, m, indices0, indices1, exp, threshold);
    var mutual0 := Mutual0(indices0, indices1);
    var mutual1 := Mutual1(indices0, indices1);
    var valid0 := Valid0(mutual0, r.mscores0, threshold);
    var valid1 := Valid1(mutual1, valid0, indices1);
    forall i, j | 0 <= i < |indices0| && 0 <= j < m
      ensures r.matches0[i] == j <==> r.matches1[j] == i
    {
      if r.matches0[i] == j {
        assert valid0[i] && indices0[i] == j && indices1[j] == i;
        assert mutual1[j] && valid1[j];
      }
      if r.matches1[j] == i {
        assert valid1[j] && indices1[j] == i;
        assert valid0[i] && indices0[i] == j;
      }
    }
  }

  /** No two query keypoints are matched to the same train keypoint. */
  lemma SelectInjective(s: seq<seq<real>>, m: nat, indices0: seq<int>, indices1: seq<int>,
                        exp: real -> real, threshold: real)
    requires Covers(s, |indices0|, m) && |indices1| == m && InRange(indices0, indices1)
    ensures var r := Select(s, m, indices0, indices1, exp, threshold);
      forall i, i' :: 0 <= i < i' < |indices0| && r.matches0[i] >= 0 ==> r.matches0[i] != r.matches0[i']
  {
    SelectSymmetric(s, m, indices0, indices1, exp, threshold);
    SelectShape(s, m, indices0, indices1, exp, threshold);
  }

  /**
   * With genuine argmax indices, a kept pair (i, j) is the best entry of
   * both row i and column j, and its exponentiated score beats the threshold.
   */
  lemma SelectMutualBest(s: seq<seq<real>>, n: nat, m: nat, indices0: seq<int>, indices1: seq<int>,
                         exp: real -> real, threshold: real)
    requires Covers(s, n, m) && AreArgMaxes(s, n, m, indices0, indices1) && InRange(indices0, indices1)
    ensures var r := Select(s, m, indices0, indices1, exp, threshold);
      forall i :: 0 <= i < n && r.matches0[i] >= 0 ==>
        var j := r.matches0[i];
        && (forall k :: 0 <= k < m ==> s[i][k] <= s[i][j])
        && (forall k :: 0 <= k < n ==> s[k][j] <= s[i][j])
        && r.mscores0[i] == exp(s[i][j]) > threshold
  {
    var r := Select(s, m, indices0, indices1, exp, threshold);
    SelectShape(s, m, indices0, indices1, exp, threshold);
    forall i | 0 <= i < n && r.matches0[i] >= 0
      ensures var j := r.matches0[i];
        && (forall k :: 0 <= k < m ==> s[i][k] <= s[i][j])
        && (forall k :: 0 <= k < n ==> s[k][j] <= s[i][j])
        && r.mscores0[i] == exp(s[i][j]) > threshold
    {
      var j := r.matches0[i];
      assert IsRowArgMax(s, n, m, i, indices0[i]);
      assert indices1[j] == i;
      assert IsColArgMax(s, n, m, j, indices1[j]);
    }
  }
}
