/**
 * The SuperGlue matcher (`SuperGlueImpl`): construction, the packing of two
 * keypoint sets into the tensors the traced network reads, and the decoding
 * of the network's `matches0` assignment into `cv::DMatch` values.
 *
 * The network is a parameter `net` of function type.
 */
module SuperGlue {
  import opened Wrappers
  import opened Features
  import opened Matrix
  import opened Device

  /** `SuperGlue::Param`. */
  datatype Param = Param(pathToWeights: string, gpuIdx: int)

  /** A constructed matcher: the parameters it keeps. */
  datatype Matcher = Matcher(param: Param)

  datatype Error = EmptyWeightsPath

  /**
   * `SuperGlueImpl`'s constructor: an empty weights path is rejected before
   * any model is loaded; otherwise the matcher keeps the parameters, with
   * `gpuIdx` settled by the build and the CUDA runtime.
   */
  function Create(param: Param, gpuBuild: bool, cudaAvailable: bool): (r: Result<Matcher, Error>)
    ensures r.Failure? <==> param.pathToWeights == []
    ensures r.Success? ==>
              r.value.param == param.(gpuIdx := ResolveGpuIdx(param.gpuIdx, gpuBuild, cudaAvailable))
  {
    if param.pathToWeights == [] then Failure(EmptyWeightsPath)
    else Success(Matcher(param.(gpuIdx := ResolveGpuIdx(param.gpuIdx, gpuBuild, cudaAvailable))))
  }

  /** `cv::Size`. */
  datatype Size = Size(width: nat, height: nat)

  /** The tensors handed to the network's `forward`, by their dictionary names. */
  datatype Inputs = Inputs(
    image0Shape: seq<real>, image1Shape: seq<real>,
    descriptors0: seq<seq<real>>, descriptors1: seq<seq<real>>,
    keypoints0: seq<seq<real>>, scores0: seq<real>,
    keypoints1: seq<seq<real>>, scores1: seq<real>)

  /** The two output tensors of the network that the matcher reads. */
  datatype Outputs = Outputs(matches0: seq<int>, matches1: seq<int>)

  /** The `image*_shape` vector: batch and channel counts, then height and width. */
  function ShapeOf(s: Size): seq<real>
  {
    [1.0, 1.0, s.height as real, s.width as real]
  }

  /** Keypoint i as the network reads it: row (y) first, then column (x). */
  function PackedKeyPoint(kp: KeyPoint): seq<real>
  {
    [kp.pt.y, kp.pt.x]
  }

  /**
   * A descriptor matrix the matcher can read for `n` keypoints: from the
   * first `n` rows of `desc`, all of `desc.cols` entries.
   */
  predicate Readable(desc: Mat, n: nat)
  {
    desc.Valid() && n <= desc.Rows()
  }

  /** The tensor bundle `match` builds. */
  function Packed(queryDesc: Mat, queryKps: seq<KeyPoint>, querySize: Size,
                  trainDesc: Mat, trainKps: seq<KeyPoint>, trainSize: Size): Inputs
    requires Readable(queryDesc, |queryKps|) && Readable(trainDesc, |trainKps|)
  {
    Inputs(ShapeOf(querySize), ShapeOf(trainSize),
           Transpose(queryDesc.data[..|queryKps|], queryDesc.cols),
           Transpose(trainDesc.data[..|trainKps|], trainDesc.cols),
           seq(|queryKps|, i requires 0 <= i < |queryKps| => PackedKeyPoint(queryKps[i])),
           seq(|queryKps|, i requires 0 <= i < |queryKps| => queryKps[i].response),
           seq(|trainKps|, i requires 0 <= i < |trainKps| => PackedKeyPoint(trainKps[i])),
           seq(|trainKps|, i requires 0 <= i < |trainKps| => trainKps[i].response))
  }

  /**
   * The loop that fills the zero-initialised `keyPoints` and `scores`
   * tensors of one side, element by element.
   */
  method PackKeyPoints(kps: seq<KeyPoint>) returns (keyPoints: seq<seq<real>>, scores: seq<real>)
    ensures |keyPoints| == |kps| && |scores| == |kps|
    ensures forall i :: 0 <= i < |kps| ==> keyPoints[i] == [kps[i].pt.y, kps[i].pt.x]
    ensures forall i :: 0 <= i < |kps| ==> scores[i] == kps[i].response
  {
    keyPoints := seq(|kps|, _ => [0.0, 0.0]);
    scores := seq(|kps|, _ => 0.0);
    var i := 0;
    while i < |kps|
      invariant 0 <= i <= |kps|
      invariant |keyPoints| == |kps| && |scores| == |kps|
      invariant forall k :: 0 <= k < i ==> keyPoints[k] == [kps[k].pt.y, kps[k].pt.x]
      invariant forall k :: 0 <= k < i ==> scores[k] == kps[k].response
      invariant forall k :: i <= k < |kps| ==> keyPoints[k] == [0.0, 0.0]
    {
      keyPoints := keyPoints[i := keyPoints[i][0 := kps[i].pt.y]];
      keyPoints := keyPoints[i := keyPoints[i][1 := kps[i].pt.x]];
      scores := scores[i := kps[i].response];
      i := i + 1;
    }
  }

  /**
   * The packing half of `match`: shape vectors `[1, 1, height, width]`,
   * descriptors transposed to channels-first, keypoints in (y, x) order and
   * their responses as scores.
   */
  method Pack(queryDesc: Mat, queryKps: seq<KeyPoint>, querySize: Size,
              trainDesc: Mat, trainKps: seq<KeyPoint>, trainSize: Size) returns (data: Inputs)
    requires Readable(queryDesc, |queryKps|) && Readable(trainDesc, |trainKps|)
    ensures data == Packed(queryDesc, queryKps, querySize, trainDesc, trainKps, trainSize)
    ensures data.image0Shape == [1.0, 1.0, querySize.height as real, querySize.width as real]
    ensures data.image1Shape == [1.0, 1.0, trainSize.height as real, trainSize.width as real]
    ensures IsMatrix(data.descriptors0, queryDesc.cols, |queryKps|)
    ensures forall d, n :: 0 <= d < queryDesc.cols && 0 <= n < |queryKps| ==>
              data.descriptors0[d][n] == queryDesc.data[n][d]
    ensures IsMatrix(data.descriptors1, trainDesc.cols, |trainKps|)
    ensures forall d, n :: 0 <= d < trainDesc.cols && 0 <= n < |trainKps| ==>
              data.descriptors1[d][n] == trainDesc.data[n][d]
    ensures |data.keypoints0| == |data.scores0| == |queryKps|
    ensures forall i :: 0 <= i < |queryKps| ==>
              data.keypoints0[i] == [queryKps[i].pt.y, queryKps[i].pt.x] && data.scores0[i] == queryKps[i].response
    ensures |data.keypoints1| == |data.scores1| == |trainKps|
    ensures forall i :: 0 <= i < |trainKps| ==>
              data.keypoints1[i] == [trainKps[i].pt.y, trainKps[i].pt.x] && data.scores1[i] == trainKps[i].response
  {
    var descriptors0 := Transpose(queryDesc.data[..|queryKps|], queryDesc.cols);
    var descriptors1 := Transpose(trainDesc.data[..|trainKps|], trainDesc.cols);
    var keyPoints0, scores0 := PackKeyPoints(queryKps);
    var keyPoints1, scores1 := PackKeyPoints(trainKps);
    assert keyPoints0 == seq(|queryKps|, i requires 0 <= i < |queryKps| => PackedKeyPoint(queryKps[i]));
    assert keyPoints1 == seq(|trainKps|, i requires 0 <= i < |trainKps| => PackedKeyPoint(trainKps[i]));
    data := Inputs(ShapeOf(querySize), ShapeOf(trainSize), descriptors0, descriptors1,
                   keyPoints0, scores0, keyPoints1, scores1);
  }

  /** The correspondence decoded for query keypoint `i`. */
  function MatchOf(i: nat, trainIdx: int): DMatch
  {
    DMatch(i, trainIdx, 0, FLT_MAX)
  }

  /** The correspondences decoded from the first `n` entries of `matches0`, in query order. */
  function Decoded(matches0: seq<int>, n: nat): (ms: seq<DMatch>)
    requires n <= |matches0|
    ensures |ms| <= n
  {
    if n == 0 then []
    else Decoded(matches0, n - 1) + (if matches0[n - 1] < 0 then [] else [MatchOf(n - 1, matches0[n - 1])])
  }

  /**
   * The decoding loop of `match`: for each query index in order, a negative
   * entry is skipped and any other entry is appended to the caller's vector.
   */
  method DecodeMatches(matches0: seq<int>, numQueryKeyPoints: nat, matches: seq<DMatch>) returns (matches': seq<DMatch>)
    requires numQueryKeyPoints <= |matches0|
    ensures matches' == matches + Decoded(matches0, numQueryKeyPoints)
  {
    matches' := matches;
    var i := 0;
    while i < numQueryKeyPoints
      invariant 0 <= i <= numQueryKeyPoints
      invariant matches' == matches + Decoded(matches0, i)
    {
      if matches0[i] < 0 {
        i := i + 1;
        continue;
      }
      var decoded := DMatch(i, matches0[i], 0, FLT_MAX);
      matches' := matches' + [decoded];
      i := i + 1;
    }
  }

  /**
   * `match`: packs both sides, runs the network and appends the decoded
   * `matches0` to the caller's `matches`; `matches1` plays no part.
   */
  method Match(matcher: Matcher, net: Inputs -> Outputs,
               queryDesc: Mat, queryKps: seq<KeyPoint>, querySize: Size,
               trainDesc: Mat, trainKps: seq<KeyPoint>, trainSize: Size,
               matches: seq<DMatch>) returns (matches': seq<DMatch>)
    requires Readable(queryDesc, |queryKps|) && Readable(trainDesc, |trainKps|)
    requires |queryKps| <= |net(Packed(queryDesc, queryKps, querySize, trainDesc, trainKps, trainSize)).matches0|
    ensures var outputs := net(Packed(queryDesc, queryKps, querySize, trainDesc, trainKps, trainSize));
            matches' == matches + Decoded(outputs.matches0, |queryKps|)
  {
    var data := Pack(queryDesc, queryKps, querySize, trainDesc, trainKps, trainSize);
    var outputs := net(data);
    var matches0 := outputs.matches0;
    var matches1 := outputs.matches1;
    matches' := DecodeMatches(matches0, |queryKps|, matches);
  }

  /**
   * Query index i is decoded exactly when `matches0[i]` is non-negative, as
   * `(i, matches0[i])` with image index 0; query indices strictly increase,
   * so none repeats.
   */
  lemma {:induction false} DecodedExact(matches0: seq<int>, n: nat)
    requires n <= |matches0|
    ensures forall k :: 0 <= k < |Decoded(matches0, n)| ==>
              var m := Decoded(matches0, n)[k];
              0 <= m.queryIdx < n && matches0[m.queryIdx] >= 0 && m == MatchOf(m.queryIdx, matches0[m.queryIdx])
    ensures forall i :: 0 <= i < n && matches0[i] >= 0 ==> MatchOf(i, matches0[i]) in Decoded(matches0, n)
    ensures forall k, l :: 0 <= k < l < |Decoded(matches0, n)| ==>
              Decoded(matches0, n)[k].queryIdx < Decoded(matches0, n)[l].queryIdx
  {
    if n > 0 {
      DecodedExact(matches0, n - 1);
    }
  }

  /** Decoding `[-1, 2, -1, 0]` gives `(1, 2)` then `(3, 0)`. */
  lemma DecodedExample()
    ensures Decoded([-1, 2, -1, 0], 4) == [MatchOf(1, 2), MatchOf(3, 0)]
  {
  }
}
