/**
 * The SuperPoint detector (`SuperPointImpl`): construction, input checks,
 * the request sent to the traced network, and the post-processing that
 * filters the network's keypoints through the mask, rescales them to the
 * caller's image size and gathers the matching descriptor rows.
 *
 * The network itself is a parameter `net` of function type: thresholding,
 * border removal, non-maximum suppression and descriptor sampling all happen
 * inside it and are not modelled here.
 */
module SuperPoint {
  import opened Wrappers
  import opened Features
  import opened Matrix
  import opened Device

  /** The fixed working resolution the network runs at. */
  const IMAGE_HEIGHT: nat := 480
  const IMAGE_WIDTH: nat := 640
  /** `descriptorSize()`: the length of every descriptor row. */
  const DESCRIPTOR_SIZE: nat := 256

  /** OpenCV element depths. */
  datatype Depth = CV_8U | CV_8S | CV_16U | CV_16S | CV_32S | CV_32F | CV_64F | CV_16F

  /** An OpenCV matrix type: element depth and channel count. */
  datatype MatType = MatType(depth: Depth, channels: nat)

  const CV_8UC1: MatType := MatType(CV_8U, 1)

  /**
   * The input image: its size, its type and its pixels, which only the
   * network reads.
   */
  datatype Image = Image(rows: nat, cols: nat, kind: MatType, pixels: seq<seq<int>>) {
    /** `cv::Mat::empty()`: no elements. */
    predicate Empty() { rows == 0 || cols == 0 }
  }

  /**
   * The detection mask. A non-empty mask is expected at the working
   * resolution: IMAGE_HEIGHT rows of IMAGE_WIDTH 8-bit cells.
   */
  datatype Mask = Mask(kind: MatType, cells: seq<seq<int>>) {
    /** `cv::Mat::empty()`: no elements, whether there are no rows or the rows have no cells. */
    predicate Empty() { forall r :: 0 <= r < |cells| ==> |cells[r]| == 0 }
    predicate AtWorkingSize()
    {
      |cells| == IMAGE_HEIGHT && forall r :: 0 <= r < IMAGE_HEIGHT ==> |cells[r]| == IMAGE_WIDTH
    }
  }

  /** `SuperPoint::Param`. */
  datatype Param = Param(pathToWeights: string, borderRemove: int, confidenceThresh: real,
                         alignCorners: bool, distThresh: int, gpuIdx: int)

  /** The defaults declared with `SuperPoint::Param`. */
  const DefaultParam: Param := Param("", 4, 0.015, true, 2, -1)

  /** A constructed detector: the parameters it keeps. */
  datatype Detector = Detector(param: Param)

  datatype Error = EmptyWeightsPath | BadImage | BadMask

  /**
   * `SuperPointImpl`'s constructor: an empty weights path is rejected before
   * any model is loaded; otherwise the detector keeps the parameters, with
   * `gpuIdx` settled by the build and the CUDA runtime.
   */
  function Create(param: Param, gpuBuild: bool, cudaAvailable: bool): (r: Result<Detector, Error>)
    ensures r.Failure? <==> param.pathToWeights == []
    ensures r.Failure? ==> r.error == EmptyWeightsPath
    ensures r.Success? ==>
              r.value.param == param.(gpuIdx := ResolveGpuIdx(param.gpuIdx, gpuBuild, cudaAvailable))
  {
    if param.pathToWeights == [] then Failure(EmptyWeightsPath)
    else Success(Detector(param.(gpuIdx := ResolveGpuIdx(param.gpuIdx, gpuBuild, cudaAvailable))))
  }

  /** The input checks at the head of `detectAndCompute`, in their order. */
  function CheckInputs(image: Image, mask: Mask): (r: Outcome<Error>)
    ensures r.Pass? <==> !image.Empty() && image.kind.depth == CV_8U && (mask.Empty() || mask.kind == CV_8UC1)
    ensures r.Fail? && r.error == BadImage <==> image.Empty() || image.kind.depth != CV_8U
    ensures r.Fail? ==> r.error in {BadImage, BadMask}
  {
    if image.Empty() || image.kind.depth != CV_8U then Fail(BadImage)
    else if !mask.Empty() && mask.kind != CV_8UC1 then Fail(BadMask)
    else Pass
  }

  /**
   * A mask without elements counts as no mask, whatever its type or row
   * count: the input checks treat it as the empty mask.
   */
  lemma ElementlessMaskIsAbsent(image: Image, kind: MatType, rows: nat)
    ensures Mask(kind, seq(rows, _ => [])).Empty()
    ensures CheckInputs(image, Mask(kind, seq(rows, _ => []))) == CheckInputs(image, Mask(CV_8UC1, []))
  {
    var cells: seq<seq<int>> := seq(rows, _ => []);
    assert forall r :: 0 <= r < |cells| ==> |cells[r]| == 0;
  }

  /** A value in the dictionary handed to the network's `forward`. */
  datatype Tensor = ImageTensor(image: Image) | FloatScalar(f: real) | IntScalar(n: int)

  /**
   * The dictionary handed to `forward`: the image, the keypoint threshold and
   * the border margin always, the NMS radius only when it is positive.
   */
  function ForwardInputs(param: Param, image: Image): (d: map<string, Tensor>)
    ensures d.Keys <= {"image", "keypoint_threshold", "remove_borders", "nms_radius"}
    ensures "image" in d && d["image"] == ImageTensor(image)
    ensures "keypoint_threshold" in d && d["keypoint_threshold"] == FloatScalar(param.confidenceThresh)
    ensures "remove_borders" in d && d["remove_borders"] == IntScalar(param.borderRemove)
    ensures "nms_radius" in d <==> param.distThresh > 0
    ensures "nms_radius" in d ==> d["nms_radius"] == IntScalar(param.distThresh)
  {
    var always := map["image" := ImageTensor(image),
                      "keypoint_threshold" := FloatScalar(param.confidenceThresh),
                      "remove_borders" := IntScalar(param.borderRemove)];
    if param.distThresh > 0 then always["nms_radius" := IntScalar(param.distThresh)] else always
  }

  /**
   * What the network returns for one image: keypoint i at column 0 = x and
   * column 1 = y of the working resolution, its score, and the descriptors as
   * DESCRIPTOR_SIZE rows of one column per keypoint.
   */
  datatype NetworkOutput = NetworkOutput(keypoints: seq<Point>, scores: seq<real>, descriptors: seq<seq<real>>) {
    predicate WellFormed()
    {
      |scores| == |keypoints| && IsMatrix(descriptors, DESCRIPTOR_SIZE, |keypoints|)
    }
  }

  /** The mask can be read at the truncated position of every keypoint of `out`. */
  predicate MaskIndexable(mask: Mask, out: NetworkOutput)
  {
    mask.Empty() ||
    (mask.AtWorkingSize() &&
     forall i :: 0 <= i < |out.keypoints| ==>
       0 <= Trunc(out.keypoints[i].y) < IMAGE_HEIGHT && 0 <= Trunc(out.keypoints[i].x) < IMAGE_WIDTH)
  }

  /** Whether keypoint `p` survives the mask: the mask is empty or its cell is non-zero. */
  predicate Survives(mask: Mask, p: Point)
    requires mask.Empty() || (mask.AtWorkingSize() && 0 <= Trunc(p.y) < IMAGE_HEIGHT && 0 <= Trunc(p.x) < IMAGE_WIDTH)
  {
    mask.Empty() || mask.cells[Trunc(p.y)][Trunc(p.x)] != 0
  }

  /** The indices among the first `n` network keypoints that survive the mask, in network order. */
  function KeepIndices(mask: Mask, out: NetworkOutput, n: nat): (keep: seq<nat>)
    requires n <= |out.keypoints| && MaskIndexable(mask, out)
    ensures |keep| <= n
    ensures forall k :: 0 <= k < |keep| ==> keep[k] < n
  {
    if n == 0 then []
    else KeepIndices(mask, out, n - 1) + (if Survives(mask, out.keypoints[n - 1]) then [n - 1] else [])
  }

  /**
   * The position reported to the caller: the truncated working-resolution
   * position scaled to the image's columns and rows.
   */
  function Rescale(p: Point, image: Image): Point
  {
    Point(Trunc(p.x) as real * image.cols as real / IMAGE_WIDTH as real,
          Trunc(p.y) as real * image.rows as real / IMAGE_HEIGHT as real)
  }

  /** The keypoint reported for network keypoint `i`. */
  function ReportedKeyPoint(out: NetworkOutput, i: nat, image: Image): KeyPoint
    requires out.WellFormed() && i < |out.keypoints|
  {
    KeyPoint(Rescale(out.keypoints[i], image), out.scores[i])
  }

  /**
   * `copyRows`: the rows of `src` at `indices`, in the order of `indices`.
   */
  method CopyRows(src: seq<seq<real>>, indices: seq<nat>) returns (dst: seq<seq<real>>)
    requires forall k :: 0 <= k < |indices| ==> indices[k] < |src|
    ensures |dst| == |indices|
    ensures forall k :: 0 <= k < |indices| ==> dst[k] == src[indices[k]]
  {
    dst := [];
    var i := 0;
    while i < |indices|
      invariant 0 <= i <= |indices|
      invariant |dst| == i
      invariant forall k :: 0 <= k < i ==> dst[k] == src[indices[k]]
    {
      dst := dst + [src[indices[i]]];
      i := i + 1;
    }
  }

  /**
   * `detectAndCompute`. `keyPoints` and `descriptors` are the caller's
   * vectors before the call, `keyPoints'` and `descriptors'` after it.
   * A rejected input leaves both untouched; otherwise the keypoint list is
   * cleared and refilled with the network keypoints that survive the mask,
   * rescaled, and the descriptor rows are the matching network descriptors.
   */
  method DetectAndCompute(detector: Detector, net: map<string, Tensor> -> NetworkOutput,
                          image: Image, mask: Mask,
                          keyPoints: seq<KeyPoint>, descriptors: Mat)
    returns (status: Outcome<Error>, keyPoints': seq<KeyPoint>, descriptors': Mat)
    requires CheckInputs(image, mask).Pass? ==>
               net(ForwardInputs(detector.param, image)).WellFormed() &&
               MaskIndexable(mask, net(ForwardInputs(detector.param, image)))
    ensures status == CheckInputs(image, mask)
    ensures status.Fail? ==> keyPoints' == keyPoints && descriptors' == descriptors
    ensures status.Pass? ==>
      var out := net(ForwardInputs(detector.param, image));
      var keep := KeepIndices(mask, out, |out.keypoints|);
      && |keyPoints'| == |keep| == descriptors'.Rows()
      && descriptors'.cols == DESCRIPTOR_SIZE && descriptors'.Valid()
      && (forall k :: 0 <= k < |keep| ==> keyPoints'[k] == ReportedKeyPoint(out, keep[k], image))
      && (forall k, d :: 0 <= k < |keep| && 0 <= d < DESCRIPTOR_SIZE ==>
            descriptors'.data[k][d] == out.descriptors[d][keep[k]])
  {
    status := CheckInputs(image, mask);
    if status.Fail? {
      return status, keyPoints, descriptors;
    }
    var out := net(ForwardInputs(detector.param, image));

    // the network's descriptors, one row per keypoint
    var rows := Transpose(out.descriptors, |out.keypoints|);
    var keepIndices;
    keyPoints', keepIndices := KeepKeyPoints(out, mask, image);
    var copied := CopyRows(rows, keepIndices);
    CopiedDescriptors(out, rows, keepIndices, copied);
    descriptors' := Mat(DESCRIPTOR_SIZE, copied);
  }

  /** The rows copied out of the transposed network descriptors are the descriptor columns of the kept keypoints. */
  lemma CopiedDescriptors(out: NetworkOutput, rows: seq<seq<real>>, keep: seq<nat>, copied: seq<seq<real>>)
    requires out.WellFormed() && rows == Transpose(out.descriptors, |out.keypoints|)
    requires forall k :: 0 <= k < |keep| ==> keep[k] < |out.keypoints|
    requires |copied| == |keep| && forall k :: 0 <= k < |keep| ==> copied[k] == rows[keep[k]]
    ensures IsMatrix(copied, |keep|, DESCRIPTOR_SIZE)
    ensures forall k, d :: 0 <= k < |keep| && 0 <= d < DESCRIPTOR_SIZE ==> copied[k][d] == out.descriptors[d][keep[k]]
  {
    forall k, d | 0 <= k < |keep| && 0 <= d < DESCRIPTOR_SIZE
      ensures copied[k][d] == out.descriptors[d][keep[k]]
    {
      assert copied[k] == rows[keep[k]];
    }
  }

  /**
   * The keypoint loop of `detectAndCompute`: each network keypoint whose
   * mask cell is zero is skipped; every other one is reported at its
   * rescaled position with its score, and its index is recorded.
   */
  method KeepKeyPoints(out: NetworkOutput, mask: Mask, image: Image)
    returns (keyPoints: seq<KeyPoint>, keepIndices: seq<nat>)
    requires out.WellFormed() && MaskIndexable(mask, out)
    ensures keepIndices == KeepIndices(mask, out, |out.keypoints|)
    ensures |keyPoints| == |keepIndices|
    ensures forall k :: 0 <= k < |keepIndices| ==> keyPoints[k] == ReportedKeyPoint(out, keepIndices[k], image)
  {
    keyPoints := [];
    keepIndices := [];
    var numKeyPoints := |out.keypoints|;
    var i := 0;
    while i < numKeyPoints
      invariant 0 <= i <= numKeyPoints
      invariant keepIndices == KeepIndices(mask, out, i)
      invariant |keyPoints| == |keepIndices|
      invariant forall k :: 0 <= k < |keepIndices| ==> keyPoints[k] == ReportedKeyPoint(out, keepIndices[k], image)
    {
      var y := Trunc(out.keypoints[i].y);
      var x := Trunc(out.keypoints[i].x);
      if !mask.Empty() && mask.cells[y][x] == 0 {
        i := i + 1;
        continue;
      }
      var newKeyPoint := KeyPoint(Point(x as real * image.cols as real / IMAGE_WIDTH as real,
                                        y as real * image.rows as real / IMAGE_HEIGHT as real),
                                  out.scores[i]);
      assert newKeyPoint == ReportedKeyPoint(out, i, image);
      keyPoints := keyPoints + [newKeyPoint];
      keepIndices := keepIndices + [i];
      i := i + 1;
    }
  }

  /**
   * A network keypoint is kept exactly when it survives the mask: the
   * masked-out ones are dropped and no other.
   */
  lemma {:induction false} KeepIndicesMembers(mask: Mask, out: NetworkOutput, n: nat)
    requires n <= |out.keypoints| && MaskIndexable(mask, out)
    ensures forall i :: i in KeepIndices(mask, out, n) <==> 0 <= i < n && Survives(mask, out.keypoints[i])
  {
    if n > 0 {
      KeepIndicesMembers(mask, out, n - 1);
      var last := if Survives(mask, out.keypoints[n - 1]) then [n - 1] else [];
      assert KeepIndices(mask, out, n) == KeepIndices(mask, out, n - 1) + last;
    }
  }

  /** The kept indices strictly increase, so the output keeps network order. */
  lemma {:induction false} KeepIndicesIncreasing(mask: Mask, out: NetworkOutput, n: nat)
    requires n <= |out.keypoints| && MaskIndexable(mask, out)
    ensures forall k, l :: 0 <= k < l < |KeepIndices(mask, out, n)| ==>
              KeepIndices(mask, out, n)[k] < KeepIndices(mask, out, n)[l]
  {
    if n > 0 {
      KeepIndicesIncreasing(mask, out, n - 1);
    }
  }

  /** With an empty mask every network keypoint is kept, in order. */
  lemma {:induction false} EmptyMaskKeepsAll(mask: Mask, out: NetworkOutput, n: nat)
    requires mask.Empty() && n <= |out.keypoints|
    ensures |KeepIndices(mask, out, n)| == n
    ensures forall k :: 0 <= k < n ==> KeepIndices(mask, out, n)[k] == k
  {
    if n > 0 {
      EmptyMaskKeepsAll(mask, out, n - 1);
    }
  }

  /**
   * At the working resolution the reported position is the truncated
   * network position, and rescaling to twice the working resolution doubles it.
   */
  lemma RescaleAtWorkingResolution(p: Point, image: Image)
    ensures image.rows == IMAGE_HEIGHT && image.cols == IMAGE_WIDTH ==>
              Rescale(p, image) == Point(Trunc(p.x) as real, Trunc(p.y) as real)
    ensures image.rows == 2 * IMAGE_HEIGHT && image.cols == 2 * IMAGE_WIDTH ==>
              Rescale(p, image) == Point(2.0 * Trunc(p.x) as real, 2.0 * Trunc(p.y) as real)
  {
  }
}
