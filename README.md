# torch_cpp feature pipeline, modelled in Dafny

This project models the deterministic code around the two neural networks of
`torch_cpp`, an OpenCV/libtorch wrapper for SuperPoint keypoint detection and
SuperGlue matching. The model covers five pieces of that code:

- **SuperPoint** (`super_point.dfy`). Construction rejects an empty weights
  path. `detectAndCompute` checks its inputs and builds the request
  dictionary for the network. It then runs the keypoint loop: a network
  keypoint survives if the mask is empty or the mask cell at its truncated
  position is non-zero. Survivors are rescaled from the 640×480 working
  resolution to the image size. `copyRows` gathers the descriptor rows of
  the kept keypoints.
- **SuperGlue** (`super_glue.dfy`). Construction has the same guard.
  `match` packs the shape vectors, the transposed descriptors, and the
  keypoints in (y, x) order with their responses. It then decodes
  `matches0` into `cv::DMatch` values and appends them to the caller's
  vector.
- **Mutual-match selection** (`mutual_match.dfy`). These are the tensor
  expressions at the end of the Python `SuperGlueWrapper.forward`:
  row and column argmaxes over the score matrix without its dustbins, the
  mutual check, the exponentiated scores and the threshold.
- **Pose-file helpers** (`pose_utils.dfy`). `splitByDelim` has
  `std::getline` semantics. `parseKittiOdometryPosesGT` is modelled by its
  line and field structure.
- **Match filtering** (`match_images.dfy`). This is the
  `match_images_by_superpoint` example: sort by distance, prune from the
  back while the last distance exceeds four times the first, build the
  all-ones mask, and gather the point pairs for the homography.

Shared modules:

- `features.dfy`: the OpenCV value types (`Point`, `KeyPoint`, `DMatch`,
  `FLT_MAX`) and the C++ float-to-int conversion, which truncates toward
  zero.
- `matrix.dfy`: dense row-major matrices and the axis swap.
- `device.dfy`: the device index the two constructors settle on.
- `wrappers.dfy`: the `Result`/`Outcome` types that carry the thrown
  errors.

## How the model represents the code

- The networks are parameters of function type, so nothing is known
  about them beyond the shape their outputs must have.
- `std::atof`, `exp` and `cv::findHomography` are also function parameters.
- Single- and double-precision values are reals.
- Caller-owned output vectors (`keyPoints`, `_descriptors`, `matches`) are
  passed in, and their contents after the call are returned.

## Model

| member | source | states |
|---|---|---|
| Features.Trunc | src/SuperPoint.cpp:155-156 | the `int` a float converts to is its truncation toward zero: within one below a non-negative value and within one above a negative one |
| SuperPoint.Create | src/SuperPoint.cpp:52-78 | construction fails, with the empty-path error, exactly when `pathToWeights` is empty; otherwise the detector keeps the given parameters except `gpuIdx`, which becomes the settled device index |
| SuperPoint.ElementlessMaskIsAbsent | src/SuperPoint.cpp:97-99 | a mask with no elements (no rows, or rows without cells) is empty whatever its type, so the input checks treat it as no mask |
| SuperPoint.CheckInputs | src/SuperPoint.cpp:93-99 | the inputs pass exactly when the image is non-empty with 8-bit unsigned depth and the mask is empty or `CV_8UC1`; the image error is raised exactly for an empty or wrongly deep image, checked before the mask |
| SuperPoint.ForwardInputs | src/SuperPoint.cpp:113-124 | the request always holds the image, the keypoint threshold and the border margin under their names; `nms_radius` is present exactly when `distThresh > 0`, and then holds it |
| SuperPoint.KeepKeyPoints | src/SuperPoint.cpp:154-166 | the keypoint loop records exactly the surviving indices; reported keypoint k is network keypoint `keep[k]`, at `Trunc(x)*cols/640`, `Trunc(y)*rows/480`, with that keypoint's score |
| SuperPoint.CopyRows | src/SuperPoint.cpp:177-185 | the result has one row per index, and row k is source row `indices[k]` |
| SuperPoint.CopiedDescriptors | src/SuperPoint.cpp:140-170 | rows copied from the transposed network descriptors form a k×256 matrix whose row k is network descriptor column `keep[k]` |
| SuperPoint.DetectAndCompute | src/SuperPoint.cpp:87-172 | a rejected input returns the check's error and leaves keypoints and descriptors untouched. Otherwise the old keypoints are discarded. The new ones are the survivors in network order, rescaled, with their scores. The descriptor matrix is 256 wide with one row per keypoint, and row k is the network descriptor of the k-th survivor |
| SuperPoint.KeepIndicesMembers | src/SuperPoint.cpp:154-165 | index i is kept iff i is in range and its mask cell is non-zero (or the mask is empty) |
| SuperPoint.KeepIndicesIncreasing | src/SuperPoint.cpp:154-165 | the kept indices are strictly increasing, so output order is network order |
| SuperPoint.EmptyMaskKeepsAll | src/SuperPoint.cpp:154-166 | with an empty mask every keypoint is kept: the kept indices are exactly 0..n-1 |
| SuperPoint.RescaleAtWorkingResolution | src/SuperPoint.cpp:161-162 | for a 640×480 image the reported position is the truncated network position; for twice that size it is doubled |
| Matrix.Transpose | src/SuperGlue.cpp:83-90 | the axis swap of an n×d matrix is d×n, with entry (d, n) equal to input entry (n, d) |
| Matrix.TransposeTwice | src/SuperGlue.cpp:89-90 | swapping the axes twice gives back the original matrix |
| SuperGlue.Create | src/SuperGlue.cpp:37-58 | construction fails exactly when `pathToWeights` is empty; otherwise the matcher keeps the given parameters except `gpuIdx`, which becomes the settled device index |
| Device.ResolveGpuIdx | src/SuperGlue.cpp:46-58 | the constructors keep a non-negative (CUDA) index exactly when the build has GPU support, CUDA is available and a device was requested. A build without GPU support always gets -1; a GPU build keeps the requested index unless a device was requested and CUDA is unavailable, when it gets -1 |
| SuperGlue.PackKeyPoints | src/SuperGlue.cpp:94-107 | the filling loop yields one entry per keypoint: keypoint i as `[pt.y, pt.x]` and score i as its response |
| SuperGlue.Pack | src/SuperGlue.cpp:68-111 | both shape vectors are `[1, 1, height, width]`; each side's descriptors are the transpose of its first n rows; keypoints are in (y, x) order with their responses as scores; lengths equal the keypoint counts |
| SuperGlue.DecodeMatches | src/SuperGlue.cpp:123-132 | the caller's matches are kept as a prefix, followed by the matches decoded from `matches0` in query order |
| SuperGlue.Match | src/SuperGlue.cpp:63-133 | the caller's matches gain the decoding of the network's `matches0` for the packed inputs; `matches1` does not affect the result |
| SuperGlue.DecodedExact | src/SuperGlue.cpp:123-131 | query i is decoded exactly when `matches0[i] >= 0`, as (i, `matches0[i]`) with image index 0; query indices strictly increase, so none repeats |
| SuperGlue.DecodedExample | src/SuperGlue.cpp:123-132 | decoding `[-1, 2, -1, 0]` gives (1, 2) then (3, 0) |
| MutualMatch.ArgMax | scripts/superglue/superglue_wrapper.py:44-45 | the index attains the maximum of the vector, and every earlier entry is strictly smaller (first maximum) |
| MutualMatch.RowArgMaxes | scripts/superglue/superglue_wrapper.py:44-45 | one index per row, each attaining its row's maximum over the block without dustbins |
| MutualMatch.ColArgMaxes | scripts/superglue/superglue_wrapper.py:44-45 | one index per column, each attaining its column's maximum over the block without dustbins |
| MutualMatch.SelectShape | scripts/superglue/superglue_wrapper.py:46-54 | output lengths equal the keypoint counts. Every entry is -1 or an index into the other side. `mscores0[i]` is the exponentiated row score when i is mutual and 0 otherwise. Query i keeps its index iff it is mutual and its score is strictly above the threshold. `mscores1[j]` is its partner's score when j is mutual and 0 otherwise |
| MutualMatch.SelectSymmetric | scripts/superglue/superglue_wrapper.py:51-54 | `matches0[i] == j` iff `matches1[j] == i`, for any in-range indices |
| MutualMatch.SelectInjective | scripts/superglue/superglue_wrapper.py:46-53 | no two query keypoints are matched to the same train keypoint |
| MutualMatch.SelectMutualBest | scripts/superglue/superglue_wrapper.py:44-53 | with genuine argmax indices, a kept pair is the maximum of both its row and its column, and its exponentiated score is above the threshold |
| MutualMatch.SelectMatches | scripts/superglue/superglue_wrapper.py:44-54 | fails exactly when one side has no keypoints (an empty reduction). Otherwise: lengths and ranges hold; the two outputs agree pairwise; every kept pair is the best of its row and column; and its score is `exp` of that entry, strictly above the threshold |
| PoseUtils.GetLine | examples/visual_odometry/Utils.cpp:17 | one `getline` call returns the characters from the current position up to the first delimiter or the end, none of them the delimiter |
| PoseUtils.SplitByDelim | examples/visual_odometry/Utils.cpp:12-21 | the `while (getline)` loop returns exactly the token sequence `Split(s, delimiter)` |
| PoseUtils.SplitStep | examples/visual_odometry/Utils.cpp:17-18 | from a position, the tokens are the delimiter-free run up to the next delimiter, then the tokens after that delimiter |
| PoseUtils.SplitEmptyIff | examples/visual_odometry/Utils.cpp:17-20 | there are no tokens exactly when the input is empty |
| PoseUtils.SplitTokensFree | examples/visual_odometry/Utils.cpp:17-18 | no token contains the delimiter |
| PoseUtils.SplitJoin | examples/visual_odometry/Utils.cpp:17-19 | joining the tokens with the delimiter gives back the input, less one trailing delimiter |
| PoseUtils.SplitCount | examples/visual_odometry/Utils.cpp:17-19 | the token count is the delimiter count, plus one when the input is non-empty and does not end with the delimiter |
| PoseUtils.ConsecutiveDelimiters | examples/visual_odometry/Utils.cpp:17-19 | two consecutive delimiters enclose an empty token, which is kept |
| PoseUtils.PoseOf | examples/visual_odometry/Utils.cpp:51-55 | fields 0-8 of a line fill the 3×3 rotation row by row and fields 9-11 the translation, each through `atof` |
| PoseUtils.ParseKittiOdometryPosesGT | examples/visual_odometry/Utils.cpp:38-58 | fails exactly on empty contents (no lines); otherwise one pose per line, in line order |
| MatchImages.Insert | examples/match_images_by_superpoint/App.cpp:54 | inserting into a sorted list keeps it sorted and adds one element |
| MatchImages.InsertPermutes | examples/match_images_by_superpoint/App.cpp:54 | insertion adds the match and loses nothing (multiset) |
| MatchImages.SortByDistance | examples/match_images_by_superpoint/App.cpp:54 | the sorted matches are in non-decreasing distance order and are a permutation of the input |
| MatchImages.PruneMatches | examples/match_images_by_superpoint/App.cpp:55-58 | the survivors are a prefix. The loop stops on an empty list or when the last distance is within 4× the first. Every dropped match is beyond 4× the first distance |
| MatchImages.PruneKeepsWithinBound | examples/match_images_by_superpoint/App.cpp:55-58 | for sorted, non-negative distances the smallest match survives, and a match survives iff its distance is at most 4× the smallest |
| MatchImages.SelectGoodMatches | examples/match_images_by_superpoint/App.cpp:54-60 | the kept matches are a sorted prefix of the sorted input and a sub-multiset of it. With non-negative distances at least one survives, and an input match is kept iff its distance is within 4× the smallest. The mask is one 1 per kept match |
| MatchImages.GatherPoints | examples/match_images_by_superpoint/App.cpp:81-86 | `pts1[i]` is the query point and `pts2[i]` the train point of match i; both lists have one entry per match |
| MatchImages.FindKeyPointsHomography | examples/match_images_by_superpoint/App.cpp:78-88 | a mask of fewer than 3 entries is returned unchanged; otherwise it is the homography estimate's mask for the gathered point lists |

## Left out

- The networks (SuperPoint and SuperGlue forward passes, the keypoint encoder, the attention layers and `log_optimal_transport`). They are floating-point tensor code in a foreign library and are modelled as uninterpreted function parameters.
- Keypoint thresholding, border removal, non-maximum suppression and descriptor sampling happen inside the traced network. The model only forwards their parameters.
- TorchScript loading, `.to(device)` transfers, logging and the `exit(1)` on a load failure in the SuperPoint constructor. These are platform configuration and process termination. Of device selection, only the settled `gpuIdx` is modelled, with the build's GPU support and CUDA's availability as parameters.
- `detectAndCompute`'s `useProvidedKeypoints` argument is ignored by the source, which always detects and clears `keyPoints`. The model has no such parameter.
- Image resizing and conversion to floats, and the mask resize to 640×480 (`INTER_CUBIC`, `INTER_NEAREST`). These are image interpolation. The image's pixels reach the network unchanged in the model, and a non-empty mask is taken as already 480×640.
- Raw `memcpy` and `from_blob` buffer handling is modelled as sequence copies. The batch dimension of size 1 is dropped.
- Floating-point rounding. Floats and doubles are reals, so `x * cols / 640` is exact in the model.
- `SuperPoint.DetectAndCompute` and `SuperPoint.KeepKeyPoints` require every network keypoint to index the mask in range when the mask is non-empty, because the source reads each keypoint's mask cell before deciding whether to keep it. An out-of-range `mask.ptr(y)[x]` read is undefined behaviour in the source and is not modelled.
- `SuperGlue.Match`: the `int64` to `int` narrowing of `trainIdx` is not modelled. Trained indices are unbounded integers.
- `SuperGlue.Match` requires `matches0` to have at least one entry per query keypoint. Reading past it is undefined behaviour in the source.
- `SuperGlue.Match` has no empty-input check: it calls the network even when either keypoint set is empty.
- `PoseUtils.ParseKittiOdometryPosesGT` requires every line to have exactly 12 fields. With fewer than 9, the source's first `std::copy` reads past the values; with 9 to 11, the translation keeps uninitialised entries; with more than 12, the second copy overflows the translation. Reading the file (`readLines`' stream and its "unable to open" error) and `std::atof` are I/O and number parsing: the contents and `atof` are parameters.
- `MatchImages.SortByDistance`: `std::sort` is a library call and is modelled as insertion sort. Its result is sorted and a permutation, but the order among equal distances is not the library's.
- Brute-force matching, `cv::findHomography` (RANSAC), `drawMatches`, `imread`, `imshow` and `imwrite` are library calls or UI. The matches are an input and the homography mask comes from a parameter.
- The other `cv::KeyPoint` fields (size, angle, octave, class id) keep OpenCV's defaults and are not modelled.
- `alignCorners` in `SuperPoint::Param` is never read by the detector. It is kept in the parameter record only.
- `MutualMatch.SelectMatches` uses the first maximum for ties, as the specification function of `max`. The selection lemmas hold for any argmax indices, so they cover the tie order torch actually uses.
- The visual-odometry viewer, the Python tracing and test scripts, and the logging macros are outside the modelled core.
