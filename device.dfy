/** The compute device the detector and the matcher settle on at construction. */
module Device {

  /**
   * The `gpuIdx` a constructor keeps. A build without GPU support always
   * falls back to the CPU (-1); a GPU build falls back only when a device
   * was requested (`requested >= 0`) but CUDA is not available. The model
   * then runs on CUDA device `g` exactly when `g >= 0`.
   */
  function ResolveGpuIdx(requested: int, gpuBuild: bool, cudaAvailable: bool): (g: int)
    ensures g >= 0 <==> gpuBuild && cudaAvailable && requested >= 0
    ensures g == requested || g == -1
    ensures !gpuBuild ==> g == -1
    ensures gpuBuild && (cudaAvailable || requested < 0) ==> g == requested
  {
    if !gpuBuild then -1
    else if !cudaAvailable && requested >= 0 then -1
    else requested
  }
}
