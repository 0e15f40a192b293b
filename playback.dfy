/** Playback: the frame rate clamp and the step of the playback timer. */
module Playback {
  import opened Raster

  /** A value that may be absent. */
  datatype Option<T> = None | Some(value: T)

  const MinFps: int := 1
  const MaxFps: int := 15

  /** `clampFPS` of the rate field's `parseInt`, where `None` stands for NaN: NaN or anything
      below 1 gives 1, anything above 15 gives 15. */
  function ClampFps(fps: Option<int>): (r: int)
    ensures MinFps <= r <= MaxFps
    ensures fps.Some? && MinFps <= fps.value <= MaxFps ==> r == fps.value
  {
    if fps.None? || fps.value < 1 then 1
    else if fps.value > 15 then 15
    else fps.value
  }

  /** The timer's index step: `frameIdx++`, back to 0 once it reaches `totalFrames`. */
  function NextFrameIndex(i: nat, totalFrames: nat): (r: nat)
    ensures totalFrames > 0 ==> r < totalFrames
    ensures r == 0 || r == i + 1
  {
    if i + 1 >= totalFrames then 0 else i + 1
  }

  /** The index after `k` ticks of a playback started at frame 0: always a frame's index. */
  function IndexAfter(k: nat, totalFrames: nat): (r: nat)
    ensures totalFrames > 0 ==> r < totalFrames
  {
    if k == 0 then 0 else NextFrameIndex(IndexAfter(k - 1, totalFrames), totalFrames)
  }

  /** Playback cycles through the frames in order: after `k` ticks the index is `k mod totalFrames`. */
  lemma {:induction false} IndexAfterCycles(k: nat, totalFrames: nat)
    requires totalFrames > 0
    ensures IndexAfter(k, totalFrames) == k % totalFrames
  {
    if k > 0 {
      IndexAfterCycles(k - 1, totalFrames);
      var j := (k - 1) % totalFrames;
      var q := (k - 1) / totalFrames;
      assert k - 1 == q * totalFrames + j;
      if j + 1 >= totalFrames {
        assert k == (q + 1) * totalFrames + 0;
        DivModUnique(k, totalFrames, q + 1, 0);
      } else {
        assert k == q * totalFrames + (j + 1);
        DivModUnique(k, totalFrames, q, j + 1);
      }
    }
  }
}
