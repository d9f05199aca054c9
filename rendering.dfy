/** Which frames `onDraw` composites, bottom to top, and at which alpha. */
module Rendering {
  import opened FrameSequence

  /** Alpha of the ghosted previous frame while editing. */
  const GhostAlpha := 100
  /** Alpha of the current frame. */
  const OpaqueAlpha := 255

  /** One drawing step of `onDraw`: a frame bitmap by index, or the
      in-progress path on top. */
  datatype Layer = FrameLayer(frame: int, alpha: int) | PathLayer

  /** `onDraw`: while editing past the first frame, the previous frame at
      low alpha; then the current frame opaque; then the live path. */
  function Layers(running: bool, index: int): (r: seq<Layer>)
    ensures 2 <= |r| <= 3
    ensures r[|r| - 1] == PathLayer
    ensures r[|r| - 2] == FrameLayer(index, OpaqueAlpha)
    ensures |r| == 3 <==> !running && index > 0
    ensures |r| == 3 ==> r[0] == FrameLayer(index - 1, GhostAlpha)
  {
    (if !running && index > 0 then [FrameLayer(index - 1, GhostAlpha)] else [])
      + [FrameLayer(index, OpaqueAlpha), PathLayer]
  }

  /** Every frame `onDraw` asks for exists when the index is in bounds. */
  lemma LayersInBounds<T>(s: Frames<T>, running: bool)
    requires Valid(s)
    ensures forall l :: l in Layers(running, s.index) && l.FrameLayer? ==> 0 <= l.frame < |s.list|
  {
  }
}
