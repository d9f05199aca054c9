/** How the host screen drives playback. The animate button calls
    `startAnimationFrom(0)`, and while the call reported that frames
    remain, the timer callback calls `nextFrame` again; when it reports
    none, the view is stopped. The save button runs the same steps in a
    do-while loop around the gallery export. Timing is not modelled: the
    callbacks run back to back. */
module Playback {
  import opened FrameSequence
  import opened Strokes
  import opened DrawingSurface

  /** One whole animation run from the first frame, with no other call in
      between. Each `nextFrame` is called only after the previous call
      returned true, which is what keeps the index in bounds. `shown` is the
      sequence of indices displayed, one per timer tick. */
  method Animate(v: DrawingView) returns (ghost shown: seq<int>)
    requires v.Valid()
    modifies v
    ensures v.Valid() && !v.running
    ensures v.Sequence() == PlayToEnd(StartFrom(old(v.Sequence()), 0))
    ensures shown == Span(0, |v.canvasList|)
    ensures v.line == old(v.line) && v.erase == old(v.erase) && v.CurrentPen() == old(v.CurrentPen())
  {
    var more := v.StartAnimationFrom(0);
    ghost var start := v.Sequence();
    PlaybackShowsAll(old(v.Sequence()));
    shown := [v.index];
    while more
      invariant v.Valid() && v.running
      invariant v.canvasList == start.list && v.drawing == start.target
      invariant more == More(v.Sequence())
      invariant PlayToEnd(v.Sequence()) == PlayToEnd(start)
      invariant shown + Played(v.Sequence())[1..] == Played(start)
      invariant v.line == old(v.line) && v.erase == old(v.erase) && v.CurrentPen() == old(v.CurrentPen())
      decreases |v.canvasList| - v.index
    {
      ghost var before := v.Sequence();
      more := v.NextFrame();
      shown := shown + [v.index];
      assert Played(before) == [before.index] + Played(v.Sequence());
    }
    v.Stop();
  }

  /** The save button's confirmation handler: `startAnimationFrom(0)`,
      whose result it ignores; then export the view and call `nextFrame`,
      in a do-while loop that ends when an export fails or `nextFrame`
      reports no further frame; then, unless an export failed, export once
      more; then `stop`. The export (`saveImage`) is a platform call:
      `exports[k]` is the outcome of the k-th one, and there is one for
      every export the handler can make (at most one more than the number
      of frames). `shown` is the index on display at each export, and the
      result is whether every export succeeded.

      An export draws the view, and `onDraw` fetches the frame at the
      index. With two or more frames the index stays in bounds whatever the
      exports do, and when they all succeed every frame is exported once, in
      order, ending on the last one. With a single frame, a successful first
      export is followed by `nextFrame`, which moves the index to 1, past the
      end; the final export then draws the view there, the fetch throws, and
      the handler ends without a result and without `stop`. `overrun` says
      that this happened. */
  method SaveAll(v: DrawingView, exports: seq<bool>) returns (saved: bool, overrun: bool, ghost shown: seq<int>)
    requires v.Valid()
    requires |exports| > |v.canvasList|
    modifies v
    ensures v.Wellformed()
    ensures v.canvasList == old(v.canvasList) && v.drawing == old(v.drawing)
    ensures v.line == old(v.line) && v.erase == old(v.erase) && v.CurrentPen() == old(v.CurrentPen())
    ensures 1 <= |shown| <= |exports| && shown == Span(0, |shown|)
    ensures v.index == shown[|shown| - 1]
    ensures forall k :: 0 <= k < |shown| - 1 ==> exports[k]
    ensures overrun <==> |v.canvasList| == 1 && exports[0]
    ensures overrun ==> v.running && v.index == 1 && !saved
    ensures !overrun ==> v.Valid() && !v.running && saved == exports[|shown| - 1]
    ensures saved ==> shown == Span(0, |v.canvasList|)
  {
    var _ := v.StartAnimationFrom(0);
    saved := true;
    shown := [];
    var more := true;
    var calls := 0;
    while true
      invariant v.Valid() && v.running
      invariant v.canvasList == old(v.canvasList) && v.drawing == old(v.drawing)
      invariant v.line == old(v.line) && v.erase == old(v.erase) && v.CurrentPen() == old(v.CurrentPen())
      invariant v.index == 0 || More(v.Sequence())
      invariant shown == Span(0, v.index)
      invariant calls == |shown| && forall k :: 0 <= k < calls ==> exports[k]
      decreases |v.canvasList| - v.index
    {
      shown := shown + [v.index];
      saved := exports[calls];
      calls := calls + 1;
      if !saved {
        break;
      }
      more := v.NextFrame();
      if !more {
        break;
      }
    }
    overrun := false;
    if saved {
      shown := shown + [v.index];
      if v.index == |v.canvasList| {
        // `onDraw` fetches a frame past the end and throws
        overrun := true;
        saved := false;
        return;
      }
      saved := exports[calls];
    }
    v.Stop();
  }
}
