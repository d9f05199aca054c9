/** The drawing surface: its frame list, current index, drawing target,
    animation flag, brush flags and in-progress stroke, updated in place by
    the operations the host screen and the touch input call. */
module DrawingSurface {
  import opened FrameSequence
  import opened Strokes

  /** A committed stroke: the path, and whether the paint was in eraser
      mode (clear transfer mode) when it was drawn. */
  datatype Stroke = Stroke(path: seq<PathOp>, erasing: bool)

  /** A frame's bitmap. Pixels are not modelled: a bitmap is an identity
      plus the strokes committed into it, in order. */
  class Bitmap {
    var strokes: seq<Stroke>

    /** `Bitmap.createBitmap(w, h, ARGB_8888)`: a new, empty frame. */
    constructor Blank()
      ensures strokes == []
    {
      strokes := [];
    }

    /** `bmp.copy(config, true)`: a new frame with the same content. */
    constructor CopyOf(b: Bitmap)
      ensures strokes == b.strokes
    {
      strokes := b.strokes;
    }
  }

  class DrawingView {
    var canvasList: seq<Bitmap>
    var index: int
    /** The bitmap the canvas `drawing` paints into; null until the first
        `clear`. */
    var drawing: Bitmap?
    var running: bool
    var line: bool
    var erase: bool
    var drawPath: seq<PathOp>
    /** The last touch-down point (`lx`, `ly`). */
    var anchor: Point

    /** The frame list, index and drawing target as a value. */
    function Sequence(): (s: Frames<Bitmap?>)
      reads this
    {
      Frames(canvasList, index, drawing)
    }

    /** The in-progress stroke as a value. */
    function CurrentPen(): (p: Pen)
      reads this
    {
      Pen(drawPath, anchor)
    }

    /** The animation, line-mode and eraser flags. */
    function Modes(): (m: (bool, bool, bool))
      reads this
    {
      (running, line, erase)
    }

    /** The frames are well formed; the index may be past the end (playback
        steps it without a bounds check). */
    ghost predicate Wellformed()
      reads this
    {
      drawing != null && FrameSequence.Wellformed(Sequence())
    }

    /** The invariant of an editable view: also the index is in bounds. */
    ghost predicate Valid()
      reads this
    {
      drawing != null && FrameSequence.Valid(Sequence())
    }

    /** The view as constructed, before its first size change: no frame
        yet and no drawing target. */
    constructor ()
      ensures canvasList == [] && index == 0 && drawing == null
      ensures Modes() == (false, false, false)
      ensures CurrentPen() == Pen([], Point(0.0, 0.0))
    {
      canvasList := [];
      index := 0;
      drawing := null;
      running := false;
      line := false;
      erase := false;
      drawPath := [];
      anchor := Point(0.0, 0.0);
    }

    /** `clear(w, h)` (also run by `onSizeChanged` and by the new-drawing
        button): one blank frame, index 0, drawing into it. */
    method Clear()
      modifies this
      ensures Valid() && fresh(drawing) && drawing.strokes == []
      ensures Sequence() == FrameSequence.Clear(drawing)
      ensures Modes() == old(Modes()) && CurrentPen() == old(CurrentPen())
    {
      index := 0;
      canvasList := [];
      var blank := new Bitmap.Blank();
      canvasList := canvasList + [blank];
      drawing := canvasList[0];
    }

    /** `prev()`: the previous frame, if any; returns the new index. */
    method Prev() returns (r: int)
      requires Valid()
      modifies this
      ensures Valid() && r == index
      ensures Sequence() == FrameSequence.Prev(old(Sequence()))
      ensures Modes() == old(Modes()) && CurrentPen() == old(CurrentPen())
    {
      if index > 0 {
        index := index - 1;
        drawing := canvasList[index];
      }
      r := index;
    }

    /** `next()`: the next frame, appending a blank one when moving past
        the last; returns the new index. The appended frame, if any, is the
        last one of the list. */
    method Next() returns (r: int)
      requires Valid()
      modifies this
      ensures Valid() && r == index
      ensures old(index) + 1 == old(|canvasList|) ==>
                |canvasList| == old(|canvasList|) + 1 &&
                fresh(canvasList[|canvasList| - 1]) && canvasList[|canvasList| - 1].strokes == []
      ensures Sequence() == FrameSequence.Next(old(Sequence()), canvasList[|canvasList| - 1])
      ensures Modes() == old(Modes()) && CurrentPen() == old(CurrentPen())
    {
      index := index + 1;
      if index == |canvasList| {
        var blank := new Bitmap.Blank();
        canvasList := canvasList + [blank];
      }
      drawing := canvasList[index];
      r := index;
    }

    /** `copy()`: a copy of the current frame, inserted after it, becomes
        the current frame and the drawing target; returns the new index. */
    method Copy() returns (r: int)
      requires Valid()
      modifies this
      ensures Valid() && r == index
      ensures fresh(drawing) && drawing.strokes == old(canvasList[index].strokes)
      ensures Sequence() == FrameSequence.Copy(old(Sequence()), drawing)
      ensures Modes() == old(Modes()) && CurrentPen() == old(CurrentPen())
    {
      var bmp := canvasList[index];
      index := index + 1;
      var dup := new Bitmap.CopyOf(bmp);
      canvasList := canvasList[..index] + [dup] + canvasList[index..];
      drawing := canvasList[index];
      r := index;
    }

    /** `delete()`: remove the current frame; a blank frame replaces the
        last one. Returns the new index. */
    method Delete() returns (r: int)
      requires Valid()
      modifies this
      ensures Valid() && r == index
      ensures old(|canvasList|) == 1 ==> fresh(drawing) && drawing.strokes == []
      ensures Sequence() == FrameSequence.Delete(old(Sequence()), canvasList[0])
      ensures Modes() == old(Modes()) && CurrentPen() == old(CurrentPen())
    {
      ghost var before := Sequence();
      canvasList := RemoveAt(canvasList, index);
      if index == |canvasList| {
        index := index - 1;
      }
      if index < 0 {
        var blank := new Bitmap.Blank();
        canvasList := canvasList + [blank];
        index := index + 1;
        drawing := canvasList[index];
        assert Sequence() == FrameSequence.Delete(before, blank);
      } else {
        drawing := canvasList[index];
        assert Sequence() == FrameSequence.Delete(before, canvasList[0]);
      }
      r := index;
    }

    /** `frame()`: the current index. */
    method Frame() returns (r: int)
      ensures r == index
    {
      r := index;
    }

    /** `startAnimationFrom(from)`: enter playback at `from` (ignored when
        not below the size); returns whether a further frame follows. The
        drawing target is not rebound. */
    method StartAnimationFrom(from: int) returns (more: bool)
      requires Valid()
      modifies this
      ensures Sequence() == StartFrom(old(Sequence()), from)
      ensures Wellformed() && (Valid() <==> 0 <= from)
      ensures more == More(Sequence())
      ensures running && line == old(line) && erase == old(erase)
      ensures CurrentPen() == old(CurrentPen())
    {
      if from < |canvasList| {
        index := from;
      }
      running := true;
      more := index + 1 < |canvasList|;
    }

    /** `stop()`: leave playback. Neither the index nor the drawing target
        changes. */
    method Stop()
      modifies this
      ensures !running && line == old(line) && erase == old(erase)
      ensures Sequence() == old(Sequence()) && CurrentPen() == old(CurrentPen())
    {
      running := false;
    }

    /** `nextFrame()`: one playback step, with no bounds check; returns
        whether a further frame follows. */
    method NextFrame() returns (more: bool)
      requires Wellformed()
      modifies this
      ensures Wellformed()
      ensures Sequence() == FrameSequence.NextFrame(old(Sequence()))
      ensures more == More(Sequence())
      ensures Modes() == old(Modes()) && CurrentPen() == old(CurrentPen())
    {
      index := index + 1;
      more := index + 1 < |canvasList|;
    }

    /** `toggleLineMode()`: flip line mode; returns the new setting. */
    method ToggleLineMode() returns (r: bool)
      modifies this
      ensures line == !old(line) && r == line
      ensures running == old(running) && erase == old(erase)
      ensures Sequence() == old(Sequence()) && CurrentPen() == old(CurrentPen())
    {
      line := !line;
      r := line;
    }

    /** `erase()`: flip eraser mode; returns the new setting. Strokes
        committed from now on carry it. */
    method Erase() returns (r: bool)
      modifies this
      ensures erase == !old(erase) && r == erase
      ensures running == old(running) && line == old(line)
      ensures Sequence() == old(Sequence()) && CurrentPen() == old(CurrentPen())
    {
      erase := !erase;
      r := erase;
    }

    /** `onTouchEvent(event)`: the stroke state machine. On release the
        path is committed into the drawing target, which is not necessarily
        the frame on screen (see `PlaybackDetachesTarget`). */
    method OnTouchEvent(e: MotionEvent) returns (handled: bool)
      requires Wellformed()
      modifies this, drawing
      ensures Wellformed() && Sequence() == old(Sequence()) && Modes() == old(Modes())
      ensures var o := Touch(old(CurrentPen()), running, line, e);
              CurrentPen() == o.pen && handled == o.handled &&
              drawing.strokes == old(drawing.strokes) +
                (if o.commit.Some? then [Stroke(o.commit.value, erase)] else [])
    {
      if !running {
        match e.action
        case Down =>
          drawPath := drawPath + [MoveTo(e.at)];
          anchor := e.at;
        case Move =>
          if line {
            drawPath := [];
            drawPath := drawPath + [MoveTo(anchor)];
          }
          drawPath := drawPath + [LineTo(e.at)];
        case Up =>
          if line {
            drawPath := [];
            drawPath := drawPath + [MoveTo(anchor)];
          }
          drawPath := drawPath + [LineTo(e.at)];
          assert drawPath == Extend(old(CurrentPen()), line, e.at);
          drawing.strokes := drawing.strokes + [Stroke(drawPath, erase)];
          drawPath := [];
        case Other(_) =>
          return false;
      }
      return true;
    }
  }
}
