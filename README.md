# AnimaDraw drawing surface: the frame sequence and the stroke state machine

This project models the core of AnimaDraw's `DrawingView`, the drawing surface
of a small Android animation app, and proves properties about that model.
The surface keeps these fields:

- an ordered list of frames (`canvasList`);
- a current index (`index`);
- a drawing target (`drawing`): the frame that finished strokes are committed into;
- an animation flag (`running`);
- line-mode and eraser flags;
- the stroke being drawn (`drawPath`, with its anchor point `lx`/`ly`).

The host screen edits the frame list with `prev`, `next`, `copy`, `delete` and
`clear`. It plays the frames back with `startAnimationFrom` and `nextFrame`.
The touch handler builds a path from down/move/up events and commits the path
into the drawing target on release.

Files:

- `frames.dfy`, module `FrameSequence`: the list, the index and the drawing
  target as a value, `Frames<T>`. Frames are opaque tokens. The module has
  one function per navigation and playback operation and the lemmas that
  relate them. `Wellformed` means: at least one frame, no frame twice, and
  the target is one of the frames. `Valid` adds "the index is in bounds".
- `strokes.dfy`, module `Strokes`: points, path commands (`MoveTo`,
  `LineTo`), motion events, the pure touch step `Touch`, and `Replay`, which
  runs a sequence of events. The gesture lemmas are here.
- `rendering.dfy`, module `Rendering`: the layer rule of `onDraw`. It gives
  which frame indices are composited, bottom to top, and at which alpha.
- `drawing_view.dfy`, module `DrawingSurface`: the view as a class. Its
  fields are updated in place. `Bitmap` is a class holding the strokes
  committed into it, so a blank frame is a fresh object and a copy is a
  fresh object with equal content. Each method's `ensures` ties the new
  state to the matching `FrameSequence` or `Strokes` function of the old
  state.
- `playback.dfy`, module `Playback`: the host screen's two callers of
  playback. The animate button calls `startAnimationFrom(0)`, then calls
  `nextFrame` while the last call returned true, then calls `stop`. The
  save button runs a do-while loop of exports and `nextFrame` calls.

Behaviour of `DrawingView` and its host screen that the model keeps:

- `delete` on a one-frame list sets the index to -1 for a moment. It then adds
  a blank frame and sets the index back to 0. `FrameSequence.Delete` proves
  that the result is always valid.
- `nextFrame` has no bounds check. Calling it once after it returned false
  moves the index past the end (`FrameSequence.NextFrame`). The animate
  button's loop, run with no other call in between, keeps the index in
  bounds (`Playback.Animate`).
- The save handler ignores the result of `startAnimationFrom(0)` and calls
  `nextFrame` in a do-while loop. With two or more frames the index stays in
  bounds. With one frame and a successful first export, the final export
  draws the view at index 1, which is out of bounds: `onDraw`'s fetch throws,
  and the handler ends with no result and without `stop`, so the view stays
  in playback (`Playback.SaveAll`, its `overrun` result).
- Other interleavings also move the index past the end.
  - Pressing animate during playback stops the view but does not cancel
    the pending timer tick. The pending tick keeps advancing the frames,
    with the view no longer running. Pressing animate again before that
    tick fires starts a second tick chain beside the first, and the stale
    tick overruns (`FrameSequence.StaleTickOverruns`).
  - Editing stays enabled during playback. A `delete` at the last but one
    frame, before the pending tick, makes that tick overrun
    (`FrameSequence.DeleteThenTickOverruns`).
- `startAnimationFrom(from)` does not check `from` against 0. A negative
  `from` leaves the index out of bounds, and its contract says exactly that.
- Playback moves the index but never rebinds the drawing target. The host
  screen starts playback from frame 0. After playback, the last frame is
  shown. Strokes still go into the drawing target from before playback,
  which is not the frame shown unless that target is the last frame (`PlaybackDetachesTarget`, with a
  concrete two-frame instance in `PlaybackDetachesTargetExample`). A
  detached target stays detached through further playbacks
  (`ReplayStaysDetached`).
- `delete` right after `copy` gives back the original list. The index then
  stays on the frame after the copied one, unless the copied frame was the
  last (`DeleteAfterCopy`).
- Touch-down does not reset the path. A pending path is committed together
  with the next freehand gesture (`FreehandGesture`).

## Model

| member | source | states |
|---|---|---|
| `FrameSequence.Clear` | app/src/main/java/ca/uqac/drawbd/DrawingView.java:219-226 | the result is exactly one frame, the blank one, at index 0, and it is the drawing target |
| `FrameSequence.Prev` | app/src/main/java/ca/uqac/drawbd/DrawingView.java:171-179 | the list never changes and validity is kept; from a positive index, the index decreases by one and the target becomes the new current frame; at index 0 nothing changes |
| `FrameSequence.Next` | app/src/main/java/ca/uqac/drawbd/DrawingView.java:181-189 | the index goes up by one; a blank frame is appended exactly when the old index was the last; otherwise the list is unchanged; afterwards the state is valid and the target is the current frame |
| `FrameSequence.Copy` | app/src/main/java/ca/uqac/drawbd/DrawingView.java:191-197 | the list grows by one; the index and the target move to the copy, just after the old current frame; validity is kept |
| `FrameSequence.CopyKeepsOrder` | app/src/main/java/ca/uqac/drawbd/DrawingView.java:193-194 | the frames up to the copied one stay in place and the frames after it follow the copy in their old order |
| `FrameSequence.Delete` | app/src/main/java/ca/uqac/drawbd/DrawingView.java:199-212 | the current frame is removed and the rest keep their order; the index steps back if the last frame was removed; an emptied list becomes one blank frame at index 0; in every case the result is valid and the target is the current frame |
| `FrameSequence.StartFrom` | app/src/main/java/ca/uqac/drawbd/DrawingView.java:233-244 | the index becomes `from` exactly when `from` is below the size; the list and the target are untouched; the result is in bounds exactly when `from` is not negative |
| `FrameSequence.NextFrame` | app/src/main/java/ca/uqac/drawbd/DrawingView.java:251-258 | the index goes up by one; the list and the target are untouched; from a valid state the result is valid exactly when the old call would have returned true |
| `FrameSequence.PlayToEnd` | app/src/main/java/ca/uqac/drawbd/MainActivity.java:42-55 | repeating `nextFrame` while it returns true ends valid, on the last frame, with the list and the target unchanged |
| `FrameSequence.Played` | app/src/main/java/ca/uqac/drawbd/MainActivity.java:42-55 | playback from index i shows size - i frames, starting with frame i |
| `FrameSequence.PlayedIsSpan` | app/src/main/java/ca/uqac/drawbd/DrawingView.java:251-258 | playback shows every frame from the current one to the last, once each and in order |
| `FrameSequence.PlaybackShowsAll` | app/src/main/java/ca/uqac/drawbd/MainActivity.java:378-393 | starting from frame 0, as the animate button does, shows every frame 0 .. size-1 in order |
| `FrameSequence.PlaybackDetachesTarget` | app/src/main/java/ca/uqac/drawbd/DrawingView.java:233-258 | after a playback from frame 0, the drawing target is the displayed frame if and only if it was already the last frame |
| `FrameSequence.PlaybackDetachesTargetExample` | app/src/main/java/ca/uqac/drawbd/DrawingView.java:233-258 | two frames, drawing into the first: after playback, the second is shown and strokes still go into the first |
| `FrameSequence.ReplayStaysDetached` | app/src/main/java/ca/uqac/drawbd/DrawingView.java:233-258 | when the target is not the last frame, a second playback from frame 0 again ends on the last frame with the same, undisplayed target |
| `FrameSequence.StaleTickOverruns` | app/src/main/java/ca/uqac/drawbd/MainActivity.java:42-55 | at the last but one frame `nextFrame` reports a further frame and schedules a tick; if another `nextFrame` runs before that tick, the tick leaves the index out of bounds |
| `FrameSequence.DeleteThenTickOverruns` | app/src/main/java/ca/uqac/drawbd/DrawingView.java:199-258 | at the last but one frame a tick is pending; a `delete` leaves a valid state, and the pending tick's `nextFrame` then moves the index out of bounds |
| `FrameSequence.DeleteAfterCopy` | app/src/main/java/ca/uqac/drawbd/DrawingView.java:191-212 | `delete` after `copy` restores the list; the index is the copied frame's successor, or the copied frame itself when it was the last |
| `FrameSequence.PrevAfterNext` | app/src/main/java/ca/uqac/drawbd/DrawingView.java:171-189 | `prev` after `next` returns to the same index, drawing into that frame; the list is unchanged or grew by the appended blank frame |
| `FrameSequence.NextAfterPrev` | app/src/main/java/ca/uqac/drawbd/DrawingView.java:171-189 | from a positive index, `next` after `prev` returns to the same frame without growing the list and with the target rebound to it |
| `FrameSequence.DeleteDropsCurrent` | app/src/main/java/ca/uqac/drawbd/DrawingView.java:199-212 | the deleted frame is neither in the list nor the drawing target any more |
| `FrameSequence.DeleteKeepsOthers` | app/src/main/java/ca/uqac/drawbd/DrawingView.java:199-212 | the multiset of frames loses exactly the deleted frame, and gains the blank frame when the list had one frame |
| `FrameSequence.RemoveAtMultiset` | app/src/main/java/ca/uqac/drawbd/DrawingView.java:201 | removing the frame at the index takes exactly that frame out of the multiset of frames |
| `FrameSequence.CopyAddsOnlyDup` | app/src/main/java/ca/uqac/drawbd/DrawingView.java:191-197 | `copy` adds exactly the copy to the multiset of frames |
| `FrameSequence.RemoveAt` | app/src/main/java/ca/uqac/drawbd/DrawingView.java:201 | `LinkedList.remove(index)`: the frames before the index stay in place and the frames after it move down by one |
| `Strokes.Extend` | app/src/main/java/ca/uqac/drawbd/DrawingView.java:89-101 | in line mode the path becomes the one segment from the anchor to the point; otherwise the old path followed by one segment to the point |
| `Strokes.Touch` | app/src/main/java/ca/uqac/drawbd/DrawingView.java:77-113 | while running, every event is swallowed and returns true; an unknown action returns false and changes nothing; down appends a move-to and sets the anchor; in line mode, move and up leave exactly one segment from the anchor; up commits the path and empties it; only up commits; in freehand mode move appends one segment to the point and up commits the path with that segment appended; the handler returns false exactly for an unknown action while editing |
| `Strokes.Replay` | app/src/main/java/ca/uqac/drawbd/DrawingView.java:76-113 | a run of events with no release commits nothing; a run that ends with a release leaves the path empty |
| `Strokes.ReplayStep` | app/src/main/java/ca/uqac/drawbd/DrawingView.java:83-95 | an event other than up commits nothing and only advances the pen |
| `Strokes.FreehandMoves` | app/src/main/java/ca/uqac/drawbd/DrawingView.java:89-95 | a run of freehand moves appends one segment per move, in order |
| `Strokes.LineMoves` | app/src/main/java/ca/uqac/drawbd/DrawingView.java:89-95 | a run of line-mode moves leaves only the segment from the anchor to the last point |
| `Strokes.LineGesture` | app/src/main/java/ca/uqac/drawbd/DrawingView.java:84-104 | a line-mode gesture down(a), moves, up(b) commits exactly [MoveTo(a), LineTo(b)] and leaves the path empty with anchor a |
| `Strokes.FreehandGesture` | app/src/main/java/ca/uqac/drawbd/DrawingView.java:84-104 | a freehand gesture commits the pending path, then the move-to a, a segment to every moved-to point and a segment to b; the path is left empty; down does not reset a pending path |
| `Rendering.Layers` | app/src/main/java/ca/uqac/drawbd/DrawingView.java:64-74 | the current frame is drawn opaque under the live path; the previous frame is drawn below it at alpha 100 exactly when not running and the index is positive |
| `Rendering.LayersInBounds` | app/src/main/java/ca/uqac/drawbd/DrawingView.java:67-72 | with the index in bounds, every frame `onDraw` fetches exists |
| `DrawingSurface.Bitmap.Blank` | app/src/main/java/ca/uqac/drawbd/DrawingView.java:223 | a newly created bitmap has no content |
| `DrawingSurface.Bitmap.CopyOf` | app/src/main/java/ca/uqac/drawbd/DrawingView.java:194 | a copied bitmap has the same content as the original |
| `DrawingSurface.DrawingView.constructor` | app/src/main/java/ca/uqac/drawbd/DrawingView.java:23-54 | a new view has no frames and no drawing target; it is not running, not in line or eraser mode, and its path is empty |
| `DrawingSurface.DrawingView.Clear` | app/src/main/java/ca/uqac/drawbd/DrawingView.java:219-226 | from any state, including the fresh view: one new empty frame, index 0, drawing into it; flags and pen unchanged |
| `DrawingSurface.DrawingView.Prev` | app/src/main/java/ca/uqac/drawbd/DrawingView.java:171-179 | the new state is `FrameSequence.Prev` of the old; returns the new index; flags and pen unchanged |
| `DrawingSurface.DrawingView.Next` | app/src/main/java/ca/uqac/drawbd/DrawingView.java:181-189 | the new state is `FrameSequence.Next` of the old; the appended frame, if any, is new and empty; returns the new index |
| `DrawingSurface.DrawingView.Copy` | app/src/main/java/ca/uqac/drawbd/DrawingView.java:191-197 | the new state is `FrameSequence.Copy` with a new bitmap whose content equals the current frame's; returns the new index |
| `DrawingSurface.DrawingView.Delete` | app/src/main/java/ca/uqac/drawbd/DrawingView.java:199-212 | the new state is `FrameSequence.Delete` of the old; the replacement for the only frame is new and empty; returns the new index |
| `DrawingSurface.DrawingView.Frame` | app/src/main/java/ca/uqac/drawbd/DrawingView.java:228-231 | returns the current index |
| `DrawingSurface.DrawingView.StartAnimationFrom` | app/src/main/java/ca/uqac/drawbd/DrawingView.java:233-244 | the new state is `FrameSequence.StartFrom`; running is set; returns whether another frame follows; the state is valid exactly when `from` is not negative |
| `DrawingSurface.DrawingView.Stop` | app/src/main/java/ca/uqac/drawbd/DrawingView.java:246-249 | clears running only; the index and the drawing target stay where playback left them |
| `DrawingSurface.DrawingView.NextFrame` | app/src/main/java/ca/uqac/drawbd/DrawingView.java:251-258 | the new state is `FrameSequence.NextFrame`, which has no bounds check; returns whether another frame follows |
| `DrawingSurface.DrawingView.ToggleLineMode` | app/src/main/java/ca/uqac/drawbd/DrawingView.java:152-156 | flips line mode and returns the new value; nothing else changes |
| `DrawingSurface.DrawingView.Erase` | app/src/main/java/ca/uqac/drawbd/DrawingView.java:158-169 | flips eraser mode and returns the new value; nothing else changes |
| `DrawingSurface.DrawingView.OnTouchEvent` | app/src/main/java/ca/uqac/drawbd/DrawingView.java:76-113 | the new pen and the return value are those of `Strokes.Touch`; on release the committed path is appended, with the eraser flag, to the drawing target's strokes, and to no other frame; the frames and flags are unchanged |
| `Playback.Animate` | app/src/main/java/ca/uqac/drawbd/MainActivity.java:42-55 | the animate button's start/next/stop loop, with no other call in between, keeps the index in bounds at every step; it ends on the last frame, not running, with the drawing target, the line and eraser flags and the pen unchanged, after showing frames 0 .. size-1 in order |
| `Playback.SaveAll` | app/src/main/java/ca/uqac/drawbd/MainActivity.java:348-363 | the save handler's do-while loop exports the shown indices 0, 1, ... in order and stops at the first failed export; when all succeed it exports every frame of a list of two or more and ends valid on the last one; with two or more frames the index stays in bounds whatever the exports do and the view is stopped; with one frame and a successful first export, the final export draws the view at index 1, which is out of bounds, so the handler throws, stays running and reports no success (`overrun`), and only then; frames, target, flags and pen are unchanged |

## Left out

- Pixels and rasterisation are not modelled: `Canvas`, `Paint`, anti-aliasing, `BitmapShader`, `PorterDuffXfermode`. A bitmap is an identity plus the list of strokes committed into it. A stroke records its path and the eraser flag only.
- Bitmap dimensions are not modelled. `clear(w, h)`, `clear()` and `onSizeChanged` all become `Clear`, and `getWidth()`/`getHeight()` are not modelled.
- `setColor` is not modelled: it parses colour strings and looks up drawable resources through the platform.
- `setBrushSize` is not modelled: it does a display-density conversion in floating point.
- `getPaintAlpha`/`setPaintAlpha` are not modelled: they use float division and `Math.round`. The colour, width and alpha of a committed stroke are therefore not recorded.
- `invalidate()` is not modelled: it only schedules a redraw. `onDraw` is modelled only as its layer choice (`Rendering.Layers`).
- The host screen is not modelled, except its two playback loops, `Playback.Animate` and `Playback.SaveAll`. Its dialogs, seek bar, button images, orientation lock and permission flow are not modelled. The gallery export (`saveImage`) is a platform call; `SaveAll` takes its outcomes as a parameter, and models the exception thrown when an export draws past the end only as its `overrun` result (the exception's propagation out of the click handler is not modelled).
- Timer ticks interleaved with button presses are not modelled as a sequence of events. The animate button's stop branch leaves the pending tick scheduled, and editing buttons stay enabled during playback. Two such interleavings that overrun the index are stated as lemmas (`StaleTickOverruns`, `DeleteThenTickOverruns`); `Playback.Animate` covers only an uninterrupted run.
- Timing of the animation loop is not modelled: the timer's delay is dropped and the callbacks run back to back.
- Touch coordinates are reals rather than 32-bit floats. They are only stored and forwarded, so nothing depends on float rounding.
- `index` is an unbounded integer. A 32-bit overflow would need about 2^31 calls to `nextFrame` past the end, and the host never makes them.
- DrawingSurface.DrawingView.OnTouchEvent: requires a well-formed view, that is, one after its first `clear`. In `DrawingView`, a release before the first size change would dereference a null canvas.
