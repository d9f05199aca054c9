/** The in-progress stroke of the drawing surface and the three-event
    touch state machine that builds it.

    A path is the list of commands given to the platform's path object
    (`moveTo`, `lineTo`; `reset` empties it). Touch coordinates are kept
    as reals: the handler only stores and forwards them. */
module Strokes {

  datatype Option<T> = None | Some(value: T)

  datatype Point = Point(x: real, y: real)

  datatype PathOp = MoveTo(to: Point) | LineTo(to: Point)

  /** The motion-event actions the handler distinguishes; `Other` is every
      other action code (cancel, outside, a second finger, ...). */
  datatype Action = Down | Move | Up | Other(code: int)

  datatype MotionEvent = MotionEvent(action: Action, at: Point)

  /** The stroke being drawn: the path so far and the anchor point of the
      last touch-down (`lx`, `ly`). */
  datatype Pen = Pen(path: seq<PathOp>, anchor: Point)

  /** What one touch event does: the new pen, the path committed into the
      drawing target (on release only) and the handler's return value. */
  datatype Outcome = Outcome(pen: Pen, commit: Option<seq<PathOp>>, handled: bool)

  /** The path after a move or a release at `p`: in line mode the single
      segment from the anchor, otherwise the path extended by one segment. */
  function Extend(pen: Pen, line: bool, p: Point): (r: seq<PathOp>)
    ensures line ==> r == [MoveTo(pen.anchor), LineTo(p)]
    ensures !line ==> |r| == |pen.path| + 1 && r[..|pen.path|] == pen.path && r[|pen.path|] == LineTo(p)
  {
    (if line then [MoveTo(pen.anchor)] else pen.path) + [LineTo(p)]
  }

  /** `onTouchEvent`: ignored while the animation runs; down starts a
      sub-path at the touch point and makes it the anchor; move extends the
      path; up extends it, commits it and empties it. */
  function Touch(pen: Pen, running: bool, line: bool, e: MotionEvent): (o: Outcome)
    ensures running ==> o == Outcome(pen, None, true)
    ensures !running && e.action.Other? ==> o == Outcome(pen, None, false)
    ensures !running && e.action == Down ==>
              o == Outcome(Pen(pen.path + [MoveTo(e.at)], e.at), None, true)
    ensures !running && line && e.action == Move ==>
              o.pen.path == [MoveTo(pen.anchor), LineTo(e.at)]
    ensures !running && line && e.action == Up ==>
              o.commit == Some([MoveTo(pen.anchor), LineTo(e.at)])
    ensures !running && !line && e.action == Move ==>
              o == Outcome(Pen(pen.path + [LineTo(e.at)], pen.anchor), None, true)
    ensures !running && !line && e.action == Up ==>
              o == Outcome(Pen([], pen.anchor), Some(pen.path + [LineTo(e.at)]), true)
    ensures !running && e.action == Up ==> o.pen.path == [] && o.commit.Some?
    ensures o.handled <==> running || !e.action.Other?
    ensures o.commit.Some? <==> !running && e.action == Up
    ensures o.pen.anchor == if !running && e.action == Down then e.at else pen.anchor
  {
    if running then
      Outcome(pen, None, true)
    else
      match e.action
      case Down => Outcome(Pen(pen.path + [MoveTo(e.at)], e.at), None, true)
      case Move => Outcome(pen.(path := Extend(pen, line, e.at)), None, true)
      case Up => Outcome(pen.(path := []), Some(Extend(pen, line, e.at)), true)
      case Other(_) => Outcome(pen, None, false)
  }

  /** A run of events while editing: the final pen and the paths committed,
      in order. */
  datatype Session = Session(pen: Pen, commits: seq<seq<PathOp>>)

  /** `onTouchEvent` applied to each event in turn while editing. Only a
      release commits, and a run that ends with a release leaves the path
      empty. */
  function Replay(pen: Pen, line: bool, events: seq<MotionEvent>): (r: Session)
    decreases |events|
    ensures (forall k :: 0 <= k < |events| ==> events[k].action != Up) ==> r.commits == []
    ensures events != [] && events[|events| - 1].action == Up ==> r.pen.path == []
  {
    if events == [] then
      Session(pen, [])
    else
      var o := Touch(pen, false, line, events[0]);
      var rest := Replay(o.pen, line, events[1..]);
      var committed := if o.commit.Some? then [o.commit.value] else [];
      Session(rest.pen, committed + rest.commits)
  }

  /** Move events at the given points. */
  function Moves(ps: seq<Point>): seq<MotionEvent> {
    seq(|ps|, k requires 0 <= k < |ps| => MotionEvent(Move, ps[k]))
  }

  /** One segment to each of the given points. */
  function LinesTo(ps: seq<Point>): seq<PathOp> {
    seq(|ps|, k requires 0 <= k < |ps| => LineTo(ps[k]))
  }

  // ---------------------------------------------------------------------
  // Properties

  /** One event of a run that commits nothing, taken off the front. */
  lemma ReplayStep(pen: Pen, line: bool, e: MotionEvent, rest: seq<MotionEvent>)
    requires e.action != Up
    ensures Replay(pen, line, [e] + rest) == Replay(Touch(pen, false, line, e).pen, line, rest)
  {
  }

  /** Splitting off the first of a run of moves. */
  lemma MovesCons(ps: seq<Point>, rest: seq<MotionEvent>)
    requires ps != []
    ensures Moves(ps) + rest == [MotionEvent(Move, ps[0])] + (Moves(ps[1..]) + rest)
  {
  }

  /** Extending a path by the segments to the first point and then to the
      others is extending it by the segments to all of them. */
  lemma LinesToCons(path: seq<PathOp>, ps: seq<Point>)
    requires ps != []
    ensures (path + [LineTo(ps[0])]) + LinesTo(ps[1..]) == path + LinesTo(ps)
  {
  }

  /** Freehand moves add one segment per move, in order. */
  lemma {:induction false} FreehandMoves(pen: Pen, ps: seq<Point>, rest: seq<MotionEvent>)
    decreases |ps|
    ensures Replay(pen, false, Moves(ps) + rest) ==
            Replay(Pen(pen.path + LinesTo(ps), pen.anchor), false, rest)
  {
    if ps == [] {
      assert Moves(ps) + rest == rest;
      assert pen.path + LinesTo(ps) == pen.path;
    } else {
      var next := Pen(pen.path + [LineTo(ps[0])], pen.anchor);
      MovesCons(ps, rest);
      ReplayStep(pen, false, MotionEvent(Move, ps[0]), Moves(ps[1..]) + rest);
      FreehandMoves(next, ps[1..], rest);
      LinesToCons(pen.path, ps);
    }
  }

  /** In line mode a run of moves leaves only the segment from the anchor
      to the last point. */
  lemma {:induction false} LineMoves(pen: Pen, ps: seq<Point>, rest: seq<MotionEvent>)
    requires |ps| > 0
    decreases |ps|
    ensures Replay(pen, true, Moves(ps) + rest) ==
            Replay(Pen([MoveTo(pen.anchor), LineTo(ps[|ps| - 1])], pen.anchor), true, rest)
  {
    var next := Pen([MoveTo(pen.anchor), LineTo(ps[0])], pen.anchor);
    MovesCons(ps, rest);
    ReplayStep(pen, true, MotionEvent(Move, ps[0]), Moves(ps[1..]) + rest);
    if |ps| > 1 {
      LineMoves(next, ps[1..], rest);
    } else {
      assert Moves(ps[1..]) + rest == rest;
    }
  }

  /** A release on its own commits the extended path and empties it. */
  lemma ReplayUp(pen: Pen, line: bool, b: Point)
    ensures Replay(pen, line, [MotionEvent(Up, b)]) ==
            Session(pen.(path := []), [Extend(pen, line, b)])
  {
  }

  /** A whole line-mode gesture (down at `a`, any moves, up at `b`)
      commits exactly the segment from `a` to `b` and leaves the path empty. */
  lemma LineGesture(pen: Pen, a: Point, ps: seq<Point>, b: Point)
    ensures Replay(pen, true, [MotionEvent(Down, a)] + Moves(ps) + [MotionEvent(Up, b)]) ==
            Session(Pen([], a), [[MoveTo(a), LineTo(b)]])
  {
    var up := [MotionEvent(Up, b)];
    var down := Pen(pen.path + [MoveTo(a)], a);
    assert [MotionEvent(Down, a)] + Moves(ps) + up == [MotionEvent(Down, a)] + (Moves(ps) + up);
    ReplayStep(pen, true, MotionEvent(Down, a), Moves(ps) + up);
    if ps == [] {
      assert Moves(ps) + up == up;
      ReplayUp(down, true, b);
    } else {
      LineMoves(down, ps, up);
      ReplayUp(Pen([MoveTo(a), LineTo(ps[|ps| - 1])], a), true, b);
    }
  }

  /** A whole freehand gesture (down at `a`, any moves, up at `b`) commits
      the pending path followed by the sub-path from `a` through every
      moved-to point to `b`, and leaves the path empty. Touch-down does not
      reset the path, so a path left pending (its release having gone to
      another view, say) is committed together with this gesture. */
  lemma FreehandGesture(pen: Pen, a: Point, ps: seq<Point>, b: Point)
    ensures Replay(pen, false, [MotionEvent(Down, a)] + Moves(ps) + [MotionEvent(Up, b)]) ==
            Session(Pen([], a), [pen.path + [MoveTo(a)] + LinesTo(ps) + [LineTo(b)]])
  {
    var up := [MotionEvent(Up, b)];
    var down := Pen(pen.path + [MoveTo(a)], a);
    assert [MotionEvent(Down, a)] + Moves(ps) + up == [MotionEvent(Down, a)] + (Moves(ps) + up);
    ReplayStep(pen, false, MotionEvent(Down, a), Moves(ps) + up);
    FreehandMoves(down, ps, up);
    ReplayUp(Pen(pen.path + [MoveTo(a)] + LinesTo(ps), a), false, b);
  }
}
