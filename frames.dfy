/** The frame sequence of the drawing surface, as values.

    `Frames<T>` is the part of the view's state that the navigation and
    playback operations touch: the ordered list of frames, the current
    index and the drawing target (the frame that finished strokes are
    committed into). Frames are opaque tokens of type `T`; the view
    instantiates `T` with its bitmap objects. A frame the view allocates
    (`Bitmap.createBitmap`, `Bitmap.copy`) is passed in as a parameter that
    must not already be in the list. */
module FrameSequence {

  datatype Frames<T> = Frames(list: seq<T>, index: int, target: T)

  /** No frame appears twice: every frame is its own bitmap. */
  predicate Distinct<T(==)>(s: seq<T>) {
    forall i, j :: 0 <= i < j < |s| ==> s[i] != s[j]
  }

  /** What holds of the list whatever the index: at least one frame, no
      frame twice, and the drawing target is one of the frames. */
  predicate Wellformed<T(==)>(s: Frames<T>) {
    |s.list| >= 1 && Distinct(s.list) && s.target in s.list
  }

  /** The invariant the editing operations keep: also the index is in bounds. */
  predicate Valid<T(==)>(s: Frames<T>) {
    Wellformed(s) && 0 <= s.index < |s.list|
  }

  /** The drawing target is the frame being shown. */
  predicate Attached<T(==)>(s: Frames<T>)
    requires Valid(s)
  {
    s.target == s.list[s.index]
  }

  /** `s` with its drawing target rebound to the current frame. */
  function Attach<T(==)>(s: Frames<T>): (r: Frames<T>)
    requires Valid(s)
    ensures Valid(r) && Attached(r)
    ensures r.list == s.list && r.index == s.index
  {
    s.(target := s.list[s.index])
  }

  /** True when another frame follows the current one: the value that
      `startAnimationFrom` and `nextFrame` return. */
  predicate More<T>(s: Frames<T>) {
    s.index + 1 < |s.list|
  }

  /** `clear(w, h)`: a single blank frame, shown and drawn into. */
  function Clear<T(==)>(blank: T): (r: Frames<T>)
    ensures Valid(r) && Attached(r)
    ensures r.list == [blank] && r.index == 0
  {
    Frames([blank], 0, blank)
  }

  /** `prev()`: step back one frame unless at the first one. */
  function Prev<T(==)>(s: Frames<T>): (r: Frames<T>)
    requires Valid(s)
    ensures Valid(r)
    ensures r.list == s.list
    ensures s.index > 0 ==> r.index == s.index - 1 && Attached(r)
    ensures s.index == 0 ==> r == s
  {
    if s.index > 0 then
      s.(index := s.index - 1, target := s.list[s.index - 1])
    else
      s
  }

  /** `next()`: step forward one frame, appending `blank` when stepping
      past the last frame. */
  function Next<T(==)>(s: Frames<T>, blank: T): (r: Frames<T>)
    requires Valid(s)
    requires s.index + 1 == |s.list| ==> blank !in s.list
    ensures Valid(r) && Attached(r)
    ensures r.index == s.index + 1
    ensures s.index + 1 == |s.list| ==> r.list == s.list + [blank] && r.target == blank
    ensures s.index + 1 < |s.list| ==> r.list == s.list
  {
    var i := s.index + 1;
    if i == |s.list| then
      Frames(s.list + [blank], i, blank)
    else
      Frames(s.list, i, s.list[i])
  }

  /** `copy()`: insert `dup` just after the current frame and move there. */
  function Copy<T(==)>(s: Frames<T>, dup: T): (r: Frames<T>)
    requires Valid(s)
    requires dup !in s.list
    ensures Valid(r) && Attached(r)
    ensures r.index == s.index + 1 && r.target == dup
    ensures |r.list| == |s.list| + 1
  {
    var i := s.index + 1;
    var list := s.list[..i] + [dup] + s.list[i..];
    assert list[..i] == s.list[..i];
    assert list[i + 1..] == s.list[i..];
    assert forall k :: 0 <= k < |list| ==> list[k] == if k < i then s.list[k] else if k == i then dup else s.list[k - 1];
    Frames(list, i, dup)
  }

  /** The list with the element at `i` taken out. */
  function RemoveAt<T>(s: seq<T>, i: int): (r: seq<T>)
    requires 0 <= i < |s|
    ensures |r| == |s| - 1
    ensures forall k :: 0 <= k < i ==> r[k] == s[k]
    ensures forall k :: i <= k < |r| ==> r[k] == s[k + 1]
  {
    s[..i] + s[i + 1..]
  }

  /** `delete()`: remove the current frame. The index steps back when the
      last frame was removed; when the list became empty it is -1 for a
      moment, and `blank` is added and the index brought back to 0. */
  function Delete<T(==)>(s: Frames<T>, blank: T): (r: Frames<T>)
    requires Valid(s)
    ensures Valid(r) && Attached(r)
    ensures |s.list| == 1 ==> r.list == [blank] && r.index == 0
    ensures |s.list| > 1 ==> r.list == RemoveAt(s.list, s.index)
    ensures |s.list| > 1 ==> r.index == if s.index == |s.list| - 1 then s.index - 1 else s.index
  {
    var list := RemoveAt(s.list, s.index);
    var i := if s.index == |list| then s.index - 1 else s.index;
    if i < 0 then
      Frames(list + [blank], i + 1, blank)
    else
      Frames(list, i, list[i])
  }

  /** `startAnimationFrom(from)`: jump to `from` if it is below the size;
      `from` is not checked against 0. */
  function StartFrom<T(==)>(s: Frames<T>, from: int): (r: Frames<T>)
    requires Valid(s)
    ensures r.list == s.list && r.target == s.target
    ensures from < |s.list| ==> r.index == from
    ensures from >= |s.list| ==> r.index == s.index
    ensures Wellformed(r)
    ensures Valid(r) <==> 0 <= from
  {
    if from < |s.list| then s.(index := from) else s
  }

  /** `nextFrame()`: advance the index with no bounds check. */
  function NextFrame<T(==)>(s: Frames<T>): (r: Frames<T>)
    ensures r.list == s.list && r.target == s.target
    ensures r.index == s.index + 1
    ensures Valid(s) ==> (Valid(r) <==> More(s))
  {
    s.(index := s.index + 1)
  }

  /** The state when playback ends: `nextFrame` repeated while it
      reports that frames remain. */
  function PlayToEnd<T(==)>(s: Frames<T>): (r: Frames<T>)
    requires Valid(s)
    decreases |s.list| - s.index
    ensures Valid(r) && !More(r)
    ensures r.list == s.list && r.target == s.target
    ensures r.index == |s.list| - 1
  {
    if More(s) then PlayToEnd(NextFrame(s)) else s
  }

  /** The indices shown from `s` on until playback ends. */
  function Played<T(==)>(s: Frames<T>): (r: seq<int>)
    requires Valid(s)
    decreases |s.list| - s.index
    ensures |r| == |s.list| - s.index
    ensures r[0] == s.index
  {
    if More(s) then [s.index] + Played(NextFrame(s)) else [s.index]
  }

  /** The integers lo, lo + 1, ..., hi - 1. */
  function Span(lo: int, hi: int): (r: seq<int>)
    requires lo <= hi
    ensures |r| == hi - lo
    ensures forall k :: 0 <= k < |r| ==> r[k] == lo + k
  {
    seq(hi - lo, k => lo + k)
  }

  // ---------------------------------------------------------------------
  // Properties

  /** Playback shows every frame from the current one to the last, once
      each and in order. */
  lemma {:induction false} PlayedIsSpan<T>(s: Frames<T>)
    requires Valid(s)
    decreases |s.list| - s.index
    ensures Played(s) == Span(s.index, |s.list|)
  {
    if More(s) {
      PlayedIsSpan(NextFrame(s));
      assert Played(s) == [s.index] + Span(s.index + 1, |s.list|);
    } else {
      assert Played(s) == [s.index];
    }
  }

  /** Playing from the first frame (as the animate button does) shows every
      frame of the list in order. */
  lemma PlaybackShowsAll<T>(s: Frames<T>)
    requires Valid(s)
    ensures Valid(StartFrom(s, 0))
    ensures Played(StartFrom(s, 0)) == Span(0, |s.list|)
  {
    PlayedIsSpan(StartFrom(s, 0));
  }

  /** Neither `startAnimationFrom` nor `nextFrame` rebinds the drawing
      target, so after a playback from the first frame the target is the
      shown frame exactly when it was already the last frame: from any other
      frame, later strokes go into a frame that is not displayed. */
  lemma PlaybackDetachesTarget<T>(s: Frames<T>)
    requires Valid(s)
    ensures Valid(PlayToEnd(StartFrom(s, 0)))
    ensures Attached(PlayToEnd(StartFrom(s, 0))) <==> s.target == s.list[|s.list| - 1]
  {
  }

  /** A concrete instance: two frames, drawing into the first; after
      playback the second is shown while strokes still go to the first. */
  lemma PlaybackDetachesTargetExample()
    ensures var e := PlayToEnd(StartFrom(Frames([10, 20], 0, 10), 0));
            e.list[e.index] == 20 && e.target == 10
  {
  }

  /** Once detached, the target stays detached: a second playback starts
      on the last frame, which is not the target, and ends there again. */
  lemma ReplayStaysDetached<T>(s: Frames<T>)
    requires Valid(s) && s.target != s.list[|s.list| - 1]
    ensures var e := PlayToEnd(StartFrom(s, 0));
            e.target == s.target && e.index == |s.list| - 1 &&
            !Attached(PlayToEnd(StartFrom(e, 0)))
  {
  }

  /** A timer tick is only scheduled after `nextFrame` reported that a frame
      remains. If another `nextFrame` (from a second timer chain, started
      by stopping and restarting the animation while a tick was pending)
      runs before that tick, the tick moves the index past the end. */
  lemma StaleTickOverruns<T>(s: Frames<T>)
    requires Valid(s) && s.index + 2 == |s.list|
    ensures More(s) && Valid(NextFrame(s))
    ensures !Valid(NextFrame(NextFrame(s)))
  {
  }

  /** Editing stays enabled during playback: a `delete` at the last but
      one frame, between the report that a frame remains and the tick that
      acts on it, makes that tick move the index past the end. */
  lemma DeleteThenTickOverruns<T>(s: Frames<T>, blank: T)
    requires Valid(s) && s.index + 2 == |s.list|
    ensures More(s)
    ensures Valid(Delete(s, blank)) && !Valid(NextFrame(Delete(s, blank)))
  {
  }

  /** `delete` right after `copy` removes the copy again, so the list is
      as before; the index stays where the copy was, which is the frame
      after the copied one unless the copied frame was the last. */
  lemma DeleteAfterCopy<T>(s: Frames<T>, dup: T, blank: T)
    requires Valid(s)
    requires dup !in s.list
    ensures var r := Delete(Copy(s, dup), blank);
            r.list == s.list &&
            r.index == (if More(s) then s.index + 1 else s.index)
  {
  }

  /** `prev` right after `next` is back at the same frame, drawing into it;
      the frame `next` may have appended stays in the list. */
  lemma PrevAfterNext<T>(s: Frames<T>, blank: T)
    requires Valid(s)
    requires s.index + 1 == |s.list| ==> blank !in s.list
    ensures var r := Prev(Next(s, blank));
            r.index == s.index && r.target == s.list[s.index] &&
            (r.list == s.list || r.list == s.list + [blank])
  {
  }

  /** `next` right after a `prev` that moved returns to the same frame,
      without growing the list. */
  lemma NextAfterPrev<T>(s: Frames<T>, blank: T)
    requires Valid(s)
    requires s.index > 0
    ensures Next(Prev(s), blank) == Attach(s)
  {
  }

  /** `delete` drops the deleted frame: it is neither in the list nor the
      drawing target any more. */
  lemma DeleteDropsCurrent<T>(s: Frames<T>, blank: T)
    requires Valid(s)
    requires blank != s.list[s.index]
    ensures var r := Delete(s, blank);
            s.list[s.index] !in r.list && r.target != s.list[s.index]
  {
  }

  /** `delete` keeps every other frame: the multiset of frames loses the
      deleted one, and gains the blank one when the list had one frame. */
  lemma DeleteKeepsOthers<T>(s: Frames<T>, blank: T)
    requires Valid(s)
    ensures multiset(Delete(s, blank).list) + multiset{s.list[s.index]} ==
              if |s.list| == 1 then multiset{s.list[s.index], blank} else multiset(s.list)
  {
    if |s.list| > 1 {
      RemoveAtMultiset(s.list, s.index);
    }
  }

  /** Taking out the element at `i` takes exactly it out of the multiset. */
  lemma RemoveAtMultiset<T>(s: seq<T>, i: int)
    requires 0 <= i < |s|
    ensures multiset(RemoveAt(s, i)) + multiset{s[i]} == multiset(s)
  {
    assert s == s[..i] + [s[i]] + s[i + 1..];
  }

  /** `copy` keeps the order of the other frames: those up to the copied
      one stay in place, and those after it move up by one behind the copy. */
  lemma CopyKeepsOrder<T>(s: Frames<T>, dup: T)
    requires Valid(s)
    requires dup !in s.list
    ensures var r := Copy(s, dup);
            r.list[..r.index] == s.list[..r.index] &&
            r.list[r.index + 1..] == s.list[r.index..]
  {
  }

  /** After `copy` the frames other than the copy are the old frames: the
      list grew by exactly the copy. */
  lemma CopyAddsOnlyDup<T>(s: Frames<T>, dup: T)
    requires Valid(s)
    requires dup !in s.list
    ensures multiset(Copy(s, dup).list) == multiset(s.list) + multiset{dup}
  {
    var i := s.index + 1;
    assert s.list == s.list[..i] + s.list[i..];
    assert Copy(s, dup).list == s.list[..i] + [dup] + s.list[i..];
  }
}
