/** The swipe recogniser of script.js:122-145: a touch tracker fed by
    `touchstart` and `touchmove`, and the decision taken at `touchend`.
    Touch coordinates are modelled as integers.
 */
module Swipe {

  /** Horizontal distance, in pixels, a swipe must exceed. */
  const Threshold: int := 40

  /** What a finished gesture asks the slideshow for. */
  datatype Gesture = ToNext | ToPrev | NoGesture

  /** The point where the touch ended, when the event reports one. */
  datatype EndPoint = NoEndPoint | EndPoint(x: int, y: int)

  /** Where the tracked touch started, and whether a move was seen since. */
  datatype Tracker = Tracker(startX: int, startY: int, moved: bool)

  /** The tracker before any touch. */
  const Fresh: Tracker := Tracker(0, 0, false)

  function Abs(x: int): nat
  {
    if x < 0 then -x else x
  }

  /** The decision: only after a move, and only when the horizontal distance
      exceeds both the threshold and the vertical distance; a leftward swipe
      (dx < 0) asks for the next slide, a rightward one for the previous. */
  function Classify(moved: bool, dx: int, dy: nat): (g: Gesture)
    ensures g == ToNext <==> moved && dx < 0 && Abs(dx) > Threshold && Abs(dx) > dy
    ensures g == ToPrev <==> moved && dx > 0 && Abs(dx) > Threshold && Abs(dx) > dy
  {
    if !moved then NoGesture
    else if Abs(dx) > Threshold && Abs(dx) > dy then
      if dx < 0 then ToNext else ToPrev
    else NoGesture
  }

  /** `touchstart`: a single-finger touch restarts tracking; a multi-finger
      touch leaves the tracker, including its `moved` flag, as it was. */
  function Begin(t: Tracker, touches: nat, x: int, y: int): (r: Tracker)
    ensures touches == 1 ==> r.startX == x && r.startY == y && !r.moved
    ensures touches != 1 ==> r == t
  {
    if touches != 1 then t else Tracker(x, y, false)
  }

  /** `touchmove`: any move marks the gesture as moved. */
  function Move(t: Tracker): (r: Tracker)
    ensures r.moved && r.startX == t.startX && r.startY == t.startY
  {
    t.(moved := true)
  }

  /** `touchend`: without a reported end point both displacements are 0, so
      nothing is asked for. The tracker itself is left unchanged. */
  function Release(t: Tracker, end: EndPoint): (g: Gesture)
    ensures !t.moved || end == NoEndPoint ==> g == NoGesture
    ensures end.EndPoint? ==> g == Classify(t.moved, end.x - t.startX, Abs(end.y - t.startY))
  {
    if !t.moved then NoGesture
    else
      var endX := if end.EndPoint? then end.x else t.startX;
      var dy := if end.EndPoint? then Abs(end.y - t.startY) else 0;
      Classify(true, endX - t.startX, dy)
  }

  /** The opposite request. */
  function Mirror(g: Gesture): Gesture
  {
    match g
    case ToNext => ToPrev
    case ToPrev => ToNext
    case NoGesture => NoGesture
  }

  /** Reflecting a swipe horizontally reflects the request. */
  lemma ClassifyMirror(moved: bool, dx: int, dy: nat)
    ensures Classify(moved, -dx, dy) == Mirror(Classify(moved, dx, dy))
  {
  }

  /** Threshold and dominance examples: 30 px is too short, 40 px is not past
      the threshold, 50 px across and 10 px down navigates in the horizontal
      direction, and a swipe as tall as it is wide does nothing. */
  lemma ClassifyExamples()
    ensures Classify(true, 30, 0) == NoGesture && Classify(true, -30, 0) == NoGesture
    ensures Classify(true, -40, 0) == NoGesture
    ensures Classify(true, -50, 10) == ToNext && Classify(true, 50, 10) == ToPrev
    ensures Classify(true, 60, 60) == NoGesture
    ensures Classify(false, -50, 10) == NoGesture
  {
  }

  /** A full gesture: start with one finger, move, lift 50 px to the left and
      10 px lower; the slideshow is asked for the next slide. */
  lemma SwipeLeftAsksNext(x: int, y: int)
    ensures Release(Move(Begin(Fresh, 1, x, y)), EndPoint(x - 50, y + 10)) == ToNext
  {
  }

  /** A new single-finger touch that is lifted without moving asks for
      nothing, however the previous gesture ended. */
  lemma TapAsksNothing(t: Tracker, x: int, y: int, end: EndPoint)
    ensures Release(Begin(t, 1, x, y), end) == NoGesture
  {
  }
}
