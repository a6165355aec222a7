/** The stroke path of `MosaicView.onTouchEvent`: pointer-down starts a new
    sub-path, pointer-move extends it, and the path only ever grows. */
module StrokePath {

  /** `MotionEvent.ACTION_DOWN` and `MotionEvent.ACTION_MOVE`; every other
      action code (up, cancel, pointer events with index bits) is ignored. */
  const ActionDown: int := 0
  const ActionMove: int := 2

  /** The parts of a `MotionEvent` the widget reads: `getAction()`, `getX()`, `getY()`.
      The float coordinates are taken as exact reals. */
  datatype MotionEvent = MotionEvent(action: int, x: real, y: real)

  /** One command of an `android.graphics.Path`. */
  datatype PathOp = MoveTo(x: real, y: real) | LineTo(x: real, y: real)

  /** The commands one event appends to the path. */
  function Recorded(event: MotionEvent): (ops: seq<PathOp>)
    ensures |ops| <= 1
    ensures ops == [MoveTo(event.x, event.y)] <==> event.action == ActionDown
    ensures ops == [LineTo(event.x, event.y)] <==> event.action == ActionMove
    ensures ops == [] <==> event.action != ActionDown && event.action != ActionMove
  {
    if event.action == ActionDown then [MoveTo(event.x, event.y)]
    else if event.action == ActionMove then [LineTo(event.x, event.y)]
    else []
  }

  /** The path a fresh widget holds after it has received `events`, in order.
      Each event adds at most one command, so the path is never longer than
      the event history. */
  function PathOf(events: seq<MotionEvent>): (path: seq<PathOp>)
    ensures |path| <= |events|
  {
    if events == [] then []
    else PathOf(events[..|events| - 1]) + Recorded(events[|events| - 1])
  }

  /** Handling one more event appends what it records. */
  lemma PathOfSnoc(events: seq<MotionEvent>, event: MotionEvent)
    ensures PathOf(events + [event]) == PathOf(events) + Recorded(event)
  {
    assert (events + [event])[..|events|] == events;
  }

  /** Handling two runs of events one after the other appends their paths. */
  lemma {:induction false} PathOfConcat(first: seq<MotionEvent>, second: seq<MotionEvent>)
    ensures PathOf(first + second) == PathOf(first) + PathOf(second)
  {
    if second != [] {
      var all, last := first + second, |second| - 1;
      assert all[..|all| - 1] == first + second[..last];
      PathOfConcat(first, second[..last]);
    } else {
      assert first + second == first;
    }
  }

  /** The path is never cleared or rewritten: what it held before later
      events is a prefix of what it holds after them. */
  lemma PathOnlyGrows(first: seq<MotionEvent>, later: seq<MotionEvent>)
    ensures var before, after := PathOf(first), PathOf(first + later);
      |before| <= |after| && after[..|before|] == before
  {
    PathOfConcat(first, later);
  }

  /** Each event adds at most one command, so the path is never longer than
      the event history; it is exactly as long when every event was a
      pointer-down or pointer-move. */
  lemma {:induction false} PathLength(events: seq<MotionEvent>)
    ensures |PathOf(events)| <= |events|
    ensures (forall i :: 0 <= i < |events| ==> events[i].action in {ActionDown, ActionMove})
        ==> |PathOf(events)| == |events|
  {
    if events != [] {
      var prefix := events[..|events| - 1];
      PathLength(prefix);
      assert forall i :: 0 <= i < |prefix| ==> prefix[i] == events[i];
    }
  }

  /** Two strokes, (1,1)-(2,2) and (5,5)-(6,6), separated by a pointer-up,
      give two disjoint sub-paths in the order they were drawn. */
  lemma TwoStrokes()
    ensures PathOf([MotionEvent(ActionDown, 1.0, 1.0), MotionEvent(ActionMove, 2.0, 2.0),
                    MotionEvent(1, 2.0, 2.0),
                    MotionEvent(ActionDown, 5.0, 5.0), MotionEvent(ActionMove, 6.0, 6.0)])
      == [MoveTo(1.0, 1.0), LineTo(2.0, 2.0), MoveTo(5.0, 5.0), LineTo(6.0, 6.0)]
  {
    var events := [MotionEvent(ActionDown, 1.0, 1.0), MotionEvent(ActionMove, 2.0, 2.0),
                   MotionEvent(1, 2.0, 2.0),
                   MotionEvent(ActionDown, 5.0, 5.0), MotionEvent(ActionMove, 6.0, 6.0)];
    assert events[..1][..0] == [];
    assert events[..2][..1] == events[..1];
    assert events[..3][..2] == events[..2];
    assert events[..4][..3] == events[..3];
    assert events[..4] == events[..|events| - 1];
    assert PathOf(events[..1]) == [MoveTo(1.0, 1.0)];
    assert PathOf(events[..2]) == [MoveTo(1.0, 1.0), LineTo(2.0, 2.0)];
    assert PathOf(events[..3]) == PathOf(events[..2]);
    assert PathOf(events[..4]) == PathOf(events[..3]) + [MoveTo(5.0, 5.0)];
  }
}
