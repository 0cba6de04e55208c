/** The two fingers of a pinch on the recording timeline, and what their movements report. Pixels,
    `f64`, are read as `real`. */
module PinchGestures {
  import opened Options

  datatype TrackedFinger = TrackedFinger(pointerId: int, clientX: real)

  datatype PinchGesture = PinchGesture(first: Option<TrackedFinger>, second: Option<TrackedFinger>)

  const MINIMUM_PINCH_SPAN_PIXELS: real := 8.0

  datatype PinchDelta = PinchDelta(scale: real, panPixels: real, anchorClientX: real)

  predicate Holds(slot: Option<TrackedFinger>, pointerId: int) {
    slot.Some? && slot.value.pointerId == pointerId
  }

  /** Takes the first slot that is free or already the pointer's. */
  function Press(gesture: PinchGesture, pointerId: int, clientX: real): PinchGesture {
    var finger := Some(TrackedFinger(pointerId, clientX));
    if gesture.first.None? || Holds(gesture.first, pointerId) then gesture.(first := finger)
    else if gesture.second.None? || Holds(gesture.second, pointerId) then gesture.(second := finger)
    else gesture
  }

  function Release(gesture: PinchGesture, pointerId: int): PinchGesture {
    PinchGesture(if Holds(gesture.first, pointerId) then None else gesture.first,
                 if Holds(gesture.second, pointerId) then None else gesture.second)
  }

  function Span(gesture: PinchGesture): real
    requires gesture.first.Some? && gesture.second.Some?
  {
    var d := gesture.first.value.clientX - gesture.second.value.clientX;
    if d < 0.0 then -d else d
  }

  function Midpoint(gesture: PinchGesture): real
    requires gesture.first.Some? && gesture.second.Some?
  {
    (gesture.first.value.clientX + gesture.second.value.clientX) / 2.0
  }

  /** Follows a finger in its slot. With both slots taken and far enough apart, the change of the
      fingers' distance and midpoint is reported. */
  function Slide(gesture: PinchGesture, pointerId: int, clientX: real): (PinchGesture, Option<PinchDelta>) {
    if !Holds(gesture.first, pointerId) && !Holds(gesture.second, pointerId) then (gesture, None)
    else
      var moved := Press(gesture, pointerId, clientX);
      if gesture.first.None? || gesture.second.None? || moved.first.None? || moved.second.None? then (moved, None)
      else if Span(gesture) < MINIMUM_PINCH_SPAN_PIXELS || Span(moved) < MINIMUM_PINCH_SPAN_PIXELS then (moved, None)
      else (moved, Some(PinchDelta(Span(gesture) / Span(moved), Midpoint(moved) - Midpoint(gesture), Midpoint(moved))))
  }

  /** No pointer holds both slots. */
  ghost predicate Distinct(gesture: PinchGesture) {
    gesture.first.Some? && gesture.second.Some? ==> gesture.first.value.pointerId != gesture.second.value.pointerId
  }

  /** Pressing keeps the fingers distinct exactly when the first slot is not free while the pointer
      already holds the second. */
  lemma PressKeepsDistinct(gesture: PinchGesture, pointerId: int, clientX: real)
    requires Distinct(gesture)
    ensures Distinct(Press(gesture, pointerId, clientX)) <==> !(gesture.first.None? && Holds(gesture.second, pointerId))
  {
  }

  lemma ReleaseKeepsDistinct(gesture: PinchGesture, pointerId: int)
    requires Distinct(gesture)
    ensures Distinct(Release(gesture, pointerId))
  {
  }

  /** While the fingers are distinct a change is reported exactly when both are down, the one that moved
      is one of them, and they are eight pixels apart or more, before and after. */
  lemma SlideReports(gesture: PinchGesture, pointerId: int, clientX: real)
    requires Distinct(gesture)
    ensures var (moved, delta) := Slide(gesture, pointerId, clientX);
      delta.Some? <==>
      && gesture.first.Some? && gesture.second.Some?
      && (gesture.first.value.pointerId == pointerId || gesture.second.value.pointerId == pointerId)
      && EightApart(gesture.first.value.clientX, gesture.second.value.clientX)
      && (if gesture.first.value.pointerId == pointerId then EightApart(clientX, gesture.second.value.clientX)
          else EightApart(gesture.first.value.clientX, clientX))
  {
  }

  ghost predicate EightApart(a: real, b: real) {
    a <= b - 8.0 || b <= a - 8.0
  }

  /** While the fingers are distinct a reported change comes from two of them, one of which moved;
      its scale is positive. */
  lemma SlideReportsTwoFingers(gesture: PinchGesture, pointerId: int, clientX: real)
    requires Distinct(gesture)
    ensures Slide(gesture, pointerId, clientX).1.Some? ==>
              && gesture.first.Some? && gesture.second.Some?
              && (Holds(gesture.first, pointerId) <==> !Holds(gesture.second, pointerId))
              && Distinct(Slide(gesture, pointerId, clientX).0)
              && Slide(gesture, pointerId, clientX).1.value.scale > 0.0
  {
  }

  // ----- Runs of finger events

  datatype FingerEvent =
    | Down(pointerId: int, clientX: real)
    | Moved(pointerId: int, clientX: real)
    | Lifted(pointerId: int)

  function AfterEvent(gesture: PinchGesture, event: FingerEvent): PinchGesture {
    match event
    case Down(pointerId, clientX) => Press(gesture, pointerId, clientX)
    case Moved(pointerId, clientX) => Slide(gesture, pointerId, clientX).0
    case Lifted(pointerId) => Release(gesture, pointerId)
  }

  const NO_FINGERS := PinchGesture(None, None)

  /** The slots after the first `n` events, from an empty track. */
  function FingersAfter(events: seq<FingerEvent>, n: nat): PinchGesture
    requires n <= |events|
  {
    if n == 0 then NO_FINGERS else AfterEvent(FingersAfter(events, n - 1), events[n - 1])
  }

  /** What the `i`-th event reports. */
  function Reported(events: seq<FingerEvent>, i: nat): Option<PinchDelta>
    requires i < |events|
  {
    if events[i].Moved? then Slide(FingersAfter(events, i), events[i].pointerId, events[i].clientX).1 else None
  }

  /** The `i`-th event is a press or a move by the finger in the second slot while the first slot is
      free. */
  predicate TakesBothSlots(events: seq<FingerEvent>, i: nat)
    requires i < |events|
  {
    var fingers := FingersAfter(events, i);
    !events[i].Lifted? && fingers.first.None? && Holds(fingers.second, events[i].pointerId)
  }

  /** One event keeps the fingers distinct exactly when it does not take both slots. */
  lemma EventKeepsDistinct(events: seq<FingerEvent>, i: nat)
    requires i < |events| && Distinct(FingersAfter(events, i))
    ensures Distinct(FingersAfter(events, i + 1)) <==> !TakesBothSlots(events, i)
  {
    var fingers, event := FingersAfter(events, i), events[i];
    match event
    case Down(pointerId, clientX) => PressKeepsDistinct(fingers, pointerId, clientX);
    case Moved(pointerId, clientX) => PressKeepsDistinct(fingers, pointerId, clientX);
    case Lifted(pointerId) => ReleaseKeepsDistinct(fingers, pointerId);
  }

  lemma {:induction false} DistinctUntil(events: seq<FingerEvent>, n: nat)
    requires n <= |events| && forall i :: 0 <= i < n ==> !TakesBothSlots(events, i)
    ensures Distinct(FingersAfter(events, n))
  {
    if n > 0 {
      DistinctUntil(events, n - 1);
      EventKeepsDistinct(events, n - 1);
    }
  }

  ghost predicate AlwaysDistinct(events: seq<FingerEvent>) {
    forall n :: 0 <= n <= |events| ==> Distinct(FingersAfter(events, n))
  }

  ghost predicate NeverTakesBothSlots(events: seq<FingerEvent>) {
    forall i :: 0 <= i < |events| ==> !TakesBothSlots(events, i)
  }

  /** Over any run from an empty track the slots hold different fingers throughout exactly when no
      event takes both slots. */
  lemma StaysDistinct(events: seq<FingerEvent>)
    ensures AlwaysDistinct(events) <==> NeverTakesBothSlots(events)
  {
    if NeverTakesBothSlots(events) {
      forall n | 0 <= n <= |events|
        ensures Distinct(FingersAfter(events, n))
      {
        DistinctUntil(events, n);
      }
    } else {
      var i :| 0 <= i < |events| && TakesBothSlots(events, i);
      if Distinct(FingersAfter(events, i)) {
        EventKeepsDistinct(events, i);
        assert !Distinct(FingersAfter(events, i + 1));
      }
    }
  }

  /** The finger is down: it has pressed the track and not lifted since. */
  ghost predicate IsDown(events: seq<FingerEvent>, n: nat, pointerId: int)
    requires n <= |events|
  {
    exists k :: 0 <= k < n && events[k].Down? && events[k].pointerId == pointerId
             && forall l :: k < l < n ==> !(events[l].Lifted? && events[l].pointerId == pointerId)
  }

  lemma DownStays(events: seq<FingerEvent>, n: nat, pointerId: int)
    requires 0 < n <= |events| && IsDown(events, n - 1, pointerId) && events[n - 1] != Lifted(pointerId)
    ensures IsDown(events, n, pointerId)
  {
    var k :| 0 <= k < n - 1 && events[k].Down? && events[k].pointerId == pointerId
             && forall l :: k < l < n - 1 ==> !(events[l].Lifted? && events[l].pointerId == pointerId);
    assert forall l :: k < l < n ==> !(events[l].Lifted? && events[l].pointerId == pointerId);
  }

  /** Every slot holds a finger that is down. */
  lemma {:induction false} SlotsAreDown(events: seq<FingerEvent>, n: nat, pointerId: int)
    requires n <= |events|
    requires Holds(FingersAfter(events, n).first, pointerId) || Holds(FingersAfter(events, n).second, pointerId)
    ensures IsDown(events, n, pointerId)
  {
    var before, event := FingersAfter(events, n - 1), events[n - 1];
    if event.Down? && event.pointerId == pointerId {
      assert events[n - 1].Down?;
    } else {
      assert Holds(before.first, pointerId) || Holds(before.second, pointerId);
      SlotsAreDown(events, n - 1, pointerId);
      DownStays(events, n, pointerId);
    }
  }

  /** While no event takes both slots, whatever an event reports comes from two different fingers
      that are both down, one of which it moves. */
  lemma ReportsNeedTwoFingers(events: seq<FingerEvent>, i: nat)
    requires i < |events| && Reported(events, i).Some?
    requires forall k :: 0 <= k < i ==> !TakesBothSlots(events, k)
    ensures exists other :: other != events[i].pointerId
              && IsDown(events, i, events[i].pointerId) && IsDown(events, i, other)
    ensures Reported(events, i).value.scale > 0.0
  {
    var fingers := FingersAfter(events, i);
    DistinctUntil(events, i);
    SlideReportsTwoFingers(fingers, events[i].pointerId, events[i].clientX);
    var other := if Holds(fingers.first, events[i].pointerId) then fingers.second.value.pointerId
                 else fingers.first.value.pointerId;
    SlotsAreDown(events, i, events[i].pointerId);
    SlotsAreDown(events, i, other);
  }

  /** The run on which distinctness is lost: the first of two fingers lifts, the second moves on
      alone, takes the free slot as well, and its next move zooms. */
  lemma OneFingerZooms()
    ensures var events := [Down(1, 100.0), Down(2, 200.0), Lifted(1), Moved(2, 210.0), Moved(2, 230.0)];
      && TakesBothSlots(events, 3) && Reported(events, 4).Some? && Reported(events, 4).value.scale == 10.0 / 30.0
      && forall pointerId :: IsDown(events, 4, pointerId) ==> pointerId == 2
  {
    var events := [Down(1, 100.0), Down(2, 200.0), Lifted(1), Moved(2, 210.0), Moved(2, 230.0)];
    var first, second := TrackedFinger(1, 100.0), TrackedFinger(2, 200.0);
    assert FingersAfter(events, 1) == PinchGesture(Some(first), None);
    assert FingersAfter(events, 2) == PinchGesture(Some(first), Some(second));
    assert FingersAfter(events, 3) == PinchGesture(None, Some(second));
    assert FingersAfter(events, 4) == PinchGesture(Some(TrackedFinger(2, 210.0)), Some(second));
    assert events[2] == Lifted(1);
  }
}
