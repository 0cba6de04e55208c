/** Which footage a pinch keeps under the fingers: a reported change zooms about where the fingers'
    midpoint now is and then pans by how far it travelled. */
module PinchZooming {
  import opened Options
  import opened PinchGestures
  import opened TimelineViews

  predicate OnTrack(track: Track, clientX: real) {
    track.left <= clientX <= track.left + track.width
  }

  /** How much time some pixels of the track span. */
  ghost function SpanOf(track: Track, pixels: real, duration: real): real
    requires track.width > 0.0
  {
    Part(Ratio(pixels, track.width), duration)
  }

  /** How far the edges of the bounds push a window that asks for this start. */
  ghost function Push(startTime: real, duration: real, bounds: TimelineView): real
    requires duration <= bounds.Duration()
  {
    Clamp(startTime, bounds.startTime, bounds.endTime - duration) - startTime
  }

  lemma PushesUnlessFits(startTime: real, duration: real, bounds: TimelineView)
    requires duration <= bounds.Duration()
    ensures Push(startTime, duration, bounds) == 0.0 <==> StartFits(startTime, duration, bounds)
  {
  }

  ghost function AnchorTime(view: TimelineView, track: Track, delta: PinchDelta): real
    requires track.width > 0.0
  {
    TimeAtClientX(view, track, delta.anchorClientX)
  }

  /** The window between a pinch's zoom and its pan. */
  ghost function PinchZoomed(view: TimelineView, bounds: TimelineView, track: Track, delta: PinchDelta): TimelineView
    requires view.Duration() > 0.0 && bounds.Duration() > 0.0 && track.width > 0.0
  {
    ZoomView(view, bounds, delta.scale, AnchorTime(view, track, delta))
  }

  /** Where the pan would start if the bounds did not stop it. */
  ghost function PannedStart(view: TimelineView, bounds: TimelineView, track: Track, delta: PinchDelta): real
    requires view.Duration() > 0.0 && bounds.Duration() > 0.0 && track.width > 0.0
  {
    var zoomed := PinchZoomed(view, bounds, track, delta);
    zoomed.startTime + PanSeconds(zoomed, track, delta.panPixels)
  }

  /** What the edges add to the zoom and to the pan. */
  ghost function EdgePush(view: TimelineView, bounds: TimelineView, track: Track, delta: PinchDelta): real
    requires IsWindow(view, bounds) && track.width > 0.0
  {
    var anchor := AnchorTime(view, track, delta);
    var duration := ZoomedDuration(view, bounds, delta.scale);
    Push(ZoomStart(view, bounds, delta.scale, anchor), duration, bounds)
    + Push(PannedStart(view, bounds, track, delta), duration, bounds)
  }

  lemma SpanSum(track: Track, a: real, b: real, duration: real)
    requires track.width > 0.0
    ensures SpanOf(track, a + b, duration) == SpanOf(track, a, duration) + SpanOf(track, b, duration)
    ensures SpanOf(track, -a, duration) == -SpanOf(track, a, duration)
  {
    RatioSum(a, b, track.width);
    PartSum(Ratio(a, track.width), Ratio(b, track.width), duration);
    NegatedSpan(track, a, duration);
  }

  lemma NegatedSpan(track: Track, a: real, duration: real)
    requires track.width > 0.0
    ensures SpanOf(track, -a, duration) == -SpanOf(track, a, duration)
  {
    RatioSum(a, -a, track.width);
    PartSum(Ratio(a, track.width), Ratio(-a, track.width), duration);
    assert a + -a == 0.0;
    RatioOfPart(0.0, track.width);
  }

  lemma TimeOn(view: TimelineView, track: Track, clientX: real)
    requires track.width > 0.0 && OnTrack(track, clientX)
    ensures TrackFraction(track, clientX) == Ratio(clientX - track.left, track.width)
    ensures TimeAtClientX(view, track, clientX) == view.startTime + SpanOf(track, clientX - track.left, view.Duration())
  {
    RatioBetween(clientX - track.left, track.width);
  }

  /** Where a pinch's zoom asks to start. */
  lemma PinchZoomStart(view: TimelineView, bounds: TimelineView, track: Track, delta: PinchDelta)
    requires IsWindow(view, bounds) && track.width > 0.0 && OnTrack(track, delta.anchorClientX)
    ensures var duration := ZoomedDuration(view, bounds, delta.scale);
      ZoomStart(view, bounds, delta.scale, AnchorTime(view, track, delta))
      == view.startTime + SpanOf(track, delta.anchorClientX - track.left, view.Duration())
                        - SpanOf(track, delta.anchorClientX - track.left, duration)
  {
    TimeOn(view, track, delta.anchorClientX);
    PointerInView(view, track, delta.anchorClientX);
  }

  /** Where the window of a pinch starts in the end. */
  lemma PinchedWindow(view: TimelineView, bounds: TimelineView, track: Track, delta: PinchDelta)
    requires IsWindow(view, bounds) && track.width > 0.0 && OnTrack(track, delta.anchorClientX)
    ensures var duration := ZoomedDuration(view, bounds, delta.scale);
      var pinched := AfterPinch(bounds, view, Some(track), delta);
      && pinched.Duration() == duration
      && pinched.startTime
         == view.startTime + SpanOf(track, delta.anchorClientX - track.left, view.Duration())
            - SpanOf(track, delta.anchorClientX - track.left, duration)
            - SpanOf(track, delta.panPixels, duration)
            + EdgePush(view, bounds, track, delta)
  {
    var zoomed := PinchZoomed(view, bounds, track, delta);
    ZoomKeepsWindow(view, bounds, delta.scale, AnchorTime(view, track, delta));
    PinchZoomStart(view, bounds, track, delta);
    NegatedSpan(track, delta.panPixels, zoomed.Duration());
  }

  /** How far a pinch moves the footage under a finger that goes from one place on the track to
      another: by the difference of what its distance from the midpoint spans after and before, by
      what the midpoint's travel spans of the change of duration, and by what the edges add. */
  lemma PinchDrift(view: TimelineView, bounds: TimelineView, track: Track, delta: PinchDelta, from: real, to: real)
    requires IsWindow(view, bounds) && track.width > 0.0 && OnTrack(track, delta.anchorClientX)
    requires OnTrack(track, from) && OnTrack(track, to)
    ensures var duration := ZoomedDuration(view, bounds, delta.scale);
      TimeAtClientX(AfterPinch(bounds, view, Some(track), delta), track, to) - TimeAtClientX(view, track, from)
      == SpanOf(track, to - delta.anchorClientX, duration)
         - SpanOf(track, from - (delta.anchorClientX - delta.panPixels), view.Duration())
         + SpanOf(track, delta.panPixels, view.Duration()) - SpanOf(track, delta.panPixels, duration)
         + EdgePush(view, bounds, track, delta)
  {
    var duration, anchor, pan := ZoomedDuration(view, bounds, delta.scale), delta.anchorClientX, delta.panPixels;
    PinchedWindow(view, bounds, track, delta);
    TimeOn(AfterPinch(bounds, view, Some(track), delta), track, to);
    TimeOn(view, track, from);
    SpanSum(track, to - anchor, anchor - track.left, duration);
    SpanSum(track, from - (anchor - pan), anchor - track.left, view.Duration());
    SpanSum(track, from - track.left, pan, view.Duration());
    assert to - anchor + (anchor - track.left) == to - track.left;
    assert from - (anchor - pan) + (anchor - track.left) == from - track.left + pan;
  }

  /** A zoom keeps the duration exactly when it does not scale, or a limit is already reached. */
  lemma ZoomKeepsDuration(view: TimelineView, bounds: TimelineView, scale: real)
    requires IsWindow(view, bounds)
    ensures ZoomedDuration(view, bounds, scale) == view.Duration() <==> KeepsDuration(view, bounds, scale)
  {
    ScaleCompares(scale, view.Duration());
  }

  lemma ScaleCompares(scale: real, duration: real)
    requires duration > 0.0
    ensures scale < 1.0 ==> Part(scale, duration) < duration
    ensures scale > 1.0 ==> Part(scale, duration) > duration
  {
    PartCompare(scale, 1.0, duration);
    PartCompare(1.0, scale, duration);
  }

  predicate KeepsDuration(view: TimelineView, bounds: TimelineView, scale: real) {
    || scale == 1.0
    || (scale > 1.0 && view.Duration() == bounds.Duration())
    || (scale < 1.0 && view.Duration() == Shortest(bounds))
  }

  /** Neither the zoom nor the pan runs into an edge of the bounds. */
  predicate PinchFits(view: TimelineView, bounds: TimelineView, track: Track, delta: PinchDelta)
    requires view.Duration() > 0.0 && bounds.Duration() > 0.0 && track.width > 0.0
  {
    && ZoomFits(view, bounds, delta.scale, TimeAtClientX(view, track, delta.anchorClientX))
    && var zoomed := ZoomView(view, bounds, delta.scale, TimeAtClientX(view, track, delta.anchorClientX));
       StartFits(zoomed.startTime + PanSeconds(zoomed, track, delta.panPixels), zoomed.Duration(), bounds)
  }

  lemma FittingPinch(view: TimelineView, bounds: TimelineView, track: Track, delta: PinchDelta)
    requires IsWindow(view, bounds) && track.width > 0.0 && PinchFits(view, bounds, track, delta)
    ensures EdgePush(view, bounds, track, delta) == 0.0
  {
    var anchor, duration := AnchorTime(view, track, delta), ZoomedDuration(view, bounds, delta.scale);
    assert PinchZoomed(view, bounds, track, delta).Duration() == duration;
    PushesUnlessFits(ZoomStart(view, bounds, delta.scale, anchor), duration, bounds);
    PushesUnlessFits(PannedStart(view, bounds, track, delta), duration, bounds);
  }

  /** The midpoint's travel spans as much before as after exactly when it is none or the duration is
      kept. */
  lemma SameSpan(track: Track, pixels: real, x: real, y: real)
    requires track.width > 0.0
    ensures SpanOf(track, pixels, x) == SpanOf(track, pixels, y) <==> pixels == 0.0 || x == y
  {
    var ratio := Ratio(pixels, track.width);
    PartOfRatio(pixels, track.width);
    if SpanOf(track, pixels, x) == SpanOf(track, pixels, y) {
      assert ratio * (x - y) == 0.0;
      NoProduct(ratio, x - y);
    }
  }

  lemma NoProduct(a: real, b: real)
    requires a * b == 0.0
    ensures a == 0.0 || b == 0.0
  {
  }

  /** Away from the edges a pinch keeps the footage under the fingers' midpoint exactly when the
      midpoint does not move or the zoom keeps the duration. */
  lemma PinchKeepsMidpoint(view: TimelineView, bounds: TimelineView, track: Track, delta: PinchDelta)
    requires IsWindow(view, bounds) && track.width > 0.0 && PinchFits(view, bounds, track, delta)
    requires OnTrack(track, delta.anchorClientX) && OnTrack(track, delta.anchorClientX - delta.panPixels)
    ensures TimeAtClientX(AfterPinch(bounds, view, Some(track), delta), track, delta.anchorClientX)
            == TimeAtClientX(view, track, delta.anchorClientX - delta.panPixels)
       <==> delta.panPixels == 0.0 || KeepsDuration(view, bounds, delta.scale)
  {
    var anchor, duration := delta.anchorClientX, ZoomedDuration(view, bounds, delta.scale);
    PinchDrift(view, bounds, track, delta, anchor - delta.panPixels, anchor);
    FittingPinch(view, bounds, track, delta);
    NegatedSpan(track, 0.0, duration);
    NegatedSpan(track, 0.0, view.Duration());
    SameSpan(track, delta.panPixels, view.Duration(), duration);
    ZoomKeepsDuration(view, bounds, delta.scale);
  }

  // ----- What the fingers keep

  ghost predicate FingersOnTrack(track: Track, fingers: PinchGesture)
    requires fingers.first.Some? && fingers.second.Some?
  {
    OnTrack(track, fingers.first.value.clientX) && OnTrack(track, fingers.second.value.clientX)
  }

  /** The footage under a finger before a move is under it afterwards. */
  predicate Follows(before: TimelineView, after: TimelineView, track: Track,
                    from: Option<TrackedFinger>, to: Option<TrackedFinger>)
    requires track.width > 0.0 && from.Some? && to.Some?
  {
    TimeAtClientX(after, track, to.value.clientX) == TimeAtClientX(before, track, from.value.clientX)
  }

  /** A reported change, in terms of the distance between the fingers and how far their midpoint
      went. */
  lemma ReportedChange(fingers: PinchGesture, pointerId: int, clientX: real)
    requires Distinct(fingers) && Slide(fingers, pointerId, clientX).1.Some?
    ensures var (moved, delta) := Slide(fingers, pointerId, clientX);
      && fingers.first.Some? && fingers.second.Some? && moved.first.Some? && moved.second.Some?
      && delta.value.anchorClientX == Midpoint(moved)
      && delta.value.anchorClientX - delta.value.panPixels == Midpoint(fingers)
      && (delta.value.panPixels == 0.0 <==> moved == fingers)
      && (moved == fingers ==> delta.value.scale == 1.0)
  {
  }

  lemma MidpointOnTrack(track: Track, fingers: PinchGesture)
    requires fingers.first.Some? && fingers.second.Some? && FingersOnTrack(track, fingers)
    ensures OnTrack(track, Midpoint(fingers))
    ensures fingers.first.value.clientX - Midpoint(fingers) == Apart(fingers) / 2.0
    ensures fingers.second.value.clientX - Midpoint(fingers) == -(Apart(fingers) / 2.0)
  {
  }

  ghost function Apart(fingers: PinchGesture): real
    requires fingers.first.Some? && fingers.second.Some?
  {
    fingers.first.value.clientX - fingers.second.value.clientX
  }

  /** Away from the edges, at any duration limit, a move of a pinching finger keeps the footage under
      both fingers exactly when it goes nowhere. */
  lemma PinchKeepsFingers(view: TimelineView, bounds: TimelineView, track: Track,
                          fingers: PinchGesture, pointerId: int, clientX: real)
    requires IsWindow(view, bounds) && track.width > 0.0
    requires Distinct(fingers) && Slide(fingers, pointerId, clientX).1.Some?
    requires FingersOnTrack(track, fingers) && OnTrack(track, clientX)
    requires PinchFits(view, bounds, track, Slide(fingers, pointerId, clientX).1.value)
    ensures var (moved, delta) := Slide(fingers, pointerId, clientX);
      var pinched := AfterPinch(bounds, view, Some(track), delta.value);
      Follows(view, pinched, track, fingers.first, moved.first)
      && Follows(view, pinched, track, fingers.second, moved.second)
      <==> moved == fingers
  {
    var (moved, report) := Slide(fingers, pointerId, clientX);
    var delta := report.value;
    var duration := ZoomedDuration(view, bounds, delta.scale);
    ReportedChange(fingers, pointerId, clientX);
    MidpointOnTrack(track, fingers);
    MidpointOnTrack(track, moved);
    FittingPinch(view, bounds, track, delta);
    PinchDrift(view, bounds, track, delta, fingers.first.value.clientX, moved.first.value.clientX);
    PinchDrift(view, bounds, track, delta, fingers.second.value.clientX, moved.second.value.clientX);
    NegatedSpan(track, Apart(moved) / 2.0, duration);
    NegatedSpan(track, Apart(fingers) / 2.0, view.Duration());
    SameSpan(track, delta.panPixels, view.Duration(), duration);
    ZoomKeepsDuration(view, bounds, delta.scale);
    if duration == view.Duration() {
      SameDistance(track, Apart(moved) / 2.0, Apart(fingers) / 2.0, duration);
    }
  }

  lemma SameDistance(track: Track, x: real, y: real, duration: real)
    requires track.width > 0.0 && duration > 0.0
    ensures SpanOf(track, x, duration) == SpanOf(track, y, duration) <==> x == y
  {
    SpanSum(track, x - y, y, duration);
    SameSpan(track, x - y, duration, 0.0);
    assert x - y + y == x;
  }

  /** The moved finger stays on its side of the other. */
  predicate SameSides(fingers: PinchGesture, moved: PinchGesture)
    requires fingers.first.Some? && fingers.second.Some? && moved.first.Some? && moved.second.Some?
  {
    fingers.first.value.clientX < fingers.second.value.clientX <==>
    moved.first.value.clientX < moved.second.value.clientX
  }

  /** Scaling the duration by how the fingers' distance shrank makes that distance span the same. */
  lemma DistanceSpansSame(track: Track, fingers: PinchGesture, pointerId: int, clientX: real, duration: real)
    requires track.width > 0.0
    requires Distinct(fingers) && Slide(fingers, pointerId, clientX).1.Some?
    requires SameSides(fingers, Slide(fingers, pointerId, clientX).0)
    ensures var (moved, delta) := Slide(fingers, pointerId, clientX);
      SpanOf(track, Apart(moved) / 2.0, Part(delta.value.scale, duration))
      == SpanOf(track, Apart(fingers) / 2.0, duration)
  {
    var (moved, delta) := Slide(fingers, pointerId, clientX);
    ScaledApart(fingers, pointerId, clientX);
    ScaledSpan(track, Apart(moved) / 2.0, Apart(fingers) / 2.0, delta.value.scale, duration);
  }

  lemma ScaledApart(fingers: PinchGesture, pointerId: int, clientX: real)
    requires Distinct(fingers) && Slide(fingers, pointerId, clientX).1.Some?
    requires SameSides(fingers, Slide(fingers, pointerId, clientX).0)
    ensures var (moved, delta) := Slide(fingers, pointerId, clientX);
      Part(delta.value.scale, Apart(moved) / 2.0) == Apart(fingers) / 2.0
  {
    var (moved, delta) := Slide(fingers, pointerId, clientX);
    PartOfRatio(Span(fingers), Span(moved));
    assert delta.value.scale == Ratio(Span(fingers), Span(moved));
    HalfPart(delta.value.scale, Span(moved));
  }

  lemma HalfPart(scale: real, x: real)
    ensures Part(scale, x / 2.0) == Part(scale, x) / 2.0
    ensures Part(scale, -x / 2.0) == -(Part(scale, x) / 2.0)
  {
  }

  lemma ScaledSpan(track: Track, x: real, y: real, scale: real, duration: real)
    requires track.width > 0.0 && Part(scale, x) == y
    ensures SpanOf(track, x, Part(scale, duration)) == SpanOf(track, y, duration)
  {
    var p, q := Ratio(x, track.width), Ratio(y, track.width);
    PartOfRatio(x, track.width);
    PartOfRatio(y, track.width);
    assert p * track.width == x && q * track.width == y;
    ThreeProduct(scale, p, track.width);
    assert (scale * p) * track.width == q * track.width;
    CancelWidth(scale * p, q, track.width);
    ThreeProduct(scale, p, duration);
  }

  lemma ThreeProduct(a: real, b: real, c: real)
    ensures (a * b) * c == a * (b * c) == b * (a * c)
  {
  }

  lemma CancelWidth(a: real, b: real, width: real)
    requires width > 0.0 && a * width == b * width
    ensures a == b
  {
    assert (a - b) * width == 0.0;
    NoProduct(a - b, width);
  }

  /** Away from the edges and short of the duration limits, when the fingers do not cross, neither
      finger keeps its footage unless the move goes nowhere. */
  lemma PinchMovesEachFinger(view: TimelineView, bounds: TimelineView, track: Track,
                             fingers: PinchGesture, pointerId: int, clientX: real)
    requires IsWindow(view, bounds) && track.width > 0.0
    requires Distinct(fingers) && Slide(fingers, pointerId, clientX).1.Some?
    requires FingersOnTrack(track, fingers) && OnTrack(track, clientX)
    requires PinchFits(view, bounds, track, Slide(fingers, pointerId, clientX).1.value)
    requires SameSides(fingers, Slide(fingers, pointerId, clientX).0)
    requires var wanted := WantedDuration(view, Slide(fingers, pointerId, clientX).1.value.scale);
      Shortest(bounds) <= wanted <= bounds.Duration()
    ensures var (moved, delta) := Slide(fingers, pointerId, clientX);
      var pinched := AfterPinch(bounds, view, Some(track), delta.value);
      && (Follows(view, pinched, track, fingers.first, moved.first) <==> moved == fingers)
      && (Follows(view, pinched, track, fingers.second, moved.second) <==> moved == fingers)
  {
    var (moved, report) := Slide(fingers, pointerId, clientX);
    var delta := report.value;
    var duration := ZoomedDuration(view, bounds, delta.scale);
    ReportedChange(fingers, pointerId, clientX);
    MidpointOnTrack(track, fingers);
    MidpointOnTrack(track, moved);
    FittingPinch(view, bounds, track, delta);
    PinchDrift(view, bounds, track, delta, fingers.first.value.clientX, moved.first.value.clientX);
    PinchDrift(view, bounds, track, delta, fingers.second.value.clientX, moved.second.value.clientX);
    NegatedSpan(track, Apart(moved) / 2.0, duration);
    NegatedSpan(track, Apart(fingers) / 2.0, view.Duration());
    DistanceSpansSame(track, fingers, pointerId, clientX, view.Duration());
    SameSpan(track, delta.panPixels, view.Duration(), duration);
    OnlyStillKeepsScale(fingers, pointerId, clientX);
    ScaleCompares(delta.scale, view.Duration());
  }

  lemma OnlyStillKeepsScale(fingers: PinchGesture, pointerId: int, clientX: real)
    requires Distinct(fingers) && Slide(fingers, pointerId, clientX).1.Some?
    requires SameSides(fingers, Slide(fingers, pointerId, clientX).0)
    ensures var (moved, delta) := Slide(fingers, pointerId, clientX);
      delta.value.scale == 1.0 <==> moved == fingers
  {
    ScaledApart(fingers, pointerId, clientX);
  }

  // ----- A pinch in the middle of the selection

  const MIDDLE := TimelineView(400.0, 600.0)
  const TWO_FINGERS := PinchGesture(Some(TrackedFinger(1, 100.0)), Some(TrackedFinger(2, 200.0)))
  const SPREAD := PinchGesture(Some(TrackedFinger(1, 100.0)), Some(TrackedFinger(2, 300.0)))
  const SPREADING := PinchDelta(0.5, 50.0, 200.0)
  const EVENTS := [Down(1, 100.0), Down(2, 200.0), Moved(2, 300.0)]

  /** Two fingers spread far from the edges: the footage under the resting finger, the moving one and
      the midpoint all moves by ten seconds. */
  lemma PinchMovesFootage()
    ensures FingersAfter(EVENTS, 2) == TWO_FINGERS && Slide(TWO_FINGERS, 2, 300.0) == (SPREAD, Some(SPREADING))
    ensures Reported(EVENTS, 2) == Some(SPREADING)
    ensures FingersOnTrack(TRACK, TWO_FINGERS) && FingersOnTrack(TRACK, SPREAD)
    ensures IsWindow(MIDDLE, WHOLE) && PinchFits(MIDDLE, WHOLE, TRACK, SPREADING)
    ensures var pinched := AfterPinch(WHOLE, MIDDLE, Some(TRACK), SPREADING);
      && pinched == TimelineView(430.0, 530.0)
      && TimeAtClientX(MIDDLE, TRACK, 100.0) == 440.0 && TimeAtClientX(pinched, TRACK, 100.0) == 450.0
      && TimeAtClientX(MIDDLE, TRACK, 200.0) == 480.0 && TimeAtClientX(pinched, TRACK, 300.0) == 490.0
      && TimeAtClientX(MIDDLE, TRACK, 150.0) == 460.0 && TimeAtClientX(pinched, TRACK, 200.0) == 470.0
  {
    SpreadReported();
    SpreadFits();
    MiddleFootage();
    PinchedFootage();
  }

  lemma SpreadReported()
    ensures FingersAfter(EVENTS, 2) == TWO_FINGERS && Slide(TWO_FINGERS, 2, 300.0) == (SPREAD, Some(SPREADING))
  {
    assert FingersAfter(EVENTS, 1) == PinchGesture(Some(TrackedFinger(1, 100.0)), None);
  }

  lemma SpreadFits()
    ensures IsWindow(MIDDLE, WHOLE) && PinchFits(MIDDLE, WHOLE, TRACK, SPREADING)
    ensures AfterPinch(WHOLE, MIDDLE, Some(TRACK), SPREADING) == TimelineView(430.0, 530.0)
  {
    MiddleFootage();
    SpreadZooms();
    assert Ratio(-50.0, 500.0) == -0.1 && Part(-0.1, 100.0) == -10.0;
    assert PanSeconds(TimelineView(440.0, 540.0), TRACK, 50.0) == -10.0;
  }

  lemma SpreadZooms()
    ensures ZoomFits(MIDDLE, WHOLE, 0.5, 480.0)
    ensures ZoomView(MIDDLE, WHOLE, 0.5, 480.0) == TimelineView(440.0, 540.0)
  {
    assert Ratio(480.0 - 400.0, 200.0) == 0.4 && MIDDLE.FractionOf(480.0) == 0.4;
    assert Part(0.5, 200.0) == 100.0 && Part(0.4, 100.0) == 40.0;
    assert ZoomedDuration(MIDDLE, WHOLE, 0.5) == 100.0;
    assert ZoomStart(MIDDLE, WHOLE, 0.5, 480.0) == 440.0;
  }

  lemma MiddleFootage()
    ensures TimeAtClientX(MIDDLE, TRACK, 100.0) == 440.0
    ensures TimeAtClientX(MIDDLE, TRACK, 150.0) == 460.0
    ensures TimeAtClientX(MIDDLE, TRACK, 200.0) == 480.0
  {
    FootageAt(MIDDLE, 100.0, 0.2);
    FootageAt(MIDDLE, 150.0, 0.3);
    FootageAt(MIDDLE, 200.0, 0.4);
  }

  lemma PinchedFootage()
    ensures TimeAtClientX(TimelineView(430.0, 530.0), TRACK, 100.0) == 450.0
    ensures TimeAtClientX(TimelineView(430.0, 530.0), TRACK, 200.0) == 470.0
    ensures TimeAtClientX(TimelineView(430.0, 530.0), TRACK, 300.0) == 490.0
  {
    FootageAt(TimelineView(430.0, 530.0), 100.0, 0.2);
    FootageAt(TimelineView(430.0, 530.0), 200.0, 0.4);
    FootageAt(TimelineView(430.0, 530.0), 300.0, 0.6);
  }

  lemma FootageAt(view: TimelineView, clientX: real, fraction: real)
    requires 0.0 <= clientX <= 500.0 && clientX == fraction * 500.0
    ensures TimeAtClientX(view, TRACK, clientX) == fraction * view.Duration() + view.startTime
  {
    RatioOfPart(fraction, 500.0);
    RatioBetween(clientX - 0.0, 500.0);
  }
}
