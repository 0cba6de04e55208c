/** The zoomable window of the recording timeline, and the gestures that move it. Seconds and
    pixels, `f64`, are read as `real`. */
module TimelineViews {
  import opened Options
  import opened PinchGestures
  import opened Reals

  const MINIMUM_VIEW_SECONDS: real := 60.0

  function Clamp(x: real, low: real, high: real): (r: real)
    requires low <= high
    ensures low <= r <= high && (low <= x <= high ==> r == x)
  {
    if x < low then low else if x > high then high else x
  }

  /** The part of a span at a fraction of it, and the fraction a part is of a span. */
  function Part(fraction: real, span: real): real { fraction * span }

  function Ratio(part: real, span: real): real
    requires span > 0.0
  {
    part / span
  }

  /** A span of the selection. */
  datatype TimelineView = TimelineView(startTime: real, endTime: real) {
    function Duration(): real { endTime - startTime }

    /** Where a time sits across the span; times outside report the nearer edge. */
    function FractionOf(time: real): real
      requires Duration() > 0.0
    {
      Clamp(Ratio(time - startTime, Duration()), 0.0, 1.0)
    }

    predicate Contains(time: real) { startTime <= time <= endTime }
  }

  /** The shortest window zooming can produce. */
  function Shortest(bounds: TimelineView): real { Min(MINIMUM_VIEW_SECONDS, bounds.Duration()) }

  /** A window zooming and panning may show. */
  ghost predicate IsWindow(view: TimelineView, bounds: TimelineView) {
    && bounds.Duration() > 0.0
    && bounds.startTime <= view.startTime && view.endTime <= bounds.endTime
    && Shortest(bounds) <= view.Duration() <= bounds.Duration()
  }

  function PositionedView(startTime: real, duration: real, bounds: TimelineView): TimelineView
    requires duration <= bounds.Duration()
  {
    var start := Clamp(startTime, bounds.startTime, bounds.endTime - duration);
    TimelineView(start, start + duration)
  }

  /** A window of this start and duration lies inside the bounds, so no edge stops it. */
  predicate StartFits(startTime: real, duration: real, bounds: TimelineView) {
    bounds.startTime <= startTime <= bounds.endTime - duration
  }

  function ZoomedDuration(view: TimelineView, bounds: TimelineView, scale: real): real
    requires bounds.Duration() > 0.0
  {
    Clamp(Part(scale, view.Duration()), Shortest(bounds), bounds.Duration())
  }

  /** Where a zoom would start if the bounds did not stop it. */
  function ZoomStart(view: TimelineView, bounds: TimelineView, scale: real, anchorTime: real): real
    requires view.Duration() > 0.0 && bounds.Duration() > 0.0
  {
    anchorTime - Part(view.FractionOf(anchorTime), ZoomedDuration(view, bounds, scale))
  }

  /** Narrows or widens the window, keeping the anchor under the same point of the track. */
  function ZoomView(view: TimelineView, bounds: TimelineView, scale: real, anchorTime: real): TimelineView
    requires view.Duration() > 0.0 && bounds.Duration() > 0.0
  {
    PositionedView(ZoomStart(view, bounds, scale, anchorTime), ZoomedDuration(view, bounds, scale), bounds)
  }

  function PanView(view: TimelineView, bounds: TimelineView, seconds: real): TimelineView
    requires view.Duration() <= bounds.Duration()
  {
    PositionedView(view.startTime + seconds, view.Duration(), bounds)
  }

  /** The track's box on screen. */
  datatype Track = Track(left: real, width: real)

  function TrackFraction(track: Track, clientX: real): real
    requires track.width > 0.0
  {
    Clamp(Ratio(clientX - track.left, track.width), 0.0, 1.0)
  }

  function TimeAtClientX(view: TimelineView, track: Track, clientX: real): real
    requires track.width > 0.0
  {
    Part(TrackFraction(track, clientX), view.Duration()) + view.startTime
  }

  /** How far finger travel moves the window: against the fingers, so the footage follows them. */
  function PanSeconds(view: TimelineView, track: Track, panPixels: real): real
    requires track.width > 0.0
  {
    Part(Ratio(-panPixels, track.width), view.Duration())
  }

  // ----- Gestures

  class TimelineGestures {
    const bounds: TimelineView
    var view: TimelineView
    var fingers: PinchGesture

    ghost predicate Valid()
      reads this
    {
      IsWindow(view, bounds)
    }

    constructor (bounds: TimelineView)
      requires bounds.Duration() > 0.0
      ensures Valid() && view == bounds && this.bounds == bounds && fingers == NO_FINGERS
    {
      this.bounds := bounds;
      view, fingers := bounds, NO_FINGERS;
    }

    method FingerDown(pointerId: int, clientX: real)
      requires Valid()
      modifies this`fingers
      ensures Valid() && fingers == AfterEvent(old(fingers), Down(pointerId, clientX))
    {
      fingers := Press(fingers, pointerId, clientX);
    }

    method FingerLifted(pointerId: int)
      requires Valid()
      modifies this`fingers
      ensures Valid() && fingers == AfterEvent(old(fingers), Lifted(pointerId))
    {
      fingers := Release(fingers, pointerId);
    }

    /** A reported change zooms about the fingers' midpoint and then pans by its travel. */
    method FingerMoved(track: Option<Track>, pointerId: int, clientX: real)
      requires Valid()
      modifies this
      ensures Valid() && fingers == AfterEvent(old(fingers), Moved(pointerId, clientX))
      ensures match Slide(old(fingers), pointerId, clientX).1
              case None => view == old(view)
              case Some(delta) => view == AfterPinch(bounds, old(view), track, delta)
    {
      var (moved, delta) := Slide(fingers, pointerId, clientX);
      fingers := moved;
      if delta.None? {
        return;
      }
      ZoomAbout(track, delta.value.scale, delta.value.anchorClientX);
      PanBy(track, delta.value.panPixels);
    }

    /** Does nothing until the track has been laid out with some width. */
    method ZoomAbout(track: Option<Track>, scale: real, clientX: real)
      requires Valid()
      modifies this`view
      ensures Valid() && view == AfterGesture(bounds, old(view), Gesture.ZoomAbout(track, scale, clientX))
    {
      GestureKeepsWindow(bounds, view, Gesture.ZoomAbout(track, scale, clientX));
      if track.None? || track.value.width <= 0.0 {
        return;
      }
      var anchor := TimeAtClientX(view, track.value, clientX);
      view := ZoomView(view, bounds, scale, anchor);
    }

    method PanBy(track: Option<Track>, panPixels: real)
      requires Valid()
      modifies this`view
      ensures Valid() && view == AfterGesture(bounds, old(view), Gesture.PanBy(track, panPixels))
    {
      GestureKeepsWindow(bounds, view, Gesture.PanBy(track, panPixels));
      if track.None? || track.value.width <= 0.0 {
        return;
      }
      var seconds := PanSeconds(view, track.value, panPixels);
      view := PanView(view, bounds, seconds);
    }
  }

  datatype Gesture =
    | ZoomAbout(track: Option<Track>, scale: real, clientX: real)
    | PanBy(track: Option<Track>, panPixels: real)

  ghost function AfterGesture(bounds: TimelineView, view: TimelineView, gesture: Gesture): TimelineView
    requires IsWindow(view, bounds)
  {
    if gesture.track.None? || gesture.track.value.width <= 0.0 then view
    else
      match gesture
      case ZoomAbout(track, scale, clientX) => ZoomView(view, bounds, scale, TimeAtClientX(view, track.value, clientX))
      case PanBy(track, panPixels) => PanView(view, bounds, PanSeconds(view, track.value, panPixels))
  }

  ghost function AfterPinch(bounds: TimelineView, view: TimelineView, track: Option<Track>,
                            delta: PinchDelta): TimelineView
    requires IsWindow(view, bounds)
  {
    var zoom := ZoomAbout(track, delta.scale, delta.anchorClientX);
    GestureKeepsWindow(bounds, view, zoom);
    AfterGesture(bounds, AfterGesture(bounds, view, zoom), PanBy(track, delta.panPixels))
  }

  /** Zooming stays inside the bounds and between the shortest window and the whole selection; it
      leaves at least a minute exactly when the selection is that long. */
  lemma ZoomKeepsWindow(view: TimelineView, bounds: TimelineView, scale: real, anchorTime: real)
    requires IsWindow(view, bounds)
    ensures IsWindow(ZoomView(view, bounds, scale, anchorTime), bounds)
    ensures ZoomView(view, bounds, scale, anchorTime).Duration() >= 60.0 <==> bounds.Duration() >= 60.0
    ensures var wanted := scale * (view.endTime - view.startTime);
      ZoomView(view, bounds, scale, anchorTime).Duration()
      == if wanted > bounds.Duration() then bounds.Duration() else Max(wanted, Min(60.0, bounds.Duration()))
  {
  }

  /** Panning keeps the duration. */
  lemma PanKeepsWindow(view: TimelineView, bounds: TimelineView, seconds: real)
    requires IsWindow(view, bounds)
    ensures IsWindow(PanView(view, bounds, seconds), bounds)
    ensures PanView(view, bounds, seconds).Duration() == view.Duration()
  {
  }

  lemma GestureKeepsWindow(bounds: TimelineView, view: TimelineView, gesture: Gesture)
    requires IsWindow(view, bounds)
    ensures IsWindow(AfterGesture(bounds, view, gesture), bounds)
    ensures gesture.PanBy? ==> AfterGesture(bounds, view, gesture).Duration() == view.Duration()
  {
    if gesture.track.Some? && gesture.track.value.width > 0.0 {
      match gesture
      case ZoomAbout(track, scale, clientX) =>
        ZoomKeepsWindow(view, bounds, scale, TimeAtClientX(view, track.value, clientX));
      case PanBy(track, panPixels) =>
        PanKeepsWindow(view, bounds, PanSeconds(view, track.value, panPixels));
    }
  }

  /** The window after a run of gestures; a step needs a window to start from. */
  ghost function AfterGestures(bounds: TimelineView, gestures: seq<Gesture>): (view: TimelineView)
    requires bounds.Duration() > 0.0
    ensures IsWindow(view, bounds)
  {
    if gestures == [] then bounds
    else
      var before := AfterGestures(bounds, gestures[..|gestures| - 1]);
      GestureKeepsWindow(bounds, before, gestures[|gestures| - 1]);
      AfterGesture(bounds, before, gestures[|gestures| - 1])
  }

  // ----- What a zoom keeps under the pointer

  lemma PartOfRatio(part: real, span: real)
    requires span > 0.0
    ensures Part(Ratio(part, span), span) == part
  {
  }

  lemma RatioOfPart(fraction: real, span: real)
    requires span > 0.0
    ensures Ratio(Part(fraction, span), span) == fraction
  {
  }

  lemma PartBetween(fraction: real, span: real)
    requires 0.0 <= fraction <= 1.0 && span > 0.0
    ensures 0.0 <= Part(fraction, span) <= span
  {
    assert (1.0 - fraction) * span >= 0.0;
  }

  lemma ProductPositive(a: real, b: real)
    requires a > 0.0 && b > 0.0
    ensures a * b > 0.0
  {
  }

  lemma RatioBetween(part: real, span: real)
    requires span > 0.0 && 0.0 <= part <= span
    ensures 0.0 <= Ratio(part, span) <= 1.0
  {
    var q := Ratio(part, span);
    PartOfRatio(part, span);
    if q > 1.0 {
      ProductPositive(q - 1.0, span);
    } else if q < 0.0 {
      ProductPositive(-q, span);
    }
  }

  lemma PartSum(a: real, b: real, span: real)
    ensures Part(a + b, span) == Part(a, span) + Part(b, span)
  {
  }

  lemma RatioSum(a: real, b: real, span: real)
    requires span > 0.0
    ensures Ratio(a + b, span) == Ratio(a, span) + Ratio(b, span)
  {
  }

  /** A time in view is its fraction of the span past the start. */
  lemma FractionSpans(view: TimelineView, time: real)
    requires view.Duration() > 0.0 && view.Contains(time)
    ensures 0.0 <= view.FractionOf(time) <= 1.0
    ensures view.FractionOf(time) == Ratio(time - view.startTime, view.Duration())
    ensures Part(view.FractionOf(time), view.Duration()) == time - view.startTime
  {
    RatioBetween(time - view.startTime, view.Duration());
    PartOfRatio(time - view.startTime, view.Duration());
  }

  /** Across the span a fraction grows evenly from 0 to 1; outside, it is that of the nearer end. */
  lemma FractionAcross(view: TimelineView, time: real)
    requires view.Duration() > 0.0
    ensures time <= view.startTime ==> view.FractionOf(time) == 0.0
    ensures time >= view.endTime ==> view.FractionOf(time) == 1.0
    ensures view.startTime <= time <= view.endTime ==>
              Part(view.FractionOf(time), view.endTime - view.startTime) == time - view.startTime
  {
    var duration := view.Duration();
    PartOfRatio(time - view.startTime, duration);
    PartCompare(0.0, Ratio(time - view.startTime, duration), duration);
    PartCompare(Ratio(time - view.startTime, duration), 1.0, duration);
    if view.Contains(time) {
      FractionSpans(view, time);
    }
  }

  lemma FractionPlaced(view: TimelineView, fraction: real)
    requires view.Duration() > 0.0 && 0.0 <= fraction <= 1.0
    ensures view.Contains(Part(fraction, view.Duration()) + view.startTime)
    ensures view.FractionOf(Part(fraction, view.Duration()) + view.startTime) == fraction
  {
    var part := Part(fraction, view.Duration());
    PartBetween(fraction, view.Duration());
    FractionSpans(view, part + view.startTime);
    assert part + view.startTime - view.startTime == part;
    RatioOfPart(fraction, view.Duration());
  }

  /** The clamp leaves the anchor inside, `part` being how far into the window it should be. */
  lemma ClampKeepsInside(anchor: real, part: real, duration: real, bounds: TimelineView)
    requires 0.0 <= part <= duration <= bounds.Duration() && bounds.Contains(anchor)
    ensures var view := PositionedView(anchor - part, duration, bounds);
      view.Contains(anchor) && view.Duration() == duration
  {
  }

  /** A window placed to have the anchor at a fraction has it there exactly when it fits. */
  lemma PlacedAtFraction(fraction: real, duration: real, bounds: TimelineView, anchorTime: real)
    requires 0.0 <= fraction <= 1.0 && 0.0 < duration <= bounds.Duration() && bounds.Contains(anchorTime)
    ensures var placed := PositionedView(anchorTime - Part(fraction, duration), duration, bounds);
      && placed.Duration() == duration && placed.Contains(anchorTime)
      && (placed.FractionOf(anchorTime) == fraction
          <==> StartFits(anchorTime - Part(fraction, duration), duration, bounds))
  {
    var placed := PositionedView(anchorTime - Part(fraction, duration), duration, bounds);
    PartBetween(fraction, duration);
    ClampKeepsInside(anchorTime, Part(fraction, duration), duration, bounds);
    FractionSpans(placed, anchorTime);
    RatioOfPart(fraction, duration);
  }

  /** A zoom keeps an in-view anchor visible, and at the same fraction of the track exactly when
      the window it asks for lies inside the bounds. */
  lemma ZoomKeepsAnchor(view: TimelineView, bounds: TimelineView, scale: real, anchorTime: real)
    requires IsWindow(view, bounds) && view.Contains(anchorTime)
    ensures var zoomed := ZoomView(view, bounds, scale, anchorTime);
      && zoomed.Duration() == ZoomedDuration(view, bounds, scale) > 0.0 && zoomed.Contains(anchorTime)
      && (zoomed.FractionOf(anchorTime) == view.FractionOf(anchorTime) <==> ZoomFits(view, bounds, scale, anchorTime))
  {
    FractionSpans(view, anchorTime);
    PlacedAtFraction(view.FractionOf(anchorTime), ZoomedDuration(view, bounds, scale), bounds, anchorTime);
  }

  /** The window a zoom asks for lies inside the bounds. */
  predicate ZoomFits(view: TimelineView, bounds: TimelineView, scale: real, anchorTime: real)
    requires view.Duration() > 0.0 && bounds.Duration() > 0.0
  {
    StartFits(ZoomStart(view, bounds, scale, anchorTime), ZoomedDuration(view, bounds, scale), bounds)
  }

  /** The time under a pointer is in view, at the pointer's fraction of the track. */
  lemma PointerInView(view: TimelineView, track: Track, clientX: real)
    requires view.Duration() > 0.0 && track.width > 0.0
    ensures view.Contains(TimeAtClientX(view, track, clientX))
    ensures view.FractionOf(TimeAtClientX(view, track, clientX)) == TrackFraction(track, clientX)
  {
    FractionPlaced(view, TrackFraction(track, clientX));
  }

  /** Zooming about a pointer leaves the same time under it exactly when the window it asks for
      lies inside the bounds. */
  lemma ZoomUnderPointer(view: TimelineView, bounds: TimelineView, scale: real, track: Track, clientX: real)
    requires IsWindow(view, bounds) && track.width > 0.0
    ensures var anchor := TimeAtClientX(view, track, clientX);
      TimeAtClientX(ZoomView(view, bounds, scale, anchor), track, clientX) == anchor
      <==> ZoomFits(view, bounds, scale, anchor)
  {
    var anchor := TimeAtClientX(view, track, clientX);
    PointerInView(view, track, clientX);
    ZoomKeepsAnchor(view, bounds, scale, anchor);
  }

  /** A view of the first tenth of a selection, on a track of 500 pixels. */
  const WHOLE := TimelineView(0.0, 1000.0)
  const FIRST_TENTH := TimelineView(0.0, 100.0)
  const TRACK := Track(0.0, 500.0)

  /** Zooming out at the left edge moves the footage under the pointer: the window cannot start
      before the selection does. */
  lemma ZoomStopsAtEdge()
    ensures TimeAtClientX(FIRST_TENTH, TRACK, 250.0) == 50.0
    ensures ZoomView(FIRST_TENTH, WHOLE, 2.0, 50.0) == TimelineView(0.0, 200.0)
    ensures TimeAtClientX(TimelineView(0.0, 200.0), TRACK, 250.0) == 100.0
  {
    assert Ratio(250.0 - 0.0, 500.0) == 0.5 && TrackFraction(TRACK, 250.0) == 0.5;
    assert Part(0.5, 100.0) == 50.0 && Part(0.5, 200.0) == 100.0 && Part(2.0, 100.0) == 200.0;
    assert Ratio(50.0 - 0.0, 100.0) == 0.5 && FIRST_TENTH.FractionOf(50.0) == 0.5;
    assert ZoomedDuration(FIRST_TENTH, WHOLE, 2.0) == 200.0;
    assert ZoomStart(FIRST_TENTH, WHOLE, 2.0, 50.0) == -50.0;
  }

  // ----- Undoing a zoom

  lemma PartMonotone(fraction: real, x: real, y: real)
    requires 0.0 <= fraction && x <= y
    ensures Part(fraction, x) <= Part(fraction, y)
  {
    assert fraction * (y - x) >= 0.0;
  }

  lemma PartRest(fraction: real, span: real)
    ensures Part(1.0 - fraction, span) == span - Part(fraction, span)
  {
  }

  lemma PartCompare(f: real, g: real, span: real)
    requires span > 0.0
    ensures f < g <==> Part(f, span) < Part(g, span)
  {
    if f < g {
      ProductPositive(g - f, span);
    } else if g < f {
      ProductPositive(f - g, span);
    }
  }

  lemma Rescaled(duration: real, scale: real)
    requires scale > 0.0
    ensures Part(1.0 / scale, Part(scale, duration)) == duration
  {
  }

  /** A window no longer than the view, with the anchor at the view's fraction, fits. */
  lemma InwardFits(view: TimelineView, bounds: TimelineView, duration: real, anchorTime: real)
    requires IsWindow(view, bounds) && view.Contains(anchorTime) && 0.0 < duration <= view.Duration()
    ensures StartFits(anchorTime - Part(view.FractionOf(anchorTime), duration), duration, bounds)
  {
    var fraction := view.FractionOf(anchorTime);
    FractionSpans(view, anchorTime);
    PartMonotone(fraction, duration, view.Duration());
    PartMonotone(1.0 - fraction, duration, view.Duration());
    PartRest(fraction, duration);
    PartRest(fraction, view.Duration());
  }

  /** A longer one that does not fit is stopped by one edge, and the view leaves room at the other. */
  lemma OneEdgeStops(view: TimelineView, bounds: TimelineView, duration: real, anchorTime: real)
    requires IsWindow(view, bounds) && view.Contains(anchorTime) && 0.0 < duration <= bounds.Duration()
    ensures var startTime := anchorTime - Part(view.FractionOf(anchorTime), duration);
      && (startTime < bounds.startTime ==> view.endTime < bounds.endTime)
      && (startTime > bounds.endTime - duration ==> bounds.startTime < view.startTime)
  {
    var fraction := view.FractionOf(anchorTime);
    if duration <= view.Duration() {
      InwardFits(view, bounds, duration, anchorTime);
    } else {
      FractionSpans(view, anchorTime);
      PartMonotone(fraction, view.Duration(), duration);
      PartMonotone(1.0 - fraction, view.Duration(), duration);
      PartRest(fraction, duration);
      PartRest(fraction, view.Duration());
    }
  }

  lemma RestoredView(view: TimelineView, zoomed: TimelineView, bounds: TimelineView, scale: real, anchorTime: real)
    requires IsWindow(view, bounds) && view.Contains(anchorTime) && zoomed.Duration() > 0.0
    requires zoomed.FractionOf(anchorTime) == view.FractionOf(anchorTime)
    requires Part(scale, zoomed.Duration()) == view.Duration()
    ensures ZoomView(zoomed, bounds, scale, anchorTime) == view
  {
    FractionSpans(view, anchorTime);
    assert ZoomedDuration(zoomed, bounds, scale) == view.Duration();
  }

  /** Zooming back from a window that an edge stopped misses the view. */
  lemma StoppedZoomStays(view: TimelineView, zoomed: TimelineView, bounds: TimelineView, scale: real, anchorTime: real)
    requires IsWindow(view, bounds) && view.Contains(anchorTime)
    requires 0.0 < zoomed.Duration() <= bounds.Duration() && zoomed.Contains(anchorTime)
    requires Part(scale, zoomed.Duration()) == view.Duration()
    requires var wanted := anchorTime - Part(view.FractionOf(anchorTime), zoomed.Duration());
      !StartFits(wanted, zoomed.Duration(), bounds) && zoomed == PositionedView(wanted, zoomed.Duration(), bounds)
    ensures ZoomView(zoomed, bounds, scale, anchorTime) != view
  {
    var f, g := view.FractionOf(anchorTime), zoomed.FractionOf(anchorTime);
    FractionSpans(view, anchorTime);
    FractionSpans(zoomed, anchorTime);
    OneEdgeStops(view, bounds, zoomed.Duration(), anchorTime);
    PartCompare(f, g, zoomed.Duration());
    PartCompare(g, f, zoomed.Duration());
    PartCompare(f, g, view.Duration());
    PartCompare(g, f, view.Duration());
    assert ZoomedDuration(zoomed, bounds, scale) == view.Duration();
  }

  /** The zoom's duration before any limit. */
  function WantedDuration(view: TimelineView, scale: real): real {
    Part(scale, view.Duration())
  }

  /** Zooming and zooming back about one in-view anchor restores the window exactly when the window
      asked for fits; when it was too long, exactly when the view is the shortest window and has the
      anchor where the bounds do; and when it was too short, exactly when the view is the bounds. */
  lemma ZoomRoundTrip(view: TimelineView, bounds: TimelineView, scale: real, anchorTime: real)
    requires IsWindow(view, bounds) && view.Contains(anchorTime) && scale > 0.0
    ensures var zoomed := ZoomView(view, bounds, scale, anchorTime);
      zoomed.Duration() > 0.0
      && (ZoomView(zoomed, bounds, 1.0 / scale, anchorTime) == view <==>
          if WantedDuration(view, scale) > bounds.Duration() then
            view.Duration() == Shortest(bounds) && bounds.FractionOf(anchorTime) == view.FractionOf(anchorTime)
          else if WantedDuration(view, scale) < Shortest(bounds) then view == bounds
          else ZoomFits(view, bounds, scale, anchorTime))
  {
    var zoomed := ZoomView(view, bounds, scale, anchorTime);
    ZoomKeepsAnchor(view, bounds, scale, anchorTime);
    if WantedDuration(view, scale) > bounds.Duration() {
      BackFromBounds(view, bounds, scale, anchorTime);
    } else if WantedDuration(view, scale) < Shortest(bounds) {
      BackFromShortest(view, bounds, scale, anchorTime);
    } else {
      Rescaled(view.Duration(), scale);
      if ZoomFits(view, bounds, scale, anchorTime) {
        RestoredView(view, zoomed, bounds, 1.0 / scale, anchorTime);
      } else {
        StoppedZoomStays(view, zoomed, bounds, 1.0 / scale, anchorTime);
      }
    }
  }

  lemma ShrunkBack(scale: real, duration: real, limit: real)
    requires scale > 0.0
    ensures Part(scale, duration) > limit ==> Part(1.0 / scale, limit) < duration
    ensures Part(scale, duration) < limit ==> Part(1.0 / scale, limit) > duration
  {
    Rescaled(duration, scale);
    var back := 1.0 / scale;
    if Part(scale, duration) > limit {
      ProductPositive(back, Part(scale, duration) - limit);
    } else if Part(scale, duration) < limit {
      ProductPositive(back, limit - Part(scale, duration));
    }
  }

  lemma BackFromBounds(view: TimelineView, bounds: TimelineView, scale: real, anchorTime: real)
    requires IsWindow(view, bounds) && view.Contains(anchorTime) && scale > 0.0
    requires WantedDuration(view, scale) > bounds.Duration()
    ensures ZoomView(view, bounds, scale, anchorTime) == bounds
    ensures ZoomView(bounds, bounds, 1.0 / scale, anchorTime) == view <==>
            view.Duration() == Shortest(bounds) && bounds.FractionOf(anchorTime) == view.FractionOf(anchorTime)
  {
    var f, g := view.FractionOf(anchorTime), bounds.FractionOf(anchorTime);
    var duration := ZoomedDuration(bounds, bounds, 1.0 / scale);
    ShrunkBack(scale, view.Duration(), bounds.Duration());
    InwardFits(bounds, bounds, duration, anchorTime);
    FractionSpans(view, anchorTime);
    PartCompare(f, g, view.Duration());
    PartCompare(g, f, view.Duration());
  }

  lemma BackFromShortest(view: TimelineView, bounds: TimelineView, scale: real, anchorTime: real)
    requires IsWindow(view, bounds) && view.Contains(anchorTime) && scale > 0.0
    requires WantedDuration(view, scale) < Shortest(bounds)
    ensures var zoomed := ZoomView(view, bounds, scale, anchorTime);
      zoomed.Duration() > 0.0 && (ZoomView(zoomed, bounds, 1.0 / scale, anchorTime) == view <==> view == bounds)
  {
    ZoomKeepsAnchor(view, bounds, scale, anchorTime);
    ShrunkBack(scale, view.Duration(), Shortest(bounds));
  }

  // ----- What a pan keeps under the finger

  /** Panning by the travel of a finger on the track keeps the footage under it exactly when the
      window moved to lies inside the bounds. */
  lemma PanFollowsFinger(view: TimelineView, bounds: TimelineView, track: Track, clientX: real, panPixels: real)
    requires IsWindow(view, bounds) && track.width > 0.0
    requires track.left <= clientX <= track.left + track.width
    requires track.left <= clientX + panPixels <= track.left + track.width
    ensures var seconds := PanSeconds(view, track, panPixels);
      TimeAtClientX(PanView(view, bounds, seconds), track, clientX + panPixels) == TimeAtClientX(view, track, clientX)
      <==> StartFits(view.startTime + seconds, view.Duration(), bounds)
  {
    var before, after := clientX - track.left, clientX + panPixels - track.left;
    RatioBetween(before, track.width);
    RatioBetween(after, track.width);
    RatioSum(after, -panPixels, track.width);
    assert after + -panPixels == before;
    PartSum(Ratio(after, track.width), Ratio(-panPixels, track.width), view.Duration());
    PanKeepsWindow(view, bounds, PanSeconds(view, track, panPixels));
  }

  /** At the left edge the footage does not follow a finger to the right. */
  lemma PanStopsAtEdge()
    ensures PanView(FIRST_TENTH, WHOLE, PanSeconds(FIRST_TENTH, TRACK, 50.0)) == FIRST_TENTH
    ensures TimeAtClientX(FIRST_TENTH, TRACK, 250.0) == 50.0 && TimeAtClientX(FIRST_TENTH, TRACK, 300.0) == 60.0
  {
    PanOnTrack();
    TimeOnTrack(250.0);
    TimeOnTrack(300.0);
  }

  lemma TimeOnTrack(clientX: real)
    requires 0.0 <= clientX <= 500.0
    ensures TimeAtClientX(FIRST_TENTH, TRACK, clientX) == clientX / 5.0
  {
    assert Ratio(clientX - 0.0, 500.0) == clientX / 500.0;
  }

  lemma PanOnTrack()
    ensures PanSeconds(FIRST_TENTH, TRACK, 50.0) == -10.0
  {
    assert Ratio(-50.0, 500.0) == -0.1;
  }
}
