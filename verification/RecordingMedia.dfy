/** Folding recorded segments into contiguous clips, first per camera and then across cameras.
    Timestamps, `f64` seconds, are read as `real`. */
module RecordingMedia {
  import opened Options
  import opened Reals
  import opened Sorting

  datatype RecordingRange = RecordingRange(camera: string, startTime: real, endTime: real)

  /** One row of retained footage; `motion` is absent when no motion was analysed. */
  datatype Segment = Segment(startTime: real, endTime: real, motion: Option<real>)

  /** `clips` are newest first; `motionRanges` oldest first. */
  datatype Media = Media(clips: seq<RecordingRange>, motionRanges: seq<RecordingRange>)

  const MAX_SEGMENT_GAP_SECONDS: real := 1.0

  // ----- The fold

  /** Extends the last range when the new span starts at most the maximum gap after it,
      and starts a new range otherwise. */
  function PushContiguousRange(ranges: seq<RecordingRange>, camera: string, startTime: real,
                               endTime: real): seq<RecordingRange> {
    var last := |ranges| - 1;
    if ranges != [] && startTime <= ranges[last].endTime + MAX_SEGMENT_GAP_SECONDS then
      ranges[last := ranges[last].(endTime := Max(ranges[last].endTime, endTime))]
    else
      ranges + [RecordingRange(camera, startTime, endTime)]
  }

  function Fold(camera: string, spans: seq<RecordingRange>): seq<RecordingRange> {
    if spans == [] then []
    else
      var last := spans[|spans| - 1];
      PushContiguousRange(Fold(camera, spans[..|spans| - 1]), camera, last.startTime, last.endTime)
  }

  function Reverse<T>(s: seq<T>): (r: seq<T>)
    ensures |r| == |s| && forall i :: 0 <= i < |s| ==> r[i] == s[|s| - 1 - i]
  {
    seq(|s|, i requires 0 <= i < |s| => s[|s| - 1 - i])
  }

  // ----- What a fold means: the moments within a second of some span

  /** `t` is in the span or at most a second after its end. */
  ghost predicate Reaches(span: RecordingRange, t: real) {
    span.startTime <= t <= span.endTime + 1.0
  }

  ghost predicate Covers(spans: seq<RecordingRange>, t: real) {
    exists i :: 0 <= i < |spans| && Reaches(spans[i], t)
  }

  ghost predicate SameCover(left: seq<RecordingRange>, right: seq<RecordingRange>) {
    forall t :: Covers(left, t) <==> Covers(right, t)
  }

  ghost predicate Ascending(spans: seq<RecordingRange>) {
    forall i, j :: 0 <= i < j < |spans| ==> spans[i].startTime <= spans[j].startTime
  }

  ghost predicate AllPositive(spans: seq<RecordingRange>) {
    forall i :: 0 <= i < |spans| ==> spans[i].startTime < spans[i].endTime
  }

  /** More than a second lies between any range and the ones after it. */
  ghost predicate Separated(ranges: seq<RecordingRange>) {
    forall i, j :: 0 <= i < j < |ranges| ==> ranges[i].endTime + 1.0 < ranges[j].startTime
  }

  ghost predicate OfCamera(ranges: seq<RecordingRange>, camera: string) {
    forall i :: 0 <= i < |ranges| ==> ranges[i].camera == camera
  }

  /** The clips of some footage: separated ranges of one camera with exactly its cover. */
  ghost predicate IsClipsOf(clips: seq<RecordingRange>, camera: string, footage: seq<RecordingRange>) {
    AllPositive(clips) && Separated(clips) && OfCamera(clips, camera) && SameCover(clips, footage)
  }

  lemma CoversSplit(left: seq<RecordingRange>, right: seq<RecordingRange>, t: real)
    ensures Covers(left + right, t) <==> Covers(left, t) || Covers(right, t)
  {
    var both := left + right;
    if Covers(left, t) {
      var i :| 0 <= i < |left| && Reaches(left[i], t);
      assert both[i] == left[i];
    }
    if Covers(right, t) {
      var i :| 0 <= i < |right| && Reaches(right[i], t);
      assert both[|left| + i] == right[i];
    }
  }

  lemma CoversOne(span: RecordingRange, t: real)
    ensures Covers([span], t) <==> Reaches(span, t)
  {
    assert Reaches(span, t) ==> Reaches([span][0], t);
  }

  lemma PushCovers(ranges: seq<RecordingRange>, camera: string, span: RecordingRange, t: real)
    requires AllPositive(ranges) && span.startTime < span.endTime
    requires ranges != [] ==> ranges[|ranges| - 1].startTime <= span.startTime
    ensures Covers(PushContiguousRange(ranges, camera, span.startTime, span.endTime), t)
       <==> Covers(ranges, t) || Reaches(span, t)
  {
    var pushed := PushContiguousRange(ranges, camera, span.startTime, span.endTime);
    if ranges != [] {
      var init, last := ranges[..|ranges| - 1], ranges[|ranges| - 1];
      assert ranges == init + [last];
      CoversSplit(init, [last], t);
      CoversOne(last, t);
      if span.startTime <= last.endTime + MAX_SEGMENT_GAP_SECONDS {
        var grown := last.(endTime := Max(last.endTime, span.endTime));
        assert pushed == init + [grown];
        CoversSplit(init, [grown], t);
        CoversOne(grown, t);
        return;
      }
    }
    var started := RecordingRange(camera, span.startTime, span.endTime);
    CoversSplit(ranges, [started], t);
    CoversOne(started, t);
  }

  lemma PushSeparated(ranges: seq<RecordingRange>, camera: string, span: RecordingRange)
    requires AllPositive(ranges) && Separated(ranges) && OfCamera(ranges, camera) && span.startTime < span.endTime
    requires ranges != [] ==> ranges[|ranges| - 1].startTime <= span.startTime
    ensures var pushed := PushContiguousRange(ranges, camera, span.startTime, span.endTime);
      && AllPositive(pushed) && Separated(pushed) && OfCamera(pushed, camera)
      && pushed != [] && pushed[|pushed| - 1].startTime <= span.startTime
  {
  }

  lemma PushSameCover(ranges: seq<RecordingRange>, camera: string, spans: seq<RecordingRange>, span: RecordingRange)
    requires AllPositive(ranges) && span.startTime < span.endTime && SameCover(ranges, spans)
    requires ranges != [] ==> ranges[|ranges| - 1].startTime <= span.startTime
    ensures SameCover(PushContiguousRange(ranges, camera, span.startTime, span.endTime), spans + [span])
  {
    var pushed := PushContiguousRange(ranges, camera, span.startTime, span.endTime);
    forall t
      ensures Covers(pushed, t) <==> Covers(spans + [span], t)
    {
      PushCovers(ranges, camera, span, t);
      CoversSplit(spans, [span], t);
      CoversOne(span, t);
    }
  }

  /** Folding ascending spans keeps their cover and separates the ranges. */
  lemma {:induction false} FoldIsClips(camera: string, spans: seq<RecordingRange>)
    requires Ascending(spans) && AllPositive(spans)
    ensures IsClipsOf(Fold(camera, spans), camera, spans)
    ensures spans != [] ==> Fold(camera, spans) != []
    ensures spans != [] ==> Fold(camera, spans)[|Fold(camera, spans)| - 1].startTime <= spans[|spans| - 1].startTime
  {
    if spans != [] {
      var init, last := spans[..|spans| - 1], spans[|spans| - 1];
      FoldIsClips(camera, init);
      assert init != [] ==> init[|init| - 1].startTime <= last.startTime;
      PushSeparated(Fold(camera, init), camera, last);
      PushSameCover(Fold(camera, init), camera, init, last);
      assert spans == init + [last];
    }
  }

  /** Ranges between two moments. */
  ghost predicate Inside(ranges: seq<RecordingRange>, from: real, to: real) {
    forall i :: 0 <= i < |ranges| ==> from <= ranges[i].startTime && ranges[i].endTime <= to
  }

  lemma {:induction false} FoldInside(camera: string, spans: seq<RecordingRange>, from: real, to: real)
    requires Inside(spans, from, to)
    ensures Inside(Fold(camera, spans), from, to)
  {
    if spans != [] {
      FoldInside(camera, spans[..|spans| - 1], from, to);
    }
  }

  // ----- The cover determines the clips

  lemma FirstStart(left: seq<RecordingRange>, right: seq<RecordingRange>)
    requires AllPositive(left) && AllPositive(right) && Separated(right)
    requires left != [] && right != [] && SameCover(left, right)
    ensures right[0].startTime <= left[0].startTime
  {
    var t := left[0].startTime;
    assert Reaches(left[0], t);
    assert Covers(left, t);
    assert Covers(right, t);
  }

  /** Just past the end of the first range there is a gap. */
  lemma FirstEnd(left: seq<RecordingRange>, right: seq<RecordingRange>)
    requires AllPositive(left) && AllPositive(right) && Separated(left) && Separated(right)
    requires left != [] && right != [] && SameCover(left, right)
    requires left[0].startTime == right[0].startTime
    ensures right[0].endTime <= left[0].endTime
  {
    if left[0].endTime < right[0].endTime {
      var reach := left[0].endTime + MAX_SEGMENT_GAP_SECONDS;
      var stop := right[0].endTime + MAX_SEGMENT_GAP_SECONDS;
      var limit := if |left| > 1 then Min(stop, left[1].startTime) else stop;
      var t := (reach + limit) / 2.0;
      assert reach < t < limit;
      assert !Covers(left, t);
      assert Reaches(right[0], t);
    }
  }

  lemma TailCover(ranges: seq<RecordingRange>, t: real)
    requires AllPositive(ranges) && Separated(ranges) && ranges != []
    ensures Covers(ranges[1..], t) <==> Covers(ranges, t) && t > ranges[0].endTime + MAX_SEGMENT_GAP_SECONDS
  {
    assert ranges == [ranges[0]] + ranges[1..];
    CoversSplit([ranges[0]], ranges[1..], t);
    CoversOne(ranges[0], t);
  }

  /** Separated ranges are the connected components of their cover: equal covers, equal ranges. */
  lemma {:induction false} CoverDeterminesClips(left: seq<RecordingRange>, right: seq<RecordingRange>, camera: string)
    requires AllPositive(left) && AllPositive(right) && Separated(left) && Separated(right)
    requires OfCamera(left, camera) && OfCamera(right, camera) && SameCover(left, right)
    ensures left == right
  {
    if left == [] && right == [] {
    } else if left == [] {
      assert Reaches(right[0], right[0].startTime);
      assert Covers(right, right[0].startTime);
    } else if right == [] {
      assert Reaches(left[0], left[0].startTime);
      assert Covers(left, left[0].startTime);
    } else {
      FirstStart(left, right);
      FirstStart(right, left);
      FirstEnd(left, right);
      FirstEnd(right, left);
      forall t
        ensures Covers(left[1..], t) <==> Covers(right[1..], t)
      {
        TailCover(left, t);
        TailCover(right, t);
      }
      CoverDeterminesClips(left[1..], right[1..], camera);
      assert left == [left[0]] + left[1..] && right == [right[0]] + right[1..];
    }
  }

  // ----- One camera's media

  function SegmentStart(segment: Segment): real { segment.startTime }

  function RangeStart(range: RecordingRange): real { range.startTime }

  /** The part of a segment inside the selection, when there is one. */
  function ClipTo(selection: RecordingRange, segment: Segment): Option<RecordingRange> {
    var startTime := Max(segment.startTime, selection.startTime);
    var endTime := Min(segment.endTime, selection.endTime);
    if startTime >= endTime then None else Some(RecordingRange(selection.camera, startTime, endTime))
  }

  predicate HasMotion(segment: Segment) {
    segment.motion.Some? && segment.motion.value > 0.0
  }

  /** The clipped spans of the segments, or of those with motion only. */
  function ClippedSpans(selection: RecordingRange, segments: seq<Segment>, motionOnly: bool): seq<RecordingRange> {
    if segments == [] then []
    else
      var init, last := segments[..|segments| - 1], segments[|segments| - 1];
      var clipped := ClipTo(selection, last);
      var before := ClippedSpans(selection, init, motionOnly);
      if clipped.Some? && (motionOnly ==> HasMotion(last)) then before + [clipped.value] else before
  }

  /** The ranges the loop has built from some segments. */
  function RangesOf(selection: RecordingRange, segments: seq<Segment>, motionOnly: bool): seq<RecordingRange> {
    Fold(selection.camera, ClippedSpans(selection, segments, motionOnly))
  }

  function MediaOf(selection: RecordingRange, segments: seq<Segment>): Media {
    var sorted := SortBy(segments, SegmentStart);
    Media(Reverse(RangesOf(selection, sorted, false)), RangesOf(selection, sorted, true))
  }

  method RecordingMedia(selection: RecordingRange, segments: seq<Segment>) returns (media: Media)
    ensures media == MediaOf(selection, segments)
  {
    var sorted := SortBy(segments, SegmentStart);
    var clipRanges: seq<RecordingRange> := [];
    var motionRanges: seq<RecordingRange> := [];
    for i := 0 to |sorted|
      invariant clipRanges == RangesOf(selection, sorted[..i], false)
      invariant motionRanges == RangesOf(selection, sorted[..i], true)
    {
      var segment := sorted[i];
      NextRanges(selection, sorted[..i], segment, sorted[..i + 1]);
      var startTime := Max(segment.startTime, selection.startTime);
      var endTime := Min(segment.endTime, selection.endTime);
      if startTime >= endTime {
        continue;
      }
      if HasMotion(segment) {
        motionRanges := PushContiguousRange(motionRanges, selection.camera, startTime, endTime);
      }
      clipRanges := PushContiguousRange(clipRanges, selection.camera, startTime, endTime);
    }
    assert sorted[..|sorted|] == sorted;
    return Media(Reverse(clipRanges), motionRanges);
  }

  /** What one more segment adds to the ranges. */
  lemma NextSegment(selection: RecordingRange, before: seq<Segment>, segment: Segment, after: seq<Segment>,
                    motionOnly: bool)
    requires after == before + [segment]
    ensures var clipped := ClipTo(selection, segment);
      var ranges := RangesOf(selection, before, motionOnly);
      RangesOf(selection, after, motionOnly)
      == if clipped.Some? && (motionOnly ==> HasMotion(segment))
         then PushContiguousRange(ranges, selection.camera, clipped.value.startTime, clipped.value.endTime)
         else ranges
  {
    assert after[..|before|] == before;
    var clipped := ClipTo(selection, segment);
    if clipped.Some? {
      FoldPush(selection.camera, ClippedSpans(selection, before, motionOnly), clipped.value);
    }
  }

  lemma NextRanges(selection: RecordingRange, before: seq<Segment>, segment: Segment, after: seq<Segment>)
    requires after == before + [segment]
    ensures var from, to := Max(segment.startTime, selection.startTime), Min(segment.endTime, selection.endTime);
      var clips, motion := RangesOf(selection, before, false), RangesOf(selection, before, true);
      && RangesOf(selection, after, false)
         == (if from >= to then clips else PushContiguousRange(clips, selection.camera, from, to))
      && RangesOf(selection, after, true)
         == (if from >= to || !HasMotion(segment) then motion
             else PushContiguousRange(motion, selection.camera, from, to))
  {
    NextSegment(selection, before, segment, after, false);
    NextSegment(selection, before, segment, after, true);
  }

  lemma FoldPush(camera: string, spans: seq<RecordingRange>, span: RecordingRange)
    ensures Fold(camera, spans + [span])
         == PushContiguousRange(Fold(camera, spans), camera, span.startTime, span.endTime)
  {
    assert (spans + [span])[..|spans|] == spans;
  }

  // ----- All cameras' media

  function Ranges(media: Media, motionOnly: bool): seq<RecordingRange> {
    if motionOnly then media.motionRanges else media.clips
  }

  /** Every camera's clips, or every camera's motion ranges, one camera after the other. */
  function AllRanges(perCamera: seq<Media>, motionOnly: bool): seq<RecordingRange> {
    if perCamera == [] then []
    else AllRanges(perCamera[..|perCamera| - 1], motionOnly) + Ranges(perCamera[|perCamera| - 1], motionOnly)
  }

  function MergedMediaOf(camera: string, perCamera: seq<Media>): Media {
    Media(Reverse(Fold(camera, SortBy(AllRanges(perCamera, false), RangeStart))), AllRanges(perCamera, true))
  }

  method MergeRecordingMedia(camera: string, perCamera: seq<Media>) returns (media: Media)
    ensures media == MergedMediaOf(camera, perCamera)
  {
    var clipRanges: seq<RecordingRange> := [];
    var motionRanges: seq<RecordingRange> := [];
    for i := 0 to |perCamera|
      invariant clipRanges == AllRanges(perCamera[..i], false)
      invariant motionRanges == AllRanges(perCamera[..i], true)
    {
      assert perCamera[..i + 1][..i] == perCamera[..i];
      clipRanges := clipRanges + perCamera[i].clips;
      motionRanges := motionRanges + perCamera[i].motionRanges;
    }
    assert perCamera[..|perCamera|] == perCamera;
    var mergedRanges := FoldRanges(camera, SortBy(clipRanges, RangeStart));
    return Media(Reverse(mergedRanges), motionRanges);
  }

  method FoldRanges(camera: string, spans: seq<RecordingRange>) returns (ranges: seq<RecordingRange>)
    ensures ranges == Fold(camera, spans)
  {
    ranges := [];
    for i := 0 to |spans|
      invariant ranges == Fold(camera, spans[..i])
    {
      assert spans[..i + 1][..i] == spans[..i];
      ranges := PushContiguousRange(ranges, camera, spans[i].startTime, spans[i].endTime);
    }
    assert spans[..|spans|] == spans;
  }

  // ----- Two-level merging is one-level merging

  /** A moment is in some segment's part inside the selection, or at most a second after it. */
  ghost predicate FootageCovers(selection: RecordingRange, segments: seq<Segment>, motionOnly: bool, t: real) {
    exists s :: s in segments && SegmentReaches(selection, s, motionOnly, t)
  }

  ghost predicate SegmentReaches(selection: RecordingRange, segment: Segment, motionOnly: bool, t: real) {
    var from, to := Max(segment.startTime, selection.startTime), Min(segment.endTime, selection.endTime);
    && from < to && from <= t <= to + 1.0
    && (motionOnly ==> segment.motion.Some? && segment.motion.value > 0.0)
  }

  lemma {:induction false} ClippedSpansShape(selection: RecordingRange, segments: seq<Segment>, motionOnly: bool)
    requires AscendingBy(segments, SegmentStart)
    ensures Ascending(ClippedSpans(selection, segments, motionOnly))
    ensures AllPositive(ClippedSpans(selection, segments, motionOnly))
    ensures Inside(ClippedSpans(selection, segments, motionOnly), selection.startTime, selection.endTime)
    ensures forall span :: span in ClippedSpans(selection, segments, motionOnly) && segments != [] ==>
              span.startTime <= Max(segments[|segments| - 1].startTime, selection.startTime)
  {
    if segments != [] {
      ClippedSpansShape(selection, segments[..|segments| - 1], motionOnly);
    }
  }

  /** The clipped segment reaches exactly the moments its part inside the selection does. */
  lemma ClippedReaches(selection: RecordingRange, segment: Segment, motionOnly: bool, t: real)
    ensures var clipped := ClipTo(selection, segment);
      SegmentReaches(selection, segment, motionOnly, t)
      <==> clipped.Some? && (motionOnly ==> HasMotion(segment)) && Reaches(clipped.value, t)
  {
  }

  lemma {:induction false} ClippedSpansCover(selection: RecordingRange, segments: seq<Segment>, motionOnly: bool,
                                             t: real)
    ensures Covers(ClippedSpans(selection, segments, motionOnly), t)
       <==> FootageCovers(selection, segments, motionOnly, t)
  {
    if segments != [] {
      var init, last := segments[..|segments| - 1], segments[|segments| - 1];
      assert segments == init + [last];
      ClippedSpansCover(selection, init, motionOnly, t);
      var clipped := ClipTo(selection, last);
      if clipped.Some? {
        CoversSplit(ClippedSpans(selection, init, motionOnly), [clipped.value], t);
        CoversOne(clipped.value, t);
      }
      ClippedReaches(selection, last, motionOnly, t);
      assert FootageCovers(selection, segments, motionOnly, t)
        <==> FootageCovers(selection, init, motionOnly, t) || SegmentReaches(selection, last, motionOnly, t);
    }
  }

  lemma ReverseCovers(ranges: seq<RecordingRange>, t: real)
    ensures Covers(Reverse(ranges), t) <==> Covers(ranges, t)
  {
    if Covers(ranges, t) {
      var i :| 0 <= i < |ranges| && Reaches(ranges[i], t);
      assert Reverse(ranges)[|ranges| - 1 - i] == ranges[i];
    }
  }

  /** One camera's clips and motion ranges lie inside the selection and are separated, and they
      cover exactly its clipped footage: all of it, and the part with motion. */
  lemma MediaIsClips(selection: RecordingRange, segments: seq<Segment>)
    ensures var media := MediaOf(selection, segments);
      && Inside(media.clips, selection.startTime, selection.endTime)
      && Inside(media.motionRanges, selection.startTime, selection.endTime)
      && AllPositive(media.clips) && Separated(Reverse(media.clips)) && OfCamera(media.clips, selection.camera)
      && AllPositive(media.motionRanges) && Separated(media.motionRanges)
      && OfCamera(media.motionRanges, selection.camera)
      && (forall t :: Covers(media.clips, t) <==> FootageCovers(selection, segments, false, t))
      && (forall t :: Covers(media.motionRanges, t) <==> FootageCovers(selection, segments, true, t))
  {
    var sorted := SortBy(segments, SegmentStart);
    var media := MediaOf(selection, segments);
    forall motionOnly: bool
      ensures IsClipsOf(Fold(selection.camera, ClippedSpans(selection, sorted, motionOnly)), selection.camera,
                        ClippedSpans(selection, sorted, motionOnly))
      ensures Inside(Fold(selection.camera, ClippedSpans(selection, sorted, motionOnly)),
                     selection.startTime, selection.endTime)
    {
      ClippedSpansShape(selection, sorted, motionOnly);
      FoldInside(selection.camera, ClippedSpans(selection, sorted, motionOnly), selection.startTime, selection.endTime);
      FoldIsClips(selection.camera, ClippedSpans(selection, sorted, motionOnly));
    }
    var folded := Fold(selection.camera, ClippedSpans(selection, sorted, false));
    assert Reverse(media.clips) == folded;
    forall t
      ensures Covers(media.clips, t) <==> FootageCovers(selection, segments, false, t)
      ensures Covers(media.motionRanges, t) <==> FootageCovers(selection, segments, true, t)
    {
      ReverseCovers(folded, t);
      ClippedSpansCover(selection, sorted, false, t);
      ClippedSpansCover(selection, sorted, true, t);
      forall s { SameElements(segments, sorted, s); }
    }
  }

  /** The media of several cameras over one selection. */
  ghost function PerCamera(selection: RecordingRange, cameras: seq<string>,
                           footage: seq<seq<Segment>>): (media: seq<Media>)
    requires |cameras| == |footage|
    ensures |media| == |cameras|
  {
    seq(|cameras|, i requires 0 <= i < |cameras| => MediaOf(selection.(camera := cameras[i]), footage[i]))
  }

  /** Some camera's footage covers the moment. */
  ghost predicate AnyCovers(selection: RecordingRange, footage: seq<seq<Segment>>, motionOnly: bool, t: real) {
    exists i :: 0 <= i < |footage| && FootageCovers(selection, footage[i], motionOnly, t)
  }

  lemma ClipIgnoresCamera(selection: RecordingRange, camera: string, segments: seq<Segment>, motionOnly: bool, t: real)
    ensures FootageCovers(selection.(camera := camera), segments, motionOnly, t)
       <==> FootageCovers(selection, segments, motionOnly, t)
  {
    forall s
      ensures SegmentReaches(selection.(camera := camera), s, motionOnly, t)
         <==> SegmentReaches(selection, s, motionOnly, t)
    {
    }
  }

  lemma {:induction false} AllRangesCover(selection: RecordingRange, cameras: seq<string>, footage: seq<seq<Segment>>,
                                          motionOnly: bool)
    requires |cameras| == |footage|
    ensures AllPositive(AllRanges(PerCamera(selection, cameras, footage), motionOnly))
    ensures forall t :: Covers(AllRanges(PerCamera(selection, cameras, footage), motionOnly), t)
                   <==> AnyCovers(selection, footage, motionOnly, t)
  {
    if cameras != [] {
      var n := |cameras| - 1;
      var own := selection.(camera := cameras[n]);
      var last := Ranges(MediaOf(own, footage[n]), motionOnly);
      var before := PerCamera(selection, cameras[..n], footage[..n]);
      AllRangesCover(selection, cameras[..n], footage[..n], motionOnly);
      assert PerCamera(selection, cameras, footage)[..n] == before;
      assert AllRanges(PerCamera(selection, cameras, footage), motionOnly) == AllRanges(before, motionOnly) + last;
      MediaIsClips(own, footage[n]);
      forall t
        ensures Covers(AllRanges(before, motionOnly) + last, t) <==> AnyCovers(selection, footage, motionOnly, t)
      {
        assert Covers(last, t) <==> FootageCovers(own, footage[n], motionOnly, t);
        CoversSplit(AllRanges(before, motionOnly), last, t);
        AnyCoversLast(selection, footage, motionOnly, t);
        ClipIgnoresCamera(selection, cameras[n], footage[n], motionOnly, t);
      }
    }
  }

  lemma AnyCoversLast(selection: RecordingRange, footage: seq<seq<Segment>>, motionOnly: bool, t: real)
    requires footage != []
    ensures AnyCovers(selection, footage, motionOnly, t)
       <==> AnyCovers(selection, footage[..|footage| - 1], motionOnly, t)
            || FootageCovers(selection, footage[|footage| - 1], motionOnly, t)
  {
    var init := footage[..|footage| - 1];
    if AnyCovers(selection, init, motionOnly, t) {
      var i :| 0 <= i < |init| && FootageCovers(selection, init[i], motionOnly, t);
      assert footage[i] == init[i];
    }
    if AnyCovers(selection, footage, motionOnly, t) {
      var i :| 0 <= i < |footage| && FootageCovers(selection, footage[i], motionOnly, t);
      assert i < |init| ==> init[i] == footage[i];
    }
  }

  /** The same segments, dealt to cameras in any way and listed in any order. */
  ghost predicate SameFootage(all: seq<Segment>, footage: seq<seq<Segment>>) {
    forall s :: s in all <==> exists i :: 0 <= i < |footage| && s in footage[i]
  }

  lemma SameFootageCovers(selection: RecordingRange, all: seq<Segment>, footage: seq<seq<Segment>>, motionOnly: bool,
                          t: real)
    requires SameFootage(all, footage)
    ensures FootageCovers(selection, all, motionOnly, t) <==> AnyCovers(selection, footage, motionOnly, t)
  {
    if FootageCovers(selection, all, motionOnly, t) {
      var s :| s in all && SegmentReaches(selection, s, motionOnly, t);
      var i :| 0 <= i < |footage| && s in footage[i];
      assert FootageCovers(selection, footage[i], motionOnly, t);
    }
    if AnyCovers(selection, footage, motionOnly, t) {
      var i :| 0 <= i < |footage| && FootageCovers(selection, footage[i], motionOnly, t);
      var s :| s in footage[i] && SegmentReaches(selection, s, motionOnly, t);
      assert s in all;
    }
  }

  lemma SortedFoldIsClips(camera: string, ranges: seq<RecordingRange>)
    requires AllPositive(ranges)
    ensures IsClipsOf(Fold(camera, SortBy(ranges, RangeStart)), camera, ranges)
  {
    var sorted := SortBy(ranges, RangeStart);
    forall span
      ensures span in ranges <==> span in sorted
    {
      SameElements(ranges, sorted, span);
    }
    AllPositiveElements(ranges, sorted);
    assert Ascending(sorted);
    FoldIsClips(camera, sorted);
    forall t
      ensures Covers(sorted, t) <==> Covers(ranges, t)
    {
      SameSpansCover(ranges, sorted, t);
    }
  }

  lemma AllPositiveElements(ranges: seq<RecordingRange>, same: seq<RecordingRange>)
    requires AllPositive(ranges) && forall span :: span in same ==> span in ranges
    ensures AllPositive(same)
  {
    forall i | 0 <= i < |same|
      ensures same[i].startTime < same[i].endTime
    {
      assert same[i] in ranges;
    }
  }

  /** Merging every camera's already merged media gives the clips that folding all the raw
      segments at once gives, however the segments are dealt to cameras and ordered: they cover
      exactly the segments' parts inside the selection, and whatever follows within a second. */
  lemma TwoLevelMergeIsOneLevel(selection: RecordingRange, cameras: seq<string>, footage: seq<seq<Segment>>,
                                all: seq<Segment>)
    requires |cameras| == |footage| && SameFootage(all, footage)
    ensures MergedMediaOf(selection.camera, PerCamera(selection, cameras, footage)).clips
         == MediaOf(selection, all).clips
    ensures forall t :: Covers(MergedMediaOf(selection.camera, PerCamera(selection, cameras, footage)).clips, t)
                   <==> FootageCovers(selection, all, false, t)
  {
    var ranges := AllRanges(PerCamera(selection, cameras, footage), false);
    var merged := Fold(selection.camera, SortBy(ranges, RangeStart));
    var direct := MediaOf(selection, all).clips;
    AllRangesCover(selection, cameras, footage, false);
    SortedFoldIsClips(selection.camera, ranges);
    MediaIsClips(selection, all);
    forall t
      ensures Covers(merged, t) <==> Covers(Reverse(direct), t)
    {
      ReverseCovers(direct, t);
      SameFootageCovers(selection, all, footage, false, t);
    }
    CoverDeterminesClips(merged, Reverse(direct), selection.camera);
    assert direct == Reverse(Reverse(direct));
  }

  /** The merged motion ranges, which are only concatenated, still cover exactly all the footage
      with motion. */
  lemma MergedMotionCover(selection: RecordingRange, cameras: seq<string>, footage: seq<seq<Segment>>,
                          all: seq<Segment>)
    requires |cameras| == |footage| && SameFootage(all, footage)
    ensures SameCover(MergedMediaOf(selection.camera, PerCamera(selection, cameras, footage)).motionRanges,
                      MediaOf(selection, all).motionRanges)
    ensures forall t :: Covers(MergedMediaOf(selection.camera, PerCamera(selection, cameras, footage)).motionRanges, t)
                   <==> FootageCovers(selection, all, true, t)
  {
    AllRangesCover(selection, cameras, footage, true);
    MediaIsClips(selection, all);
    forall t
      ensures FootageCovers(selection, all, true, t) <==> AnyCovers(selection, footage, true, t)
    {
      SameFootageCovers(selection, all, footage, true, t);
    }
  }

  lemma SameSpansCover(left: seq<RecordingRange>, right: seq<RecordingRange>, t: real)
    requires forall span :: span in left <==> span in right
    ensures Covers(left, t) <==> Covers(right, t)
  {
    if Covers(left, t) {
      var i :| 0 <= i < |left| && Reaches(left[i], t);
      assert left[i] in right;
    }
    if Covers(right, t) {
      var i :| 0 <= i < |right| && Reaches(right[i], t);
      assert right[i] in left;
    }
  }
}
