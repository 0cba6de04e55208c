/** Where the playhead may stand, and playing through the activities of a recording. */
module TimelinePlayback {
  import opened Options
  import opened Reals
  import opened Sorting
  import opened RecordingMedia

  const CLIP_END_MARGIN_SECONDS: real := 1.0
  const SOURCE_END_EPSILON_SECONDS: real := 0.001
  const MINIMUM_MARKER_SECONDS: real := 1.0

  // ----- Playable times

  predicate InClip(clip: RecordingRange, time: real) {
    clip.startTime <= time < clip.endTime
  }

  /** The first clip that contains the time. */
  function ClipAtTime(clips: seq<RecordingRange>, time: real): Option<RecordingRange> {
    if clips == [] then None else if InClip(clips[0], time) then Some(clips[0]) else ClipAtTime(clips[1..], time)
  }

  function LastPlayable(clip: RecordingRange): real {
    Max(clip.endTime - CLIP_END_MARGIN_SECONDS, clip.startTime)
  }

  /** The clip's playable moment nearest the time. */
  function Snap(clip: RecordingRange, time: real): real {
    if time < clip.startTime then clip.startTime else if time > LastPlayable(clip) then LastPlayable(clip) else time
  }

  /** The nearest of the clips' snaps, the first one when several tie. */
  function NearestSnap(clips: seq<RecordingRange>, time: real): real
    requires clips != []
  {
    if |clips| == 1 then Snap(clips[0], time)
    else
      var rest := NearestSnap(clips[1..], time);
      if Distance(Snap(clips[0], time), time) <= Distance(rest, time) then Snap(clips[0], time) else rest
  }

  /** The source panics without clips. */
  function PlayableTime(clips: seq<RecordingRange>, requestedTime: real): real
    requires clips != []
  {
    if ClipAtTime(clips, requestedTime).Some? then requestedTime else NearestSnap(clips, requestedTime)
  }

  ghost predicate InSomeClip(clips: seq<RecordingRange>, time: real) {
    exists i :: 0 <= i < |clips| && clips[i].startTime <= time < clips[i].endTime
  }

  /** From a clip's start up to a second short of its end; of a shorter clip, its start alone. */
  ghost predicate InPlayableSpan(clips: seq<RecordingRange>, time: real) {
    exists i :: 0 <= i < |clips| && IsPlayable(clips[i], time)
  }

  ghost predicate IsPlayable(clip: RecordingRange, time: real) {
    time == clip.startTime || clip.startTime <= time <= clip.endTime - 1.0
  }

  lemma PlayableUpToLast(clip: RecordingRange, time: real)
    ensures IsPlayable(clip, time) <==> clip.startTime <= time <= LastPlayable(clip)
  {
  }

  lemma {:induction false} ClipAtTimeFinds(clips: seq<RecordingRange>, time: real)
    ensures ClipAtTime(clips, time).Some? <==> InSomeClip(clips, time)
    ensures ClipAtTime(clips, time).Some? ==>
              var clip := ClipAtTime(clips, time).value; clip in clips && clip.startTime <= time < clip.endTime
  {
    if clips != [] {
      ClipAtTimeFinds(clips[1..], time);
      assert clips == [clips[0]] + clips[1..];
      if InSomeClip(clips[1..], time) {
        var i :| 0 <= i < |clips[1..]| && InClip(clips[1..][i], time);
        assert clips[i + 1] == clips[1..][i];
      }
    }
  }

  lemma {:induction false} NearestSnapIsNearest(clips: seq<RecordingRange>, time: real)
    requires clips != []
    ensures InPlayableSpan(clips, NearestSnap(clips, time))
    ensures forall s :: InPlayableSpan(clips, s) ==> Distance(NearestSnap(clips, time), time) <= Distance(s, time)
  {
    var nearest := NearestSnap(clips, time);
    if |clips| > 1 {
      NearestSnapIsNearest(clips[1..], time);
      var rest := NearestSnap(clips[1..], time);
      var i :| 0 <= i < |clips[1..]| && IsPlayable(clips[1..][i], rest);
      assert IsPlayable(clips[i + 1], rest);
    }
    PlayableUpToLast(clips[0], Snap(clips[0], time));
    assert IsPlayable(clips[0], Snap(clips[0], time));
    forall s | InPlayableSpan(clips, s)
      ensures Distance(nearest, time) <= Distance(s, time)
    {
      var i :| 0 <= i < |clips| && IsPlayable(clips[i], s);
      PlayableUpToLast(clips[i], s);
      if i > 0 {
        assert clips[1..][i - 1] == clips[i];
        assert InPlayableSpan(clips[1..], s);
      }
    }
  }

  /** The clip whose playable moments are nearest, the first of those that are equally near. */
  ghost predicate FirstNearest(clips: seq<RecordingRange>, time: real, i: nat)
    requires i < |clips|
  {
    && (forall j :: 0 <= j < |clips| ==> Distance(Snap(clips[i], time), time) <= Distance(Snap(clips[j], time), time))
    && forall j :: 0 <= j < i ==> Distance(Snap(clips[i], time), time) < Distance(Snap(clips[j], time), time)
  }

  lemma {:induction false} FirstNearestWins(clips: seq<RecordingRange>, time: real) returns (i: nat)
    requires clips != []
    ensures i < |clips| && FirstNearest(clips, time, i) && NearestSnap(clips, time) == Snap(clips[i], time)
  {
    i := 0;
    if |clips| > 1 {
      var k := FirstNearestWins(clips[1..], time);
      assert forall j :: 0 < j < |clips| ==> clips[j] == clips[1..][j - 1];
      if Distance(Snap(clips[0], time), time) > Distance(NearestSnap(clips[1..], time), time) {
        i := k + 1;
      }
    }
  }

  /** Over clips of positive length the playable time lies inside a clip; a covered request is
      answered unchanged, an uncovered one with the nearest of all playable moments; and a playable
      time is its own. */
  lemma PlayableTimeIsNearest(clips: seq<RecordingRange>, requestedTime: real)
    requires clips != [] && AllPositive(clips)
    ensures var time := PlayableTime(clips, requestedTime);
      && InSomeClip(clips, time)
      && (InSomeClip(clips, requestedTime) ==> time == requestedTime)
      && (!InSomeClip(clips, requestedTime) ==>
            InPlayableSpan(clips, time)
            && forall s :: InPlayableSpan(clips, s) ==> Distance(time, requestedTime) <= Distance(s, requestedTime))
      && PlayableTime(clips, time) == time
  {
    var time := PlayableTime(clips, requestedTime);
    ClipAtTimeFinds(clips, requestedTime);
    NearestSnapIsNearest(clips, requestedTime);
    if !InSomeClip(clips, requestedTime) {
      var i :| 0 <= i < |clips| && IsPlayable(clips[i], time);
      assert clips[i].startTime <= time < clips[i].endTime;
    }
    ClipAtTimeFinds(clips, time);
  }

  // ----- Activities

  datatype TimelineActivity = TimelineActivity(startTime: real, endTime: real)

  /** A review that has not ended yet has no end time. */
  datatype ReviewSegment = ReviewSegment(startTime: real, endTime: Option<real>)

  /** The part of a review inside the range, widened to a visible marker; none when it is outside. */
  function ReviewTimelineBounds(review: ReviewSegment, rangeStart: real, rangeEnd: real): Option<TimelineActivity> {
    var reviewEnd := if review.endTime.None? then rangeEnd else review.endTime.value;
    if review.startTime >= rangeEnd || reviewEnd < rangeStart then None
    else
      var startTime := Max(review.startTime, rangeStart);
      var endTime := Max(Min(reviewEnd, rangeEnd), Min(startTime + MINIMUM_MARKER_SECONDS, rangeEnd));
      if startTime < endTime then Some(TimelineActivity(startTime, endTime)) else None
  }

  /** A marker lies inside the range, begins with the review's part of it, reaches to that part's
      end, and lasts a second or to the range's end; only reviews that miss the range, or an empty
      range, have none. */
  lemma ReviewMarker(review: ReviewSegment, rangeStart: real, rangeEnd: real)
    ensures var reviewEnd := if review.endTime.None? then rangeEnd else review.endTime.value;
      match ReviewTimelineBounds(review, rangeStart, rangeEnd)
      case None => review.startTime >= rangeEnd || reviewEnd < rangeStart || rangeStart >= rangeEnd
      case Some(marker) =>
        && review.startTime < rangeEnd && rangeStart <= reviewEnd
        && rangeStart <= marker.startTime < marker.endTime <= rangeEnd
        && marker.startTime == Max(review.startTime, rangeStart)
        && marker.endTime >= Min(reviewEnd, rangeEnd)
        && (marker.endTime - marker.startTime >= 1.0 || marker.endTime == rangeEnd)
        && (reviewEnd - marker.startTime >= 1.0 ==> marker.endTime == Min(reviewEnd, rangeEnd))
        && (reviewEnd - marker.startTime < 1.0 ==> marker.endTime - marker.startTime <= 1.0)
  {
  }

  function ActivityStart(activity: TimelineActivity): real { activity.startTime }

  function MotionActivities(ranges: seq<RecordingRange>): (activities: seq<TimelineActivity>)
    ensures |activities| == |ranges|
  {
    seq(|ranges|, i requires 0 <= i < |ranges| => TimelineActivity(ranges[i].startTime, ranges[i].endTime))
  }

  function ReviewActivities(reviews: seq<ReviewSegment>, rangeStart: real, rangeEnd: real): seq<TimelineActivity> {
    if reviews == [] then []
    else
      var marker := ReviewTimelineBounds(reviews[0], rangeStart, rangeEnd);
      (if marker.Some? then [marker.value] else []) + ReviewActivities(reviews[1..], rangeStart, rangeEnd)
  }

  /** Drops elements equal to the one before them. */
  function Dedup<T(==,!new)>(s: seq<T>): (r: seq<T>)
    ensures forall x :: x in r <==> x in s
    ensures s != [] ==> r != [] && r[0] == s[0]
    ensures forall i :: 0 < i < |r| ==> r[i - 1] != r[i]
  {
    if |s| <= 1 then s
    else
      assert s == [s[0]] + s[1..];
      if s[0] == s[1] then Dedup(s[1..]) else [s[0]] + Dedup(s[1..])
  }

  function TimelineActivities(motionRanges: seq<RecordingRange>, reviews: seq<ReviewSegment>, rangeStart: real,
                              rangeEnd: real): seq<TimelineActivity> {
    Dedup(SortBy(MotionActivities(motionRanges) + ReviewActivities(reviews, rangeStart, rangeEnd), ActivityStart))
  }

  ghost predicate Playable(activities: seq<TimelineActivity>, rangeStart: real, rangeEnd: real) {
    forall a :: a in activities ==> rangeStart <= a.startTime < a.endTime <= rangeEnd
  }

  lemma {:induction false} DedupKeepsOrder<T(!new)>(s: seq<T>, key: T -> real)
    requires AscendingBy(s, key)
    ensures AscendingBy(Dedup(s), key)
  {
    if |s| > 1 {
      DedupKeepsOrder(s[1..], key);
      var rest := Dedup(s[1..]);
      forall i | 0 <= i < |rest|
        ensures key(s[0]) <= key(rest[i])
      {
        assert rest[i] in s[1..];
      }
    }
  }

  lemma {:induction false} ReviewActivitiesPlayable(reviews: seq<ReviewSegment>, rangeStart: real, rangeEnd: real)
    ensures Playable(ReviewActivities(reviews, rangeStart, rangeEnd), rangeStart, rangeEnd)
  {
    if reviews != [] {
      ReviewMarker(reviews[0], rangeStart, rangeEnd);
      ReviewActivitiesPlayable(reviews[1..], rangeStart, rangeEnd);
    }
  }

  lemma {:induction false} MarkerListed(reviews: seq<ReviewSegment>, rangeStart: real, rangeEnd: real,
                                        a: TimelineActivity)
    ensures a in ReviewActivities(reviews, rangeStart, rangeEnd) <==>
            exists review :: review in reviews && ReviewTimelineBounds(review, rangeStart, rangeEnd) == Some(a)
  {
    if reviews != [] {
      assert reviews == [reviews[0]] + reviews[1..];
      MarkerListed(reviews[1..], rangeStart, rangeEnd, a);
    }
  }

  lemma MotionListed(ranges: seq<RecordingRange>, a: TimelineActivity)
    ensures a in MotionActivities(ranges) <==>
            exists range :: range in ranges && range.startTime == a.startTime && range.endTime == a.endTime
  {
    if exists range :: range in ranges && range.startTime == a.startTime && range.endTime == a.endTime {
      var range :| range in ranges && range.startTime == a.startTime && range.endTime == a.endTime;
      var i :| 0 <= i < |ranges| && ranges[i] == range;
      assert MotionActivities(ranges)[i] == a;
    }
  }

  /** Exactly the stretches of motion and the markers of the reviews are listed. */
  lemma ActivitiesListed(motion: seq<RecordingRange>, reviews: seq<ReviewSegment>, rangeStart: real, rangeEnd: real,
                         a: TimelineActivity)
    ensures a in TimelineActivities(motion, reviews, rangeStart, rangeEnd) <==>
            || (exists range :: range in motion && range.startTime == a.startTime && range.endTime == a.endTime)
            || (exists review :: review in reviews && ReviewTimelineBounds(review, rangeStart, rangeEnd) == Some(a))
  {
    var all := MotionActivities(motion) + ReviewActivities(reviews, rangeStart, rangeEnd);
    SameElements(all, SortBy(all, ActivityStart), a);
    MotionListed(motion, a);
    MarkerListed(reviews, rangeStart, rangeEnd, a);
  }

  /** Activities made of ranges of positive length inside the selection and of reviews have
      positive length and lie inside it, in order of their starts. */
  lemma ActivitiesPlayable(motion: seq<RecordingRange>, reviews: seq<ReviewSegment>, rangeStart: real, rangeEnd: real)
    requires AllPositive(motion) && Inside(motion, rangeStart, rangeEnd)
    ensures var activities := TimelineActivities(motion, reviews, rangeStart, rangeEnd);
      && Playable(activities, rangeStart, rangeEnd) && AscendingBy(activities, ActivityStart)
      && forall i :: 0 < i < |activities| ==> activities[i - 1] != activities[i]
  {
    var all := MotionActivities(motion) + ReviewActivities(reviews, rangeStart, rangeEnd);
    ReviewActivitiesPlayable(reviews, rangeStart, rangeEnd);
    DedupKeepsOrder(SortBy(all, ActivityStart), ActivityStart);
    forall a | a in TimelineActivities(motion, reviews, rangeStart, rangeEnd)
      ensures a in all
    {
      SameElements(all, SortBy(all, ActivityStart), a);
    }
  }

  ghost predicate PlayableIn(selection: RecordingRange, motion: seq<RecordingRange>, reviews: seq<ReviewSegment>) {
    Playable(TimelineActivities(motion, reviews, selection.startTime, selection.endTime),
             selection.startTime, selection.endTime)
  }

  /** So the activities of one camera's recorded motion, and of the merged motion of several, can
      be played through. */
  lemma RecordedActivitiesPlayable(selection: RecordingRange, cameras: seq<string>, footage: seq<seq<Segment>>,
                                   reviews: seq<ReviewSegment>)
    requires |cameras| == |footage|
    ensures forall i | 0 <= i < |footage| ::
              var motion := MediaOf(selection.(camera := cameras[i]), footage[i]).motionRanges;
              PlayableIn(selection, motion, reviews)
    ensures var motion := MergedMediaOf(selection.camera, PerCamera(selection, cameras, footage)).motionRanges;
      PlayableIn(selection, motion, reviews)
  {
    forall i | 0 <= i < |footage|
      ensures var motion := MediaOf(selection.(camera := cameras[i]), footage[i]).motionRanges;
        Inside(motion, selection.startTime, selection.endTime)
        && PlayableIn(selection, motion, reviews)
    {
      MediaIsClips(selection.(camera := cameras[i]), footage[i]);
      ActivitiesPlayable(MediaOf(selection.(camera := cameras[i]), footage[i]).motionRanges, reviews,
                         selection.startTime, selection.endTime);
    }
    var merged := MergedMediaOf(selection.camera, PerCamera(selection, cameras, footage)).motionRanges;
    AllRangesCover(selection, cameras, footage, true);
    AllMotionInside(PerCamera(selection, cameras, footage), selection.startTime, selection.endTime);
    ActivitiesPlayable(merged, reviews, selection.startTime, selection.endTime);
  }

  lemma {:induction false} AllMotionInside(perCamera: seq<Media>, from: real, to: real)
    requires forall i :: 0 <= i < |perCamera| ==> Inside(perCamera[i].motionRanges, from, to)
    ensures Inside(AllRanges(perCamera, true), from, to)
  {
    if perCamera != [] {
      AllMotionInside(perCamera[..|perCamera| - 1], from, to);
    }
  }

  // ----- Playing through

  /** The first listed activity that starts at or after the current one's end. */
  function NextTimelineActivity(activities: seq<TimelineActivity>,
                                current: TimelineActivity): Option<TimelineActivity> {
    if activities == [] then None
    else if activities[0].startTime >= current.endTime then Some(activities[0])
    else NextTimelineActivity(activities[1..], current)
  }

  lemma {:induction false} NextIsEarliest(activities: seq<TimelineActivity>, current: TimelineActivity)
    requires AscendingBy(activities, ActivityStart)
    ensures match NextTimelineActivity(activities, current)
            case None => forall a :: a in activities ==> a.startTime < current.endTime
            case Some(next) =>
              && next in activities && next.startTime >= current.endTime
              && forall a :: a in activities && a.startTime >= current.endTime ==> next.startTime <= a.startTime
  {
    if activities != [] {
      NextIsEarliest(activities[1..], current);
      assert activities == [activities[0]] + activities[1..];
      assert forall a :: a in activities[1..] ==> ActivityStart(activities[0]) <= ActivityStart(a);
    }
  }

  /** The activities a play-through may still reach. */
  ghost function Remaining(activities: seq<TimelineActivity>, current: TimelineActivity): set<TimelineActivity> {
    set a | a in activities && a.startTime >= current.endTime
  }

  /** Each advance leaves strictly fewer activities to reach. */
  lemma AdvanceShrinks(activities: seq<TimelineActivity>, current: TimelineActivity)
    requires AscendingBy(activities, ActivityStart)
    requires forall a :: a in activities ==> a.startTime < a.endTime
    ensures var next := NextTimelineActivity(activities, current);
      next.Some? ==> Remaining(activities, next.value) < Remaining(activities, current)
  {
    NextIsEarliest(activities, current);
    var next := NextTimelineActivity(activities, current);
    if next.Some? {
      assert next.value in Remaining(activities, current) && next.value !in Remaining(activities, next.value);
    }
  }

  /** Everything played after the current activity, in order. */
  ghost function PlayThrough(activities: seq<TimelineActivity>, current: TimelineActivity): seq<TimelineActivity>
    requires AscendingBy(activities, ActivityStart)
    requires forall a :: a in activities ==> a.startTime < a.endTime
    decreases Remaining(activities, current)
  {
    AdvanceShrinks(activities, current);
    var next := NextTimelineActivity(activities, current);
    if next.None? then [] else [next.value] + PlayThrough(activities, next.value)
  }

  ghost function Before(played: seq<TimelineActivity>, i: nat, current: TimelineActivity): TimelineActivity
    requires i <= |played|
  {
    if i == 0 then current else played[i - 1]
  }

  /** Listed activities, each starting at or after the end of the one before. */
  ghost predicate OneAfterAnother(played: seq<TimelineActivity>, activities: seq<TimelineActivity>,
                                  current: TimelineActivity) {
    forall i :: 0 <= i < |played| ==>
      played[i] in activities && played[i].startTime >= Before(played, i, current).endTime
  }

  /** The activity starts while one of the played ones runs. */
  ghost predicate StartsDuring(a: TimelineActivity, played: seq<TimelineActivity>) {
    exists i :: 0 <= i < |played| && played[i].startTime <= a.startTime < played[i].endTime
  }

  lemma StartsDuringLater(a: TimelineActivity, first: TimelineActivity, rest: seq<TimelineActivity>)
    requires first.startTime <= a.startTime < first.endTime || StartsDuring(a, rest)
    ensures StartsDuring(a, [first] + rest)
  {
    if StartsDuring(a, rest) {
      var i :| 0 <= i < |rest| && rest[i].startTime <= a.startTime < rest[i].endTime;
      assert ([first] + rest)[i + 1] == rest[i];
    } else {
      assert ([first] + rest)[0] == first;
    }
  }

  lemma OneMoreBefore(first: TimelineActivity, rest: seq<TimelineActivity>, activities: seq<TimelineActivity>,
                      current: TimelineActivity)
    requires first in activities && first.startTime >= current.endTime && OneAfterAnother(rest, activities, first)
    ensures OneAfterAnother([first] + rest, activities, current)
  {
    var played := [first] + rest;
    forall i | 0 <= i < |played|
      ensures played[i] in activities && played[i].startTime >= Before(played, i, current).endTime
    {
      if i > 0 {
        assert played[i] == rest[i - 1] && Before(played, i, current) == Before(rest, i - 1, first);
      }
    }
  }

  /** A play-through ends; its activities are listed ones, each starting at or after the end of the
      one before; and it leaves out only activities that start before the current one ends or while
      another is playing. */
  lemma {:induction false} PlayThroughCovers(activities: seq<TimelineActivity>, current: TimelineActivity)
    requires AscendingBy(activities, ActivityStart)
    requires forall a :: a in activities ==> a.startTime < a.endTime
    ensures |PlayThrough(activities, current)| <= |Remaining(activities, current)|
    ensures OneAfterAnother(PlayThrough(activities, current), activities, current)
    ensures forall a :: a in activities && a.startTime >= current.endTime ==>
              StartsDuring(a, PlayThrough(activities, current))
    decreases Remaining(activities, current)
  {
    NextIsEarliest(activities, current);
    AdvanceShrinks(activities, current);
    var next := NextTimelineActivity(activities, current);
    if next.Some? {
      PlayThroughCovers(activities, next.value);
      OneMoreBefore(next.value, PlayThrough(activities, next.value), activities, current);
      SmallerSet(Remaining(activities, next.value), Remaining(activities, current));
      forall a | a in activities && a.startTime >= current.endTime
        ensures StartsDuring(a, PlayThrough(activities, current))
      {
        StartsDuringLater(a, next.value, PlayThrough(activities, next.value));
      }
    }
  }

  lemma SmallerSet<T>(a: set<T>, b: set<T>)
    requires a < b
    ensures |a| < |b|
  {
    assert |b - a| > 0 && b == a + (b - a);
  }

  // ----- The player's state

  /** Where the loaded video comes from and the stretch of time it shows. */
  datatype PlaybackSource = PlaybackSource(url: string, startTime: real, endTime: real)

  class ActivityPlayback {
    const clips: seq<RecordingRange>
    const activities: seq<TimelineActivity>
    const clipUrl: RecordingRange -> string
    var activeSource: Option<PlaybackSource>
    var activeActivity: Option<TimelineActivity>
    var selectedTime: real
    var startsAfterLoad: bool
    var tracksPlayback: bool

    ghost predicate Valid() {
      && clips != [] && AllPositive(clips)
      && AscendingBy(activities, ActivityStart)
      && forall a :: a in activities ==> a.startTime < a.endTime
    }

    constructor (clips: seq<RecordingRange>, activities: seq<TimelineActivity>, clipUrl: RecordingRange -> string,
                 selectedTime: real)
      requires clips != [] && AllPositive(clips) && AscendingBy(activities, ActivityStart)
      requires forall a :: a in activities ==> a.startTime < a.endTime
      ensures Valid()
      ensures this.clips == clips && this.activities == activities && this.clipUrl == clipUrl
      ensures activeSource == None && activeActivity == None && this.selectedTime == selectedTime
      ensures !startsAfterLoad && !tracksPlayback
    {
      this.clips, this.activities, this.clipUrl, this.selectedTime := clips, activities, clipUrl, selectedTime;
      activeSource, activeActivity, startsAfterLoad, tracksPlayback := None, None, false, false;
    }

    /** When the playhead has reached the end of the activity it plays: moves on to the next one, or
        stops after the last one. Each activity moved to is the
        head of the play-through that was left, so the play-through shortens with every call that
        moves. */
    method Advance(currentTime: real, mediaEnded: bool) returns (handled: bool)
      requires Valid()
      modifies this`activeActivity, this`selectedTime, this`startsAfterLoad, this`tracksPlayback
      ensures handled <==>
              && old(activeActivity).Some? && activeSource.Some?
              && (mediaEnded || activeSource.value.startTime + currentTime >= old(activeActivity).value.endTime)
      ensures !handled ==> activeActivity == old(activeActivity) && selectedTime == old(selectedTime) &&
                           startsAfterLoad == old(startsAfterLoad) && tracksPlayback == old(tracksPlayback)
      ensures handled && PlayThrough(activities, old(activeActivity.value)) != [] ==>
                && activeActivity.Some?
                && PlayThrough(activities, old(activeActivity.value))
                   == [activeActivity.value] + PlayThrough(activities, activeActivity.value)
                && Remaining(activities, activeActivity.value) < Remaining(activities, old(activeActivity.value))
                && selectedTime == PlayableTime(clips, activeActivity.value.startTime)
                && ClipAtTime(clips, selectedTime).Some?
                && startsAfterLoad == (old(startsAfterLoad)
                                       || clipUrl(ClipAtTime(clips, selectedTime).value) != activeSource.value.url)
                && tracksPlayback == old(tracksPlayback)
      ensures handled && PlayThrough(activities, old(activeActivity.value)) == [] ==>
                && activeActivity == old(activeActivity)
                && selectedTime == Min(activeActivity.value.endTime,
                                       activeSource.value.endTime - 0.001)
                && startsAfterLoad == old(startsAfterLoad)
                && !tracksPlayback
    {
      if activeActivity.None? || activeSource.None? {
        return false;
      }
      var activity, source := activeActivity.value, activeSource.value;
      var playbackTime := source.startTime + currentTime;
      if !mediaEnded && playbackTime < activity.endTime {
        return false;
      }
      var nextActivity := NextTimelineActivity(activities, activity);
      AdvanceShrinks(activities, activity);
      if nextActivity.Some? {
        var nextTime := PlayableTime(clips, nextActivity.value.startTime);
        PlayableTimeIsNearest(clips, nextActivity.value.startTime);
        var nextSource := ClipAtTime(clips, nextTime);
        ClipAtTimeFinds(clips, nextTime);
        if nextSource.Some? && clipUrl(nextSource.value) != source.url {
          startsAfterLoad := true;
        }
        activeActivity := nextActivity;
        selectedTime := nextTime;
      } else {
        tracksPlayback := false;
        selectedTime := Min(activity.endTime, source.endTime - SOURCE_END_EPSILON_SECONDS);
      }
      return true;
    }
  }
}
