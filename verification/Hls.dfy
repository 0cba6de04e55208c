/** The HLS packager: a segment cutter, and a camera's sliding window of finished segments, which
    outlives the workers that fill it. */
module Hls {
  import opened Bytes
  import opened Options
  import opened Boxes
  import opened Depacketize
  import opened InitSegment
  import opened RtpClocks
  import opened Fragmenting

  const TARGET_SEGMENT_DURATION_TICKS := VIDEO_CLOCK_RATE_HZ * 2
  const PLAYLIST_WINDOW_SEGMENT_COUNT := 6

  datatype FinishedSegment = FinishedSegment(durationTicks: nat, data: bytes)

  datatype StoredSegment = StoredSegment(sequence: nat, durationTicks: nat, data: bytes)

  // ----- Cutting segments

  datatype BuilderState = BuilderState(current: bytes, durationTicks: nat)

  const NEW_BUILDER := BuilderState([], 0)

  predicate ShouldCut(state: BuilderState, fragment: Fragment) {
    state.current != [] && fragment.isKeyframe && state.durationTicks >= TARGET_SEGMENT_DURATION_TICKS
  }

  function Append(state: BuilderState, fragment: Fragment): BuilderState {
    BuilderState(state.current + fragment.data, state.durationTicks + fragment.durationTicks)
  }

  function Finish(state: BuilderState): FinishedSegment {
    FinishedSegment(state.durationTicks, state.current)
  }

  function BuilderStep(state: BuilderState, fragment: Fragment): (BuilderState, Option<FinishedSegment>) {
    if ShouldCut(state, fragment) then (Append(NEW_BUILDER, fragment), Some(Finish(state)))
    else (Append(state, fragment), None)
  }

  class SegmentBuilder {
    var current: bytes
    var durationTicks: nat

    ghost function State(): BuilderState
      reads this
    {
      BuilderState(current, durationTicks)
    }

    constructor ()
      ensures State() == NEW_BUILDER
    {
      current := [];
      durationTicks := 0;
    }

    method Push(fragment: Fragment) returns (finished: Option<FinishedSegment>)
      modifies this
      ensures (State(), finished) == BuilderStep(old(State()), fragment)
    {
      finished := None;
      if current != [] && fragment.isKeyframe && durationTicks >= TARGET_SEGMENT_DURATION_TICKS {
        var segment := Cut();
        finished := Some(segment);
      }
      current := current + fragment.data;
      durationTicks := durationTicks + fragment.durationTicks;
    }

    method Cut() returns (finished: FinishedSegment)
      modifies this
      ensures State() == NEW_BUILDER && finished == Finish(old(State()))
    {
      finished := FinishedSegment(durationTicks, current);
      current, durationTicks := [], 0;
    }
  }

  /** The segments a run of pushes finishes, and the builder it leaves. */
  function Finished(state: BuilderState, fragments: seq<Fragment>): seq<FinishedSegment>
    decreases |fragments|
  {
    if fragments == [] then []
    else
      var (next, finished) := BuilderStep(state, fragments[0]);
      (if finished.Some? then [finished.value] else []) + Finished(next, fragments[1..])
  }

  function Left(state: BuilderState, fragments: seq<Fragment>): BuilderState
    decreases |fragments|
  {
    if fragments == [] then state else Left(BuilderStep(state, fragments[0]).0, fragments[1..])
  }

  // ----- What the cuts are

  function SegmentOf(group: seq<Fragment>): FinishedSegment {
    FinishedSegment(Ticks(group), Data(group))
  }

  function Flatten(groups: seq<seq<Fragment>>): seq<Fragment> {
    if groups == [] then [] else groups[0] + Flatten(groups[1..])
  }

  /** No keyframe inside the group came after the target was reached: the cut is never late. */
  ghost predicate NeverLate(group: seq<Fragment>) {
    forall k :: 0 < k < |group| && group[k].isKeyframe ==> Ticks(group[..k]) < 180_000
  }

  ghost predicate StartsOnKeyframe(group: seq<Fragment>) {
    group != [] && group[0].isKeyframe
  }

  /** A finished group lasts at least the target and was not cut late. */
  ghost predicate IsFinishedGroup(group: seq<Fragment>) {
    group != [] && Ticks(group) >= 180_000 && NeverLate(group)
  }

  /** The stream dealt to segments: every group but the first, and the open one after any cut,
      starts on a keyframe. */
  ghost predicate IsSegmentation(fragments: seq<Fragment>, groups: seq<seq<Fragment>>, open: seq<Fragment>) {
    && fragments == Flatten(groups) + open
    && (forall i :: 0 <= i < |groups| ==> IsFinishedGroup(groups[i]))
    && (forall i :: 0 < i < |groups| ==> StartsOnKeyframe(groups[i]))
    && NeverLate(open)
    && (groups != [] ==> StartsOnKeyframe(open))
  }

  lemma {:induction false} FlattenPush(groups: seq<seq<Fragment>>, group: seq<Fragment>)
    ensures Flatten(groups + [group]) == Flatten(groups) + group
  {
    if groups == [] {
      assert Flatten([group]) == group + [];
    } else {
      assert (groups + [group])[1..] == groups[1..] + [group];
      FlattenPush(groups[1..], group);
    }
  }

  ghost function SegmentsOf(groups: seq<seq<Fragment>>): (segments: seq<FinishedSegment>)
    ensures |segments| == |groups|
  {
    seq(|groups|, i requires 0 <= i < |groups| => SegmentOf(groups[i]))
  }

  ghost predicate AllHaveData(fragments: seq<Fragment>) {
    forall i :: 0 <= i < |fragments| ==> fragments[i].data != []
  }

  function StateOf(open: seq<Fragment>): BuilderState {
    BuilderState(Data(open), Ticks(open))
  }

  /** One push extends the open group, or finishes it and opens the next. */
  lemma PushSegments(fragments: seq<Fragment>, groups: seq<seq<Fragment>>, open: seq<Fragment>, fragment: Fragment)
    requires IsSegmentation(fragments, groups, open) && AllHaveData(open)
    ensures var cut := ShouldCut(StateOf(open), fragment);
      && BuilderStep(StateOf(open), fragment)
         == (if cut then (StateOf([fragment]), Some(SegmentOf(open))) else (StateOf(open + [fragment]), None))
      && (if cut then IsSegmentation(fragments + [fragment], groups + [open], [fragment])
          else IsSegmentation(fragments + [fragment], groups, open + [fragment]))
  {
    StateOfPush(open, fragment);
    if ShouldCut(StateOf(open), fragment) {
      StateOfPush([], fragment);
      assert [] + [fragment] == [fragment];
      FlattenPush(groups, open);
    } else {
      NeverLatePush(open, fragment);
      assert Flatten(groups) + open + [fragment] == Flatten(groups) + (open + [fragment]);
    }
  }

  lemma StateOfPush(open: seq<Fragment>, fragment: Fragment)
    ensures StateOf(open + [fragment]) == Append(StateOf(open), fragment)
    ensures AllHaveData(open) && open != [] ==> Data(open) != []
  {
    assert (open + [fragment])[..|open|] == open;
  }

  lemma NeverLatePush(open: seq<Fragment>, fragment: Fragment)
    requires NeverLate(open) && AllHaveData(open) && !ShouldCut(StateOf(open), fragment)
    ensures NeverLate(open + [fragment])
  {
    StateOfPush(open, fragment);
    forall k | 0 < k < |open + [fragment]| && (open + [fragment])[k].isKeyframe
      ensures Ticks((open + [fragment])[..k]) < TARGET_SEGMENT_DURATION_TICKS
    {
      assert (open + [fragment])[..k] == open[..k];
      assert k == |open| ==> open[..k] == open;
    }
  }

  /** Running the builder over any stream of non-empty fragments gives a segmentation of it. */
  lemma {:induction false} RunIsSegmentation(before: seq<Fragment>, groups: seq<seq<Fragment>>, open: seq<Fragment>,
                                             fragments: seq<Fragment>)
    returns (allGroups: seq<seq<Fragment>>, lastOpen: seq<Fragment>)
    requires IsSegmentation(before, groups, open) && AllHaveData(before + fragments)
    ensures IsSegmentation(before + fragments, allGroups, lastOpen)
    ensures SegmentsOf(allGroups) == SegmentsOf(groups) + Finished(StateOf(open), fragments)
    ensures Left(StateOf(open), fragments) == StateOf(lastOpen)
    decreases |fragments|
  {
    if fragments == [] {
      assert before + [] == before;
      return groups, open;
    }
    var fragment, rest := fragments[0], fragments[1..];
    assert fragments == [fragment] + rest;
    Associate(before, [fragment], rest);
    OpenHasData(before, groups, open, fragments);
    PushSegments(before, groups, open, fragment);
    if ShouldCut(StateOf(open), fragment) {
      allGroups, lastOpen := RunIsSegmentation(before + [fragment], groups + [open], [fragment], rest);
      assert SegmentsOf(groups + [open]) == SegmentsOf(groups) + [SegmentOf(open)];
      Associate(SegmentsOf(groups), [SegmentOf(open)], Finished(StateOf([fragment]), rest));
    } else {
      allGroups, lastOpen := RunIsSegmentation(before + [fragment], groups, open + [fragment], rest);
    }
  }

  lemma OpenHasData(before: seq<Fragment>, groups: seq<seq<Fragment>>, open: seq<Fragment>, fragments: seq<Fragment>)
    requires before == Flatten(groups) + open && AllHaveData(before + fragments)
    ensures AllHaveData(open)
  {
    forall i | 0 <= i < |open|
      ensures open[i].data != []
    {
      assert open[i] == (before + fragments)[|Flatten(groups)| + i];
    }
  }

  /** The rules leave no freedom: one stream has one segmentation. */
  lemma {:induction false} SegmentationUnique(fragments: seq<Fragment>, groups: seq<seq<Fragment>>, open: seq<Fragment>,
                                              others: seq<seq<Fragment>>, otherOpen: seq<Fragment>)
    requires IsSegmentation(fragments, groups, open) && IsSegmentation(fragments, others, otherOpen)
    ensures groups == others && open == otherOpen
    decreases |groups| + |others|
  {
    if groups == [] && others == [] {
      assert Flatten(groups) + open == open && Flatten(others) + otherOpen == otherOpen;
    } else if groups == [] {
      FirstNotShorter(fragments, others, otherOpen, open);
    } else if others == [] {
      FirstNotShorter(fragments, groups, open, otherOpen);
    } else {
      FirstNotShorter(fragments, groups, open, others[0]);
      FirstNotShorter(fragments, others, otherOpen, groups[0]);
      assert groups[0] == fragments[..|groups[0]|] && others[0] == fragments[..|others[0]|];
      DropFirst(fragments, groups, open);
      DropFirst(fragments, others, otherOpen);
      SegmentationUnique(fragments[|groups[0]|..], groups[1..], open, others[1..], otherOpen);
    }
  }

  lemma TooLate(fragments: seq<Fragment>, other: seq<Fragment>, k: nat)
    requires other <= fragments && 0 < k < |other|
    requires fragments[k].isKeyframe && Ticks(fragments[..k]) >= TARGET_SEGMENT_DURATION_TICKS
    ensures !NeverLate(other)
  {
    assert other[..k] == fragments[..k];
  }

  /** A finished group that stops where another goes on would make the other one late. */
  lemma FirstNotShorter(fragments: seq<Fragment>, groups: seq<seq<Fragment>>, open: seq<Fragment>, other: seq<Fragment>)
    requires IsSegmentation(fragments, groups, open) && groups != []
    requires other <= fragments && NeverLate(other)
    ensures |other| <= |groups[0]|
  {
    var k := |groups[0]|;
    var rest := Flatten(groups[1..]) + open;
    assert fragments == groups[0] + rest;
    assert rest[0].isKeyframe by {
      if |groups| > 1 {
        assert StartsOnKeyframe(groups[1]) && groups[1..][0] == groups[1];
      }
    }
    assert IsFinishedGroup(groups[0]);
    if k < |other| {
      assert fragments[..k] == groups[0] && fragments[k] == rest[0];
      TooLate(fragments, other, k);
    }
  }

  lemma DropFirst(fragments: seq<Fragment>, groups: seq<seq<Fragment>>, open: seq<Fragment>)
    requires IsSegmentation(fragments, groups, open) && groups != []
    ensures IsSegmentation(fragments[|groups[0]|..], groups[1..], open)
  {
    var rest := Flatten(groups[1..]) + open;
    assert fragments == groups[0] + rest;
    assert fragments[|groups[0]|..] == rest;
  }

  /** The finished segments and the open buffer are the groups of the stream's one segmentation:
      all bytes and all ticks are kept, in order. */
  lemma BuilderSegments(fragments: seq<Fragment>) returns (groups: seq<seq<Fragment>>, open: seq<Fragment>)
    requires AllHaveData(fragments)
    ensures IsSegmentation(fragments, groups, open)
    ensures Finished(NEW_BUILDER, fragments) == SegmentsOf(groups)
    ensures Left(NEW_BUILDER, fragments) == StateOf(open)
  {
    groups, open := RunIsSegmentation([], [], [], fragments);
    assert [] + fragments == fragments;
    assert SegmentsOf([]) + Finished(NEW_BUILDER, fragments) == Finished(NEW_BUILDER, fragments);
  }

  function SegmentData(segments: seq<FinishedSegment>): bytes {
    if segments == [] then [] else segments[0].data + SegmentData(segments[1..])
  }

  function SegmentTicks(segments: seq<FinishedSegment>): nat {
    if segments == [] then 0 else segments[0].durationTicks + SegmentTicks(segments[1..])
  }

  /** Whatever the fragments, empty ones included, the finished segments followed by the open buffer
      are exactly their bytes, and the durations add up. */
  lemma {:induction false} BuilderConserves(state: BuilderState, fragments: seq<Fragment>)
    ensures SegmentData(Finished(state, fragments)) + Left(state, fragments).current == state.current + Data(fragments)
    ensures SegmentTicks(Finished(state, fragments)) + Left(state, fragments).durationTicks
         == state.durationTicks + Ticks(fragments)
    decreases |fragments|
  {
    if fragments == [] {
      assert [] + state.current == state.current + [];
    } else {
      var (next, finished) := BuilderStep(state, fragments[0]);
      var later, left := Finished(next, fragments[1..]), Left(next, fragments[1..]);
      BuilderConserves(next, fragments[1..]);
      FirstFragment(fragments[0], fragments[1..]);
      assert [fragments[0]] + fragments[1..] == fragments;
      if finished.Some? {
        assert Finished(state, fragments)[1..] == later;
        Regroup(state.current, SegmentData(later), left.current, fragments[0].data, Data(fragments[1..]));
      } else {
        assert Finished(state, fragments) == later;
        assert state.current + fragments[0].data + Data(fragments[1..])
            == state.current + (fragments[0].data + Data(fragments[1..]));
      }
    }
  }

  /** No finished segment is empty, whatever the fragments. */
  lemma {:induction false} FinishedHaveData(state: BuilderState, fragments: seq<Fragment>)
    ensures forall i :: 0 <= i < |Finished(state, fragments)| ==> Finished(state, fragments)[i].data != []
    decreases |fragments|
  {
    if fragments != [] {
      FinishedHaveData(BuilderStep(state, fragments[0]).0, fragments[1..]);
    }
  }

  lemma Regroup(current: bytes, later: bytes, left: bytes, data: bytes, rest: bytes)
    requires later + left == [] + data + rest
    ensures current + later + left == current + (data + rest)
  {
    assert current + later + left == current + (later + left);
    assert [] + data + rest == data + rest;
  }

  /** A worker's finished segments and open buffer together last the default first sample, the true
      elapsed ticks of its stream, one tick for every repeated timestamp and a whole wrap for every
      step back, across any number of 32-bit wraps. */
  lemma WorkerTicks(frames: seq<Frame>, times: seq<int>)
    requires AllSamplesFit(frames)
    requires Unwraps(Slices(frames), times) && GapsFit(times)
    ensures var fragments := Fragments(NEW_FRAGMENTER, frames);
      var total := SegmentTicks(Finished(NEW_BUILDER, fragments)) + Left(NEW_BUILDER, fragments).durationTicks;
      if times == [] then total == 0
      else
        && total + times[0] == 3000 + times[|times| - 1] + Repeats(times) + U32_LIMIT * StepsBack(times)
        && (total + times[0] == 3000 + times[|times| - 1] <==> EachLater(times))
  {
    DurationsTelescope(frames, times);
    BuilderConserves(NEW_BUILDER, Fragments(NEW_FRAGMENTER, frames));
  }

  // ----- A camera's window

  /** The newest segments of everything a camera ever finished, numbered by position. */
  ghost function Window(log: seq<FinishedSegment>): (segments: seq<StoredSegment>)
    ensures |segments| <= 6 && |segments| <= |log|
  {
    var first := WindowStart(log);
    seq(|log| - first, i requires 0 <= i < |log| - first =>
      StoredSegment(first + i, log[first + i].durationTicks, log[first + i].data))
  }

  ghost function WindowStart(log: seq<FinishedSegment>): (first: nat)
    ensures first <= |log|
  {
    if |log| > 6 then |log| - 6 else 0
  }

  lemma WindowDurations(log: seq<FinishedSegment>)
    ensures |log[WindowStart(log)..]| == |Window(log)|
    ensures forall i :: 0 <= i < |Window(log)| ==>
              log[WindowStart(log)..][i].durationTicks == Window(log)[i].durationTicks
  {
  }

  /** What a playlist lists. */
  datatype Playlist = Playlist(hasInit: bool, targetSeconds: nat, mediaSequence: nat, entries: seq<Entry>)

  datatype Entry = Entry(sequence: nat, millis: nat)

  class CameraHls {
    var init: Option<bytes>
    var segments: seq<StoredSegment>
    var nextSequence: nat
    /** Everything ever finished, oldest first. */
    ghost var log: seq<FinishedSegment>

    ghost predicate Valid()
      reads this
    {
      segments == Window(log) && nextSequence == |log|
    }

    constructor ()
      ensures Valid() && log == [] && init == None
    {
      init, segments, nextSequence, log := None, [], 0, [];
    }

    method SetInit(segment: bytes)
      requires Valid()
      modifies this`init
      ensures Valid() && init == Some(segment)
    {
      init := Some(segment);
    }

    method PushSegment(finished: FinishedSegment)
      requires Valid()
      modifies this`segments, this`nextSequence, this`log
      ensures Valid() && log == old(log) + [finished]
    {
      var sequence := nextSequence;
      nextSequence := nextSequence + 1;
      segments := segments + [StoredSegment(sequence, finished.durationTicks, finished.data)];
      log := log + [finished];
      ghost var all := segments;
      while |segments| > PLAYLIST_WINDOW_SEGMENT_COUNT
        invariant nextSequence == |log| && log == old(log) + [finished]
        invariant |segments| <= |all| && segments == all[|all| - |segments|..]
        invariant |segments| >= if |all| < PLAYLIST_WINDOW_SEGMENT_COUNT then |all| else PLAYLIST_WINDOW_SEGMENT_COUNT
      {
        segments := segments[1..];
      }
    }

    /** A stored segment's bytes: found exactly for the newest sequence numbers. */
    method SegmentBytes(sequence: nat) returns (data: Option<bytes>)
      requires Valid()
      ensures data == if WindowStart(log) <= sequence < |log| then Some(log[sequence].data) else None
    {
      assert WindowStart(log) <= sequence < |log| ==> segments[sequence - WindowStart(log)].sequence == sequence;
      for i := 0 to |segments|
        invariant forall j :: 0 <= j < i ==> segments[j].sequence != sequence
      {
        if segments[i].sequence == sequence {
          return Some(segments[i].data);
        }
      }
      return None;
    }

    method GetPlaylist() returns (playlist: Playlist)
      requires Valid()
      ensures playlist.hasInit == init.Some?
      ensures IsPlaylist(log, playlist)
    {
      var longest := TARGET_SEGMENT_DURATION_TICKS;
      var entries: seq<Entry> := [];
      for i := 0 to |segments|
        invariant TARGET_SEGMENT_DURATION_TICKS <= longest
        invariant longest == TARGET_SEGMENT_DURATION_TICKS
               || exists j :: 0 <= j < i && segments[j].durationTicks == longest
        invariant forall j :: 0 <= j < i ==> segments[j].durationTicks <= longest
        invariant |entries| == i
        invariant forall j :: 0 <= j < i ==>
                    entries[j] == Entry(segments[j].sequence, segments[j].durationTicks * 1000 / VIDEO_CLOCK_RATE_HZ)
      {
        if segments[i].durationTicks > longest {
          longest := segments[i].durationTicks;
        }
        var millis := segments[i].durationTicks * 1000 / VIDEO_CLOCK_RATE_HZ;
        entries := entries + [Entry(segments[i].sequence, millis)];
      }
      var targetSeconds := (longest + VIDEO_CLOCK_RATE_HZ - 1) / VIDEO_CLOCK_RATE_HZ;
      var mediaSequence := if segments == [] then 0 else segments[0].sequence;
      WindowDurations(log);
      return Playlist(init.Some?, targetSeconds, mediaSequence, entries);
    }
  }

  /** The playlist of everything finished so far: an entry for each segment of the window, its
      duration floored to milliseconds; and the target the longest of them, or the cutter's own
      target, rounded up to seconds. */
  ghost predicate IsPlaylist(log: seq<FinishedSegment>, playlist: Playlist) {
    var first := WindowStart(log);
    && |playlist.entries| == |log| - first
    && playlist.mediaSequence == first
    && (forall i :: 0 <= i < |playlist.entries| ==>
          playlist.entries[i] == Entry(first + i, log[first + i].durationTicks * 1000 / 90_000))
    && IsTarget(log[first..], playlist.targetSeconds)
  }

  /** The smallest whole number of seconds that holds the cutter's target and every segment. */
  ghost predicate IsTarget(segments: seq<FinishedSegment>, seconds: nat) {
    && Holds(segments, seconds)
    && (seconds > 0 ==> !Holds(segments, seconds - 1))
  }

  ghost predicate Holds(segments: seq<FinishedSegment>, seconds: nat) {
    && 180_000 <= seconds * 90_000
    && forall i :: 0 <= i < |segments| ==> segments[i].durationTicks <= seconds * 90_000
  }

  // ----- What players may rely on (RFC 8216 sections 4.3.3.1, 4.3.3.2 and 6.2.2)

  /** Sequence numbers run on from the media sequence to the newest segment; no entry's duration
      exceeds the target duration. */
  lemma PlaylistEntries(log: seq<FinishedSegment>, playlist: Playlist)
    requires IsPlaylist(log, playlist)
    ensures |playlist.entries| == if |log| < PLAYLIST_WINDOW_SEGMENT_COUNT then |log| else PLAYLIST_WINDOW_SEGMENT_COUNT
    ensures playlist.mediaSequence + |playlist.entries| == |log|
    ensures forall i :: 0 <= i < |playlist.entries| ==>
              && playlist.entries[i].sequence == playlist.mediaSequence + i
              && playlist.entries[i].millis <= playlist.targetSeconds * 1000
  {
    var first := WindowStart(log);
    forall i | 0 <= i < |playlist.entries|
      ensures playlist.entries[i].millis <= playlist.targetSeconds * 1000
    {
      assert log[first..][i] == log[first + i];
    }
  }

  ghost predicate Outlasts(segment: FinishedSegment, seconds: nat) {
    segment.durationTicks > seconds * 90_000
  }

  /** A segment the playlist lists outlasts so many seconds. */
  ghost predicate ListsLonger(log: seq<FinishedSegment>, seconds: nat) {
    exists i :: WindowStart(log) <= i < |log| && Outlasts(log[i], seconds)
  }

  /** A playlist's target is the given one exactly when no listed segment outlasts it and, unless it
      is the cutter's own two seconds, some listed segment outlasts one second less. */
  lemma TargetIs(log: seq<FinishedSegment>, playlist: Playlist, seconds: nat)
    requires IsPlaylist(log, playlist)
    ensures playlist.targetSeconds == seconds <==>
            seconds >= 2 && !ListsLonger(log, seconds) && (seconds == 2 || ListsLonger(log, seconds - 1))
  {
    var segments := log[WindowStart(log)..];
    HoldsListed(log, playlist.targetSeconds);
    HoldsListed(log, playlist.targetSeconds - 1);
    if seconds >= 2 {
      HoldsListed(log, seconds);
      HoldsListed(log, seconds - 1);
      HoldsMonotone(segments, playlist.targetSeconds, seconds - 1);
      HoldsMonotone(segments, seconds, playlist.targetSeconds - 1);
    }
  }

  lemma HoldsListed(log: seq<FinishedSegment>, seconds: nat)
    ensures Holds(log[WindowStart(log)..], seconds) <==> seconds >= 2 && !ListsLonger(log, seconds)
  {
    var first, segments := WindowStart(log), log[WindowStart(log)..];
    if seconds >= 2 && !Holds(segments, seconds) {
      var i :| 0 <= i < |segments| && segments[i].durationTicks > seconds * VIDEO_CLOCK_RATE_HZ;
      assert Outlasts(log[first + i], seconds);
    }
    if ListsLonger(log, seconds) {
      var i :| first <= i < |log| && Outlasts(log[i], seconds);
      assert segments[i - first] == log[i];
    }
  }

  lemma HoldsMonotone(segments: seq<FinishedSegment>, less: nat, more: nat)
    ensures Holds(segments, less) && less <= more ==> Holds(segments, more)
  {
  }

  /** Between two fetches, however far apart and whichever workers ran in between, the media
      sequence never goes back, and an entry still listed is the same entry. The target duration,
      which RFC 8216 section 6.2.1 says must not change, is the same exactly when no segment listed
      later outlasts it and, unless it is two seconds, some listed one outlasts one second less. */
  lemma PlaylistsAgree(log: seq<FinishedSegment>, later: seq<FinishedSegment>, before: Playlist, after: Playlist)
    requires log <= later && IsPlaylist(log, before) && IsPlaylist(later, after)
    ensures before.mediaSequence <= after.mediaSequence
    ensures forall i, j | 0 <= i < |before.entries| && 0 <= j < |after.entries| ::
              before.entries[i].sequence == after.entries[j].sequence ==> before.entries[i] == after.entries[j]
    ensures before.targetSeconds >= 2
    ensures after.targetSeconds == before.targetSeconds <==>
            !ListsLonger(later, before.targetSeconds)
            && (before.targetSeconds == 2 || ListsLonger(later, before.targetSeconds - 1))
  {
    assert forall k :: 0 <= k < |log| ==> log[k] == later[k];
    TargetIs(log, before, before.targetSeconds);
    TargetIs(later, after, before.targetSeconds);
  }

  const TWO_SECONDS := Fragment([1], true, 180_000)
  const THREE_SECONDS := Fragment([2], true, 270_000)
  const LAST_KEYFRAME := Fragment([3], true, 1)

  /** Keyframes two and then three seconds apart: the cutter finishes both segments, and the target
      grows from two seconds to three. */
  lemma TargetChanges(before: Playlist, after: Playlist)
    requires IsPlaylist(Finished(NEW_BUILDER, [TWO_SECONDS, THREE_SECONDS]), before)
    requires IsPlaylist(Finished(NEW_BUILDER, [TWO_SECONDS, THREE_SECONDS, LAST_KEYFRAME]), after)
    ensures before.targetSeconds == 2 && after.targetSeconds == 3
  {
    TwoSegmentsFinished();
    TwoSecondTarget([FinishedSegment(180_000, [1])], before);
    ThreeSecondTarget([FinishedSegment(180_000, [1]), FinishedSegment(270_000, [2])], after);
  }

  lemma TwoSecondTarget(log: seq<FinishedSegment>, playlist: Playlist)
    requires |log| == 1 && log[0].durationTicks == 180_000 && IsPlaylist(log, playlist)
    ensures playlist.targetSeconds == 2
  {
    TargetIs(log, playlist, 2);
  }

  lemma ThreeSecondTarget(log: seq<FinishedSegment>, playlist: Playlist)
    requires |log| == 2 && log[0].durationTicks == 180_000 && log[1].durationTicks == 270_000
    requires IsPlaylist(log, playlist)
    ensures playlist.targetSeconds == 3
  {
    assert Outlasts(log[1], 2);
    TargetIs(log, playlist, 3);
  }

  lemma TwoSegmentsFinished()
    ensures Finished(NEW_BUILDER, [TWO_SECONDS, THREE_SECONDS]) == [FinishedSegment(180_000, [1])]
    ensures Finished(NEW_BUILDER, [TWO_SECONDS, THREE_SECONDS, LAST_KEYFRAME])
         == [FinishedSegment(180_000, [1]), FinishedSegment(270_000, [2])]
  {
    var first, second, last := BuilderState([1], 180_000), BuilderState([2], 270_000), BuilderState([3], 1);
    assert [] + [1] == [1] && [] + [2] == [2] && [] + [3] == [3];
    assert BuilderStep(NEW_BUILDER, TWO_SECONDS) == (first, None);
    assert BuilderStep(first, THREE_SECONDS) == (second, Some(FinishedSegment(180_000, [1])));
    assert BuilderStep(second, LAST_KEYFRAME) == (last, Some(FinishedSegment(270_000, [2])));
    var two, three := [TWO_SECONDS, THREE_SECONDS], [TWO_SECONDS, THREE_SECONDS, LAST_KEYFRAME];
    assert two[1..] == [THREE_SECONDS] && two[1..][1..] == [];
    assert three[1..] == [THREE_SECONDS, LAST_KEYFRAME] && three[1..][1..] == [LAST_KEYFRAME];
    assert [LAST_KEYFRAME][1..] == [];
    assert Finished(last, []) == [] && Finished(second, []) == [];
    assert Finished(second, [LAST_KEYFRAME]) == [FinishedSegment(270_000, [2])];
    assert Finished(first, three[1..]) == [FinishedSegment(180_000, [1])] + Finished(second, [LAST_KEYFRAME]);
    assert Finished(first, two[1..]) == [FinishedSegment(180_000, [1])] + Finished(second, []);
  }

  // ----- Workers

  ghost predicate AllEmittedFit(state: TrackerState, frames: seq<Frame>) {
    AllSetsFit(Emitted(state, frames))
  }

  ghost predicate AllSetsFit(emitted: seq<ParameterSets>) {
    forall i :: 0 <= i < |emitted| ==> Fits(emitted[i])
  }

  /** What one worker, from its start to the end of its frames, adds to the camera's log. */
  ghost function WorkerSegments(frames: seq<Frame>): seq<FinishedSegment>
    requires AllSamplesFit(frames)
  {
    Finished(NEW_BUILDER, Fragments(NEW_FRAGMENTER, frames))
  }

  ghost function InitBytes(sets: ParameterSets): bytes {
    SerializeAll(InitBoxes(Stsd(sets)))
  }

  /** A worker between two frames, with everything it has emitted and finished. */
  datatype Worker = Worker(tracker: TrackerState, fragmenter: FragmenterState, builder: BuilderState,
                           emitted: seq<ParameterSets>, finished: seq<FinishedSegment>)

  const NEW_WORKER := Worker(NEW_TRACKER, NEW_FRAGMENTER, NEW_BUILDER, [], [])

  /** What a worker's fragmenter and builder make of one frame. */
  ghost function CutStep(fragmenter: FragmenterState, builder: BuilderState,
                         frame: Frame): (BuilderState, Option<FinishedSegment>)
    requires SampleFits(frame)
  {
    var fragment := FragmenterStep(fragmenter, frame).1;
    if fragment.None? then (builder, None) else BuilderStep(builder, fragment.value)
  }

  ghost function WorkerStep(worker: Worker, frame: Frame): Worker
    requires SampleFits(frame)
  {
    var (tracker, sets) := TrackerStep(worker.tracker, frame);
    var (builder, cut) := CutStep(worker.fragmenter, worker.builder, frame);
    Worker(tracker, FragmenterStep(worker.fragmenter, frame).0, builder,
           worker.emitted + OneOrNone(sets), worker.finished + OneOrNone(cut))
  }

  ghost function WorkerAfter(frames: seq<Frame>, n: nat): Worker
    requires AllSamplesFit(frames) && n <= |frames|
  {
    if n == 0 then NEW_WORKER else WorkerStep(WorkerAfter(frames, n - 1), frames[n - 1])
  }

  /** The camera's initialization segment after a worker emitted some. */
  ghost function InitAfter(before: Option<bytes>, emitted: seq<ParameterSets>): Option<bytes> {
    if emitted == [] then before else Some(InitBytes(emitted[|emitted| - 1]))
  }

  /** One worker's objects, and the camera it fills. */
  class HlsWorker {
    const camera: CameraHls
    const initTracker: InitSegmentTracker
    const fragmenter: Fragmenter
    const builder: SegmentBuilder
    ghost const startLog: seq<FinishedSegment>
    ghost const startInit: Option<bytes>
    ghost var emitted: seq<ParameterSets>
    ghost var finished: seq<FinishedSegment>

    ghost function State(): Worker
      reads this, initTracker, fragmenter, builder
    {
      Worker(initTracker.Current(), fragmenter.Current(), builder.State(), emitted, finished)
    }

    /** The camera holds what it held at the worker's start and what the worker made since. */
    ghost predicate Serving()
      reads this, camera
    {
      camera.Valid() && camera.log == startLog + finished && camera.init == InitAfter(startInit, emitted)
    }

    constructor (camera: CameraHls)
      requires camera.Valid()
      ensures State() == NEW_WORKER && Serving()
      ensures this.camera == camera && startLog == camera.log && startInit == camera.init
      ensures fresh(initTracker) && fresh(fragmenter) && fresh(builder)
    {
      this.camera := camera;
      initTracker := new InitSegmentTracker();
      fragmenter := new Fragmenter();
      builder := new SegmentBuilder();
      emitted, finished := [], [];
      startLog, startInit := camera.log, camera.init;
    }

    /** The loop body: one received frame. */
    method HandleFrame(frame: Frame)
      requires Serving() && SampleFits(frame)
      requires var sets := TrackerStep(State().tracker, frame).1; sets.Some? ==> Fits(sets.value)
      modifies this, camera, initTracker, fragmenter, builder
      ensures Serving() && State() == WorkerStep(old(State()), frame)
    {
      ObserveInit(frame);
      CutSegment(frame);
    }

    method ObserveInit(frame: Frame)
      requires Serving()
      requires var sets := TrackerStep(initTracker.Current(), frame).1; sets.Some? ==> Fits(sets.value)
      modifies this`emitted, camera`init, initTracker
      ensures Serving()
      ensures var (tracker, sets) := TrackerStep(old(initTracker.Current()), frame);
        initTracker.Current() == tracker && emitted == old(emitted) + OneOrNone(sets)
    {
      ghost var sets := TrackerStep(initTracker.Current(), frame).1;
      var segment := initTracker.Observe(frame);
      if segment.Some? {
        camera.SetInit(segment.value);
      }
      emitted := emitted + OneOrNone(sets);
    }

    method CutSegment(frame: Frame)
      requires Serving() && SampleFits(frame)
      modifies this`finished, camera`segments, camera`nextSequence, camera`log, fragmenter, builder
      ensures Serving()
      ensures fragmenter.Current() == FragmenterStep(old(fragmenter.Current()), frame).0
      ensures var (next, cut) := CutStep(old(fragmenter.Current()), old(builder.State()), frame);
        builder.State() == next && finished == old(finished) + OneOrNone(cut)
    {
      ghost var cut := CutStep(fragmenter.Current(), builder.State(), frame).1;
      var fragment := fragmenter.Next(frame);
      if fragment.Some? {
        var segment := builder.Push(fragment.value);
        if segment.Some? {
          camera.PushSegment(segment.value);
        }
      }
      finished := finished + OneOrNone(cut);
    }
  }

  /** One worker's loop over the frames it receives; a worker restarted later starts afresh, but
      on the same camera. */
  method RunHlsSegment(camera: CameraHls, frames: seq<Frame>)
    requires camera.Valid() && AllSamplesFit(frames) && AllEmittedFit(NEW_TRACKER, frames)
    modifies camera
    ensures camera.Valid() && camera.log == old(camera.log) + WorkerSegments(frames)
    ensures camera.init == InitAfter(old(camera.init), Emitted(NEW_TRACKER, frames))
  {
    var worker := new HlsWorker(camera);
    for i := 0 to |frames|
      invariant fresh(worker) && fresh(worker.initTracker) && fresh(worker.fragmenter) && fresh(worker.builder)
      invariant worker.Serving() && worker.State() == WorkerAfter(frames, i)
    {
      NextFits(frames, i);
      worker.HandleFrame(frames[i]);
    }
    WorkerEnds(frames);
  }

  lemma WorkerEnds(frames: seq<Frame>)
    requires AllSamplesFit(frames)
    ensures var worker := WorkerAfter(frames, |frames|);
      worker.finished == WorkerSegments(frames) && worker.emitted == Emitted(NEW_TRACKER, frames)
  {
    var worker := WorkerAfter(frames, |frames|);
    WorkerOutput(frames, |frames|);
    assert frames[|frames|..] == [];
    assert worker.finished + [] == worker.finished && worker.emitted + [] == worker.emitted;
  }

  /** Everything a worker emits and finishes in the end. */
  ghost function FinallyFinished(worker: Worker, rest: seq<Frame>): seq<FinishedSegment>
    requires AllSamplesFit(rest)
  {
    worker.finished + Finished(worker.builder, Fragments(worker.fragmenter, rest))
  }

  ghost function FinallyEmitted(worker: Worker, rest: seq<Frame>): seq<ParameterSets> {
    worker.emitted + Emitted(worker.tracker, rest)
  }

  lemma WorkerMoves(worker: Worker, frame: Frame, rest: seq<Frame>)
    requires AllSamplesFit([frame] + rest)
    ensures SampleFits(frame) && AllSamplesFit(rest)
    ensures FinallyFinished(WorkerStep(worker, frame), rest) == FinallyFinished(worker, [frame] + rest)
    ensures FinallyEmitted(WorkerStep(worker, frame), rest) == FinallyEmitted(worker, [frame] + rest)
  {
    SegmentsMove(worker.finished, worker.fragmenter, worker.builder, frame, rest);
    EmittedMoves(worker.emitted, worker.tracker, frame, rest);
  }

  /** What a worker has emitted and finished, with what the rest of its frames will add, is its
      whole output. */
  lemma {:induction false} WorkerOutput(frames: seq<Frame>, i: nat)
    requires AllSamplesFit(frames) && i <= |frames|
    ensures FinallyFinished(WorkerAfter(frames, i), frames[i..]) == WorkerSegments(frames)
    ensures FinallyEmitted(WorkerAfter(frames, i), frames[i..]) == Emitted(NEW_TRACKER, frames)
  {
    if i == 0 {
      assert frames[0..] == frames;
      assert [] + WorkerSegments(frames) == WorkerSegments(frames);
    } else {
      WorkerOutput(frames, i - 1);
      assert frames[i - 1..] == [frames[i - 1]] + frames[i..];
      WorkerMoves(WorkerAfter(frames, i - 1), frames[i - 1], frames[i..]);
    }
  }

  lemma NextFits(frames: seq<Frame>, i: nat)
    requires AllSamplesFit(frames) && AllEmittedFit(NEW_TRACKER, frames) && i < |frames|
    ensures var sets := TrackerStep(WorkerAfter(frames, i).tracker, frames[i]).1; sets.Some? ==> Fits(sets.value)
  {
    var rest := frames[i..];
    assert rest == [frames[i]] + frames[i + 1..];
    WorkerOutput(frames, i);
    NextEmittedFits(WorkerAfter(frames, i), frames[i], rest, frames[i + 1..]);
  }

  lemma NextEmittedFits(worker: Worker, frame: Frame, frames: seq<Frame>, rest: seq<Frame>)
    requires frames == [frame] + rest && AllSetsFit(FinallyEmitted(worker, frames))
    ensures var sets := TrackerStep(worker.tracker, frame).1; sets.Some? ==> Fits(sets.value)
  {
    var (next, sets) := TrackerStep(worker.tracker, frame);
    EmittedCons(worker.tracker, frame, rest);
    OneFits(FinallyEmitted(worker, [frame] + rest), worker.emitted, sets, Emitted(next, rest));
  }

  lemma OneFits(all: seq<ParameterSets>, before: seq<ParameterSets>, sets: Option<ParameterSets>,
                after: seq<ParameterSets>)
    requires all == before + (OneOrNone(sets) + after) && AllSetsFit(all)
    ensures sets.Some? ==> Fits(sets.value)
  {
    if sets.Some? {
      assert all[|before|] == sets.value;
    }
  }

  lemma SegmentsMove(finished: seq<FinishedSegment>, fragmenter: FragmenterState, builder: BuilderState, frame: Frame,
                     rest: seq<Frame>)
    requires AllSamplesFit([frame] + rest)
    ensures SampleFits(frame) && AllSamplesFit(rest)
    ensures var next := FragmenterStep(fragmenter, frame).0;
      var (left, cut) := CutStep(fragmenter, builder, frame);
      finished + Finished(builder, Fragments(fragmenter, [frame] + rest))
      == finished + OneOrNone(cut) + Finished(left, Fragments(next, rest))
  {
    var frames := [frame] + rest;
    assert frames[0] == frame && frames[1..] == rest;
    FragmentsCons(fragmenter, frame, rest);
    var (next, fragment) := FragmenterStep(fragmenter, frame);
    if fragment.Some? {
      FinishedCons(builder, fragment.value, Fragments(next, rest));
    }
  }

  lemma EmittedMoves(emitted: seq<ParameterSets>, state: TrackerState, frame: Frame, rest: seq<Frame>)
    ensures var (next, sets) := TrackerStep(state, frame);
      emitted + Emitted(state, [frame] + rest) == emitted + OneOrNone(sets) + Emitted(next, rest)
  {
    EmittedCons(state, frame, rest);
  }

  lemma EmittedCons(state: TrackerState, frame: Frame, rest: seq<Frame>)
    ensures var (next, sets) := TrackerStep(state, frame);
      Emitted(state, [frame] + rest) == OneOrNone(sets) + Emitted(next, rest)
  {
    assert ([frame] + rest)[1..] == rest;
  }

  lemma FinishedCons(state: BuilderState, fragment: Fragment, rest: seq<Fragment>)
    ensures var (next, finished) := BuilderStep(state, fragment);
      Finished(state, [fragment] + rest) == OneOrNone(finished) + Finished(next, rest)
  {
    assert ([fragment] + rest)[1..] == rest;
  }

  // ----- Whole runs, restarts included

  ghost predicate AllLivesFit(lives: seq<seq<Frame>>) {
    forall i :: 0 <= i < |lives| ==> AllSamplesFit(lives[i])
  }

  /** Everything a camera's workers finish, one worker's life after the other. */
  ghost function CameraLog(lives: seq<seq<Frame>>): seq<FinishedSegment>
    requires AllLivesFit(lives)
  {
    if lives == [] then [] else CameraLog(lives[..|lives| - 1]) + WorkerSegments(lives[|lives| - 1])
  }

  /** A restart never takes back a segment, so no sequence number is used twice. */
  lemma {:induction false} CameraLogGrows(lives: seq<seq<Frame>>, more: seq<seq<Frame>>)
    requires AllLivesFit(lives) && AllLivesFit(lives + more)
    ensures CameraLog(lives) <= CameraLog(lives + more)
    decreases |more|
  {
    if more == [] {
      assert lives + more == lives;
    } else {
      var init := more[..|more| - 1];
      assert (lives + more)[..|lives + more| - 1] == lives + init;
      CameraLogGrows(lives, init);
    }
  }

  lemma FragmentsHaveData(state: FragmenterState, frames: seq<Frame>)
    requires AllSamplesFit(frames)
    ensures AllHaveData(Fragments(state, frames))
    decreases |frames|
  {
    if frames != [] {
      var (next, fragment) := FragmenterStep(state, frames[0]);
      FragmentsHaveData(next, frames[1..]);
      if fragment.Some? {
        HasData(state, frames[0]);
      }
    }
  }

  lemma HasData(state: FragmenterState, frame: Frame)
    requires SampleFits(frame) && IsSlice(frame)
    ensures FragmenterStep(state, frame).1.value.data != []
  {
    var fragment := FragmenterStep(state, frame).1.value;
    assert |fragment.data| > 0;
  }

  /** Every segment ever finished, by whichever worker, lasts at least the cutter's target; it is a
      run of its worker's fragments, and starts on a keyframe unless it is that worker's first. */
  lemma WorkerSegmentsShape(frames: seq<Frame>) returns (groups: seq<seq<Fragment>>, open: seq<Fragment>)
    requires AllSamplesFit(frames)
    ensures IsSegmentation(Fragments(NEW_FRAGMENTER, frames), groups, open)
    ensures WorkerSegments(frames) == SegmentsOf(groups)
    ensures forall i :: 0 <= i < |groups| ==>
              WorkerSegments(frames)[i].durationTicks >= 180_000
  {
    FragmentsHaveData(NEW_FRAGMENTER, frames);
    groups, open := BuilderSegments(Fragments(NEW_FRAGMENTER, frames));
    assert forall i :: 0 <= i < |groups| ==> IsFinishedGroup(groups[i]);
  }
}
