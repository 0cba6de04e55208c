/** Which of a camera's segments can be decoded from their own first sample, when workers are
    restarted on it. */
module HlsRestarts {
  import opened Bytes
  import opened Options
  import opened Depacketize
  import opened Fragmenting
  import opened Hls

  /** The first slice a worker receives is a keyframe. */
  ghost predicate OpensOnKeyframe(frames: seq<Frame>) {
    Slices(frames) != [] && IsKeyframe(Slices(frames)[0])
  }

  ghost predicate Finishes(lives: seq<seq<Frame>>, i: nat)
    requires AllLivesFit(lives) && i < |lives|
  {
    WorkerSegments(lives[i]) != []
  }

  /** The worker finishes segments on a camera that has some. */
  ghost predicate Resumes(lives: seq<seq<Frame>>, i: nat)
    requires AllLivesFit(lives) && i < |lives|
  {
    Finishes(lives, i) && exists k :: 0 <= k < i && Finishes(lives, k)
  }

  /** The `j`-th segment of the `i`-th worker is not the camera's first. */
  ghost predicate IsLater(lives: seq<seq<Frame>>, i: nat, j: nat)
    requires AllLivesFit(lives) && i < |lives|
  {
    j > 0 || Resumes(lives, i)
  }

  /** The fragments of each worker, dealt to its segments. */
  ghost predicate DealtTo(lives: seq<seq<Frame>>, groups: seq<seq<seq<Fragment>>>)
    requires AllLivesFit(lives)
  {
    |groups| == |lives|
    && forall i :: 0 <= i < |lives| ==> IsDealt(lives[i], groups[i])
  }

  ghost predicate IsDealt(frames: seq<Frame>, groups: seq<seq<Fragment>>)
    requires AllSamplesFit(frames)
  {
    && WorkerSegments(frames) == SegmentsOf(groups)
    && exists open :: IsSegmentation(Fragments(NEW_FRAGMENTER, frames), groups, open)
  }

  lemma FirstFragmentKeyframe(frames: seq<Frame>)
    requires AllSamplesFit(frames)
    ensures var fragments := Fragments(NEW_FRAGMENTER, frames);
      fragments != [] ==> (fragments[0].isKeyframe <==> OpensOnKeyframe(frames))
  {
    var slices := Slices(frames);
    FragmentsOfSlices(NEW_FRAGMENTER, frames);
    if slices != [] {
      assert slices == [slices[0]] + slices[1..];
      FragmentsCons(NEW_FRAGMENTER, slices[0], slices[1..]);
    }
  }

  /** A worker's first segment starts on a keyframe exactly when the worker's first slice is one,
      and its later segments always do. */
  lemma SegmentStarts(frames: seq<Frame>, groups: seq<seq<Fragment>>, j: nat)
    requires AllSamplesFit(frames) && IsDealt(frames, groups) && j < |groups|
    ensures StartsOnKeyframe(groups[j]) <==> j > 0 || OpensOnKeyframe(frames)
  {
    var open :| IsSegmentation(Fragments(NEW_FRAGMENTER, frames), groups, open);
    if j == 0 {
      assert IsFinishedGroup(groups[0]);
      assert Fragments(NEW_FRAGMENTER, frames)[0] == groups[0][0];
      FirstFragmentKeyframe(frames);
    }
  }

  /** However often workers are restarted, every segment of a camera after its first starts on a
      keyframe exactly when every worker that finishes segments after another one did has received a
      keyframe as its first slice. */
  lemma LaterSegmentsStartOnKeyframes(lives: seq<seq<Frame>>, groups: seq<seq<seq<Fragment>>>)
    requires AllLivesFit(lives) && DealtTo(lives, groups)
    ensures (forall i, j :: 0 <= i < |lives| && 0 <= j < |groups[i]| && IsLater(lives, i, j) ==>
               StartsOnKeyframe(groups[i][j]))
       <==> (forall i :: 0 <= i < |lives| && Resumes(lives, i) ==> OpensOnKeyframe(lives[i]))
  {
    forall i, j | 0 <= i < |lives| && 0 <= j < |groups[i]|
      ensures StartsOnKeyframe(groups[i][j]) <==> j > 0 || OpensOnKeyframe(lives[i])
    {
      assert IsDealt(lives[i], groups[i]);
      SegmentStarts(lives[i], groups[i], j);
    }
    forall i | 0 <= i < |lives| && Resumes(lives, i)
      ensures |groups[i]| > 0 && IsLater(lives, i, 0)
    {
      assert IsDealt(lives[i], groups[i]);
    }
  }

  /** There is always such a dealing. */
  lemma {:induction false} SegmentsDealt(lives: seq<seq<Frame>>) returns (groups: seq<seq<seq<Fragment>>>)
    requires AllLivesFit(lives)
    ensures DealtTo(lives, groups)
  {
    if lives == [] {
      groups := [];
    } else {
      var last := |lives| - 1;
      groups := SegmentsDealt(lives[..last]);
      var group, open := WorkerSegmentsShape(lives[last]);
      groups := groups + [group];
      forall i | 0 <= i < |lives|
        ensures IsDealt(lives[i], groups[i])
      {
        if i < last {
          assert lives[..last][i] == lives[i] && IsDealt(lives[..last][i], groups[i]);
        }
      }
    }
  }

  // ----- A worker restarted between keyframes

  const SLICE: seq<byte> := [0, 0, 0, 1, 65]
  const KEYFRAME: seq<byte> := [0, 0, 0, 1, 101]

  /** A first slice, and two keyframes two seconds apart. */
  function Life(first: seq<byte>): seq<Frame> {
    [Frame(H264, 0, first), Frame(H264, 180_000, KEYFRAME), Frame(H264, 360_000, KEYFRAME)]
  }

  /** A worker that starts in the middle of a picture group finishes a segment that does not start on
      a keyframe, behind the segment of an earlier worker. */
  lemma RestartBetweenKeyframes()
    ensures AllLivesFit([Life(KEYFRAME), Life(SLICE)])
    ensures Resumes([Life(KEYFRAME), Life(SLICE)], 1) && !OpensOnKeyframe(Life(SLICE))
  {
    var lives := [Life(KEYFRAME), Life(SLICE)];
    LifeFinishes(KEYFRAME);
    LifeFinishes(SLICE);
    assert Finishes(lives, 0) && Finishes(lives, 1);
    assert Slices(Life(SLICE))[0] == Life(SLICE)[0];
  }

  lemma LifeFinishes(first: seq<byte>)
    requires first == SLICE || first == KEYFRAME
    ensures AllSamplesFit(Life(first)) && WorkerSegments(Life(first)) != []
    ensures Slices(Life(first)) == Life(first)
  {
    var frames := Life(first);
    assert IsSlice(frames[0]) && IsKeyframe(frames[1]) && IsKeyframe(frames[2]);
    LifeFragments(frames);
    var fragments := Fragments(NEW_FRAGMENTER, frames);
    FragmentsHaveData(NEW_FRAGMENTER, frames);
    BuilderFinishes(fragments);
  }

  lemma LifeFragments(frames: seq<Frame>)
    requires |frames| == 3 && AllSamplesFit(frames)
    requires IsSlice(frames[0]) && IsKeyframe(frames[1]) && IsKeyframe(frames[2])
    requires frames[0].timestamp == 0 && frames[1].timestamp == 180_000
    ensures Slices(frames) == frames
    ensures var fragments := Fragments(NEW_FRAGMENTER, frames);
      && |fragments| == 3 && fragments[0].durationTicks == 3000 && fragments[1].durationTicks == 180_000
      && fragments[1].isKeyframe && fragments[2].isKeyframe
  {
    var a := FragmenterStep(NEW_FRAGMENTER, frames[0]).0;
    var b := FragmenterStep(a, frames[1]).0;
    FirstSlice(NEW_FRAGMENTER, frames, frames[1..]);
    FirstSlice(a, frames[1..], frames[2..]);
    FirstSlice(b, frames[2..], []);
  }

  lemma FirstSlice(state: FragmenterState, frames: seq<Frame>, rest: seq<Frame>)
    requires frames != [] && rest == frames[1..] && AllSamplesFit(frames) && IsSlice(frames[0])
    ensures Slices(frames) == [frames[0]] + Slices(rest)
    ensures var (next, fragment) := FragmenterStep(state, frames[0]);
      && next.previousTimestamp == Some(frames[0].timestamp) && fragment.Some?
      && Fragments(state, frames) == [fragment.value] + Fragments(next, rest)
      && fragment.value.durationTicks == SampleDuration(state.previousTimestamp, frames[0].timestamp)
      && (fragment.value.isKeyframe <==> IsKeyframe(frames[0]))
  {
    assert frames == [frames[0]] + rest;
    FragmentsCons(state, frames[0], rest);
  }

  lemma BuilderFinishes(fragments: seq<Fragment>)
    requires |fragments| == 3 && AllHaveData(fragments)
    requires fragments[0].durationTicks == 3000 && fragments[1].durationTicks == 180_000
    requires fragments[1].isKeyframe && fragments[2].isKeyframe
    ensures Finished(NEW_BUILDER, fragments) != []
  {
    assert fragments == [fragments[0]] + fragments[1..] && fragments[1..] == [fragments[1]] + fragments[2..];
    assert fragments[2..] == [fragments[2]] + [];
    var a := BuilderStep(NEW_BUILDER, fragments[0]).0;
    var b := BuilderStep(a, fragments[1]).0;
    FinishedCons(NEW_BUILDER, fragments[0], fragments[1..]);
    FinishedCons(a, fragments[1], fragments[2..]);
    FinishedCons(b, fragments[2], []);
    assert fragments[1].data != [];
  }
}
