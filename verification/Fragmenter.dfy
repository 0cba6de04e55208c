/** Turning a frame stream into fragments and initialization segments. */
module Fragmenting {
  import opened Bytes
  import opened Options
  import opened Boxes
  import opened Depacketize
  import opened Fmp4
  import opened InitSegment

  // ----- Classifying frames

  const H264_NAL_TYPE_SLICE_NON_IDR := 1
  const H264_NAL_TYPE_SLICE_IDR := 5
  const H264_NAL_TYPE_SPS := 7
  const H264_NAL_TYPE_PPS := 8
  const H265_NAL_TYPE_VCL_MAX := 31
  const H265_NAL_TYPE_IRAP_MIN := 16
  const H265_NAL_TYPE_IRAP_MAX := 23
  const H265_NAL_TYPE_VPS := 32
  const H265_NAL_TYPE_SPS := 33
  const H265_NAL_TYPE_PPS := 34

  /** The NAL unit's type bits, read past the start code. */
  function NalType(frame: Frame): Option<nat> {
    if |frame.payload| <= START_CODE_LEN then None
    else
      match frame.codec
      case H264 => Some(frame.payload[START_CODE_LEN] % 32)
      case H265 => Some(frame.payload[START_CODE_LEN] / 2 % 64)
      case Aac => None
  }

  /** Whether the frame carries a coded slice, and then whether it is a keyframe. */
  function Classify(frame: Frame): Option<bool> {
    var nalType :- NalType(frame);
    if frame.codec.H264? then
      if nalType == H264_NAL_TYPE_SLICE_NON_IDR then Some(false)
      else if nalType == H264_NAL_TYPE_SLICE_IDR then Some(true)
      else None
    else if nalType > H265_NAL_TYPE_VCL_MAX then None
    else Some(H265_NAL_TYPE_IRAP_MIN <= nalType <= H265_NAL_TYPE_IRAP_MAX)
  }

  /** The byte behind the start code says that the frame carries a coded slice. */
  ghost predicate IsSlice(frame: Frame) {
    |frame.payload| > 4
    && match frame.codec
       case H264 => frame.payload[4] % 32 == 1 || frame.payload[4] % 32 == 5
       case H265 => frame.payload[4] / 2 % 64 <= 31
       case Aac => false
  }

  /** The slice is one of an IDR picture, or of any H.265 picture that decoding can start at. */
  ghost predicate IsKeyframe(frame: Frame) {
    |frame.payload| > 4
    && match frame.codec
       case H264 => frame.payload[4] % 32 == 5
       case H265 => 16 <= frame.payload[4] / 2 % 64 <= 23
       case Aac => false
  }

  /** Frames are classified by these bytes (ITU-T H.264 table 7-1, ITU-T H.265 table 7-1). */
  lemma ClassifiedByType(frame: Frame)
    ensures Classify(frame) == if IsSlice(frame) then Some(IsKeyframe(frame)) else None
    ensures IsKeyframe(frame) ==> IsSlice(frame)
  {
  }

  // ----- Fragments

  datatype Fragment = Fragment(data: bytes, isKeyframe: bool, durationTicks: u32)

  datatype FragmenterState = FragmenterState(sequenceNumber: u32, previousTimestamp: Option<u32>)

  const NEW_FRAGMENTER := FragmenterState(0, None)

  function SampleDuration(previous: Option<u32>, timestamp: u32): u32 {
    if previous.None? then DEFAULT_FIRST_SAMPLE_DURATION_TICKS
    else
      var elapsed := WrappingSub(timestamp, previous.value);
      if elapsed < 1 then 1 else elapsed
  }

  /** Every sample of the stream fits its box. */
  predicate SampleFits(frame: Frame) {
    |frame.payload| > 4 ==> FitsBox(frame.payload[4..])
  }

  ghost function FragmentOf(sequenceNumber: u32, duration: u32, frame: Frame, isKeyframe: bool): Fragment
    requires |frame.payload| >= 4 && FitsBox(frame.payload[4..])
  {
    Fragment(SerializeAll(FragmentBoxes(sequenceNumber, frame.timestamp, duration, frame.payload[4..],
                                        isKeyframe)),
             isKeyframe, duration)
  }

  /** What one frame does: nothing unless it carries a slice. */
  ghost function FragmenterStep(state: FragmenterState, frame: Frame): (FragmenterState, Option<Fragment>)
    requires SampleFits(frame)
  {
    if !IsSlice(frame) then (state, None)
    else
      var duration := SampleDuration(state.previousTimestamp, frame.timestamp);
      var sequenceNumber := (state.sequenceNumber + 1) % U32_LIMIT;
      (FragmenterState(sequenceNumber, Some(frame.timestamp)),
       Some(FragmentOf(sequenceNumber, duration, frame, IsKeyframe(frame))))
  }

  class Fragmenter {
    var sequenceNumber: u32
    var previousTimestamp: Option<u32>

    ghost function Current(): FragmenterState
      reads this
    {
      FragmenterState(sequenceNumber, previousTimestamp)
    }

    constructor ()
      ensures Current() == NEW_FRAGMENTER
    {
      sequenceNumber := 0;
      previousTimestamp := None;
    }

    method Next(frame: Frame) returns (fragment: Option<Fragment>)
      requires SampleFits(frame)
      modifies this
      ensures (Current(), fragment) == FragmenterStep(old(Current()), frame)
    {
      ClassifiedByType(frame);
      var classified := Classify(frame);
      if classified.None? {
        return None;
      }
      var durationTicks := SampleDuration(previousTimestamp, frame.timestamp);
      previousTimestamp := Some(frame.timestamp);
      sequenceNumber := (sequenceNumber + 1) % U32_LIMIT;
      var data := Fmp4.Fragment(sequenceNumber, frame.timestamp, durationTicks, frame.payload[START_CODE_LEN..],
                                classified.value);
      return Some(Fragment(data, classified.value, durationTicks));
    }
  }

  // ----- Runs

  ghost predicate AllSamplesFit(frames: seq<Frame>) {
    forall i :: 0 <= i < |frames| ==> SampleFits(frames[i])
  }

  /** The fragments of a frame stream, in order. */
  ghost function Fragments(state: FragmenterState, frames: seq<Frame>): seq<Fragment>
    requires AllSamplesFit(frames)
    decreases |frames|
  {
    if frames == [] then []
    else
      var (next, fragment) := FragmenterStep(state, frames[0]);
      (if fragment.Some? then [fragment.value] else []) + Fragments(next, frames[1..])
  }

  /** The frames that carry slices. */
  ghost function Slices(frames: seq<Frame>): (slices: seq<Frame>)
    ensures forall i :: 0 <= i < |slices| ==> IsSlice(slices[i]) && slices[i] in frames
  {
    if frames == [] then []
    else (if IsSlice(frames[0]) then [frames[0]] else []) + Slices(frames[1..])
  }

  function Data(fragments: seq<Fragment>): bytes {
    if fragments == [] then [] else Data(fragments[..|fragments| - 1]) + fragments[|fragments| - 1].data
  }

  function Ticks(fragments: seq<Fragment>): nat {
    if fragments == [] then 0 else Ticks(fragments[..|fragments| - 1]) + fragments[|fragments| - 1].durationTicks
  }

  /** Bytes and ticks add up from the front as well. */
  lemma {:induction false} FirstFragment(first: Fragment, rest: seq<Fragment>)
    ensures Data([first] + rest) == first.data + Data(rest)
    ensures Ticks([first] + rest) == first.durationTicks + Ticks(rest)
  {
    var all := [first] + rest;
    if rest == [] {
      assert all[..0] == [] && [] + first.data == first.data == first.data + [];
    } else {
      var init, last := rest[..|rest| - 1], rest[|rest| - 1];
      FirstFragment(first, init);
      assert all[..|all| - 1] == [first] + init;
      Associate(first.data, Data(init), last.data);
    }
  }

  /** Presentation times before the camera wraps them to 32 bits. */
  ghost predicate Unwraps(slices: seq<Frame>, times: seq<int>) {
    |slices| == |times| && forall i :: 0 <= i < |slices| ==> slices[i].timestamp == times[i] % U32_LIMIT
  }

  /** Slices follow each other, forward or back, by less than a whole wrap. */
  ghost predicate GapsFit(times: seq<int>) {
    forall i :: 0 < i < |times| ==> -U32_LIMIT < times[i] - times[i - 1] < U32_LIMIT
  }

  ghost predicate EachLater(times: seq<int>) {
    forall i :: 0 < i < |times| ==> times[i - 1] < times[i]
  }

  /** How many slices have the timestamp of the one before, and how many step back from it. */
  ghost function Repeats(times: seq<int>): nat {
    if |times| < 2 then 0 else (if times[1] == times[0] then 1 else 0) + Repeats(times[1..])
  }

  ghost function StepsBack(times: seq<int>): nat {
    if |times| < 2 then 0 else (if times[1] < times[0] then 1 else 0) + StepsBack(times[1..])
  }

  lemma {:induction false} NoneRepeatsOrStepsBack(times: seq<int>)
    ensures EachLater(times) <==> Repeats(times) == 0 && StepsBack(times) == 0
  {
    if |times| > 1 {
      NoneRepeatsOrStepsBack(times[1..]);
      assert forall i :: 0 < i < |times[1..]| ==> times[1..][i - 1] == times[i] && times[1..][i] == times[i + 1];
      if EachLater(times[1..]) && times[0] < times[1] {
        forall i | 0 < i < |times|
          ensures times[i - 1] < times[i]
        {
          assert i > 1 ==> times[1..][i - 2] == times[i - 1] && times[1..][i - 1] == times[i];
        }
      }
    }
  }

  /** A sample's duration is the true gap exactly when the gap is at least one tick and less than
      a whole wrap. */
  lemma DurationIsGap(before: int, after: int)
    ensures SampleDuration(Some(before % U32_LIMIT), after % U32_LIMIT) == after - before
       <==> 1 <= after - before < U32_LIMIT
  {
    WrappingSubModulo(after, before);
  }

  /** What a gap's duration has too much: a tick for a repeated timestamp, a whole wrap for a step
      back. */
  lemma DurationOfGap(before: int, after: int)
    requires -U32_LIMIT < after - before < U32_LIMIT
    ensures SampleDuration(Some(before % U32_LIMIT), after % U32_LIMIT)
         == after - before + (if after == before then 1 else if after < before then U32_LIMIT else 0)
  {
    WrappingSubModulo(after, before);
  }

  /** Frames without a slice leave no trace. */
  lemma {:induction false} FragmentsOfSlices(state: FragmenterState, frames: seq<Frame>)
    requires AllSamplesFit(frames)
    ensures AllSamplesFit(Slices(frames)) && Fragments(state, frames) == Fragments(state, Slices(frames))
    decreases |frames|
  {
    if frames != [] {
      var (next, fragment) := FragmenterStep(state, frames[0]);
      var rest := frames[1..];
      FragmentsOfSlices(next, rest);
      if fragment.Some? {
        assert AllSamplesFit([frames[0]] + Slices(rest));
        FragmentsCons(state, frames[0], Slices(rest));
        FragmentsCons(state, frames[0], rest);
        assert frames == [frames[0]] + rest;
      } else {
        assert Slices(frames) == Slices(rest);
        FragmentsCons(state, frames[0], rest);
        assert frames == [frames[0]] + rest;
      }
    }
  }

  lemma FragmentsCons(state: FragmenterState, frame: Frame, rest: seq<Frame>)
    requires SampleFits(frame) && AllSamplesFit(rest)
    ensures AllSamplesFit([frame] + rest)
    ensures var (next, fragment) := FragmenterStep(state, frame);
      Fragments(state, [frame] + rest)
      == if fragment.Some? then [fragment.value] + Fragments(next, rest) else Fragments(next, rest)
  {
    var frames := [frame] + rest;
    assert frames[1..] == rest;
    assert [] + Fragments(FragmenterStep(state, frame).0, rest) == Fragments(FragmenterStep(state, frame).0, rest);
  }

  lemma SliceTicks(state: FragmenterState, slice: Frame, rest: seq<Frame>)
    requires SampleFits(slice) && IsSlice(slice) && AllSamplesFit(rest)
    ensures AllSamplesFit([slice] + rest)
    ensures Ticks(Fragments(state, [slice] + rest))
         == SampleDuration(state.previousTimestamp, slice.timestamp)
            + Ticks(Fragments(FragmenterStep(state, slice).0, rest))
  {
    var (next, fragment) := FragmenterStep(state, slice);
    FragmentsCons(state, slice, rest);
    FirstFragment(fragment.value, Fragments(next, rest));
  }

  lemma FirstGap(before: int, times: seq<int>)
    requires times != [] && GapsFit([before] + times)
    ensures GapsFit(times) && -U32_LIMIT < times[0] - before < U32_LIMIT
    ensures Repeats([before] + times) == (if times[0] == before then 1 else 0) + Repeats(times)
    ensures StepsBack([before] + times) == (if times[0] < before then 1 else 0) + StepsBack(times)
  {
    var all := [before] + times;
    assert all[1..] == times && all[1] == times[0] && all[0] == before;
    forall i | 0 < i < |times|
      ensures -U32_LIMIT < times[i] - times[i - 1] < U32_LIMIT
    {
      assert all[i + 1] == times[i] && all[i] == times[i - 1];
    }
  }

  lemma {:induction false} GapsTelescope(state: FragmenterState, slices: seq<Frame>, before: int, times: seq<int>)
    requires AllSamplesFit(slices) && forall i :: 0 <= i < |slices| ==> IsSlice(slices[i])
    requires Unwraps(slices, times) && GapsFit([before] + times)
    requires state.previousTimestamp == Some(before % U32_LIMIT)
    ensures before + Ticks(Fragments(state, slices))
         == (if slices == [] then before else times[|times| - 1])
            + Repeats([before] + times) + U32_LIMIT * StepsBack([before] + times)
    decreases |slices|
  {
    if slices != [] {
      var next := FragmenterStep(state, slices[0]).0;
      FirstGap(before, times);
      DurationOfGap(before, times[0]);
      assert [times[0]] + times[1..] == times && [slices[0]] + slices[1..] == slices;
      GapsTelescope(next, slices[1..], times[0], times[1..]);
      SliceTicks(state, slices[0], slices[1..]);
    }
  }

  lemma SlicesTelescope(slices: seq<Frame>, times: seq<int>)
    requires AllSamplesFit(slices) && forall i :: 0 <= i < |slices| ==> IsSlice(slices[i])
    requires slices != [] && Unwraps(slices, times) && GapsFit(times)
    ensures Ticks(Fragments(NEW_FRAGMENTER, slices)) + times[0]
         == DEFAULT_FIRST_SAMPLE_DURATION_TICKS + times[|times| - 1] + Repeats(times) + U32_LIMIT * StepsBack(times)
  {
    assert [times[0]] + times[1..] == times && [slices[0]] + slices[1..] == slices;
    SliceTicks(NEW_FRAGMENTER, slices[0], slices[1..]);
    GapsTelescope(FragmenterStep(NEW_FRAGMENTER, slices[0]).0, slices[1..], times[0], times[1..]);
  }

  /** The durations of a stream's fragments add up to the default first one, the true elapsed ticks,
      one tick for every repeated timestamp and a whole wrap for every step back, across any number
      of 32-bit wraps; so to the true elapsed ticks exactly when each slice is later than the one
      before. */
  lemma DurationsTelescope(frames: seq<Frame>, times: seq<int>)
    requires AllSamplesFit(frames)
    requires Unwraps(Slices(frames), times) && GapsFit(times)
    ensures var total := Ticks(Fragments(NEW_FRAGMENTER, frames));
      if times == [] then total == 0
      else
        && total + times[0] == DEFAULT_FIRST_SAMPLE_DURATION_TICKS + times[|times| - 1]
                               + Repeats(times) + U32_LIMIT * StepsBack(times)
        && (total + times[0] == 3000 + times[|times| - 1] <==> EachLater(times))
  {
    FragmentsOfSlices(NEW_FRAGMENTER, frames);
    NoneRepeatsOrStepsBack(times);
    if times != [] {
      SlicesTelescope(Slices(frames), times);
    }
  }

  /** Two slices of one picture have one timestamp: the second lasts a tick nothing elapsed in. */
  lemma SlicesOfOnePicture()
    ensures var slice := Frame(H264, 0, [0, 0, 0, 1, 65]);
      && AllSamplesFit([slice, slice]) && Slices([slice, slice]) == [slice, slice]
      && Ticks(Fragments(NEW_FRAGMENTER, [slice, slice])) == DEFAULT_FIRST_SAMPLE_DURATION_TICKS + 1
  {
    var slice := Frame(H264, 0, [0, 0, 0, 1, 65]);
    assert IsSlice(slice);
    assert [slice, slice][1..] == [slice] && [slice][1..] == [];
    assert Slices([slice]) == [slice];
    DurationsTelescope([slice, slice], [0, 0]);
    assert [0, 0][1..] == [0];
  }

  /** What a player should find in the `i`-th fragment of a stream of slices. */
  ghost function SliceSample(state: FragmenterState, slices: seq<Frame>, i: nat): Sample
    requires AllSamplesFit(slices) && i < |slices| && IsSlice(slices[i])
  {
    var previous := if i == 0 then state.previousTimestamp else Some(slices[i - 1].timestamp);
    Sample((state.sequenceNumber + 1 + i) % U32_LIMIT, slices[i].timestamp,
           SampleDuration(previous, slices[i].timestamp),
           IsKeyframe(slices[i]), slices[i].payload[4..])
  }

  ghost predicate CarriesSample(fragment: Fragment, sample: Sample) {
    && Demux(fragment.data) == Some(sample)
    && fragment.isKeyframe == sample.isKeyframe && fragment.durationTicks == sample.duration
  }

  lemma FragmentCarries(sequenceNumber: u32, duration: u32, frame: Frame, isKeyframe: bool)
    requires |frame.payload| >= 4 && FitsBox(frame.payload[4..])
    ensures CarriesSample(FragmentOf(sequenceNumber, duration, frame, isKeyframe),
                          Sample(sequenceNumber, frame.timestamp, duration, isKeyframe,
                                 frame.payload[4..]))
  {
    DemuxFragment(sequenceNumber, frame.timestamp, duration, frame.payload[4..], isKeyframe);
  }

  lemma StepDemuxes(state: FragmenterState, slices: seq<Frame>)
    requires slices != [] && AllSamplesFit(slices) && IsSlice(slices[0])
    ensures var fragment := FragmenterStep(state, slices[0]).1;
      fragment.Some? && CarriesSample(fragment.value, SliceSample(state, slices, 0))
  {
    FragmentCarries((state.sequenceNumber + 1) % U32_LIMIT,
                    SampleDuration(state.previousTimestamp, slices[0].timestamp),
                    slices[0], IsKeyframe(slices[0]));
  }

  lemma SliceSampleNext(state: FragmenterState, slices: seq<Frame>, i: nat)
    requires AllSamplesFit(slices) && 0 < i < |slices|
    requires IsSlice(slices[0]) && IsSlice(slices[i])
    ensures SliceSample(state, slices, i) == SliceSample(FragmenterStep(state, slices[0]).0, slices[1..], i - 1)
  {
    NextSequence(state.sequenceNumber, i);
  }

  /** Muxing and demuxing a stream gives back its slices, numbered consecutively. */
  lemma {:induction false} StreamDemuxes(state: FragmenterState, slices: seq<Frame>, i: nat)
    requires AllSamplesFit(slices) && forall j :: 0 <= j < |slices| ==> IsSlice(slices[j])
    requires i < |slices|
    ensures i < |Fragments(state, slices)|
    ensures CarriesSample(Fragments(state, slices)[i], SliceSample(state, slices, i))
    decreases |slices|
  {
    StepDemuxes(state, slices);
    FragmentsCons(state, slices[0], slices[1..]);
    assert slices == [slices[0]] + slices[1..];
    if i > 0 {
      StreamDemuxes(FragmenterStep(state, slices[0]).0, slices[1..], i - 1);
      SliceSampleNext(state, slices, i);
    }
  }

  lemma NextSequence(sequenceNumber: u32, i: nat)
    requires i > 0
    ensures ((sequenceNumber + 1) % U32_LIMIT + 1 + (i - 1)) % U32_LIMIT == (sequenceNumber + 1 + i) % U32_LIMIT
  {
    if sequenceNumber + 1 == U32_LIMIT {
      assert (U32_LIMIT + i) % U32_LIMIT == i % U32_LIMIT;
    }
  }

  // ----- Initialization segments

  /** The latest parameter sets seen of each codec. */
  datatype RawSets = RawSets(h264Sps: Option<bytes>, h264Pps: Option<bytes>,
                             h265Vps: Option<bytes>, h265Sps: Option<bytes>, h265Pps: Option<bytes>)

  datatype TrackerState = TrackerState(raw: RawSets, lastEmitted: Option<ParameterSets>)

  const NEW_TRACKER := TrackerState(RawSets(None, None, None, None, None), None)

  function ObserveRaw(raw: RawSets, frame: Frame): RawSets {
    match NalType(frame)
    case None => raw
    case Some(nalType) =>
      var nal := Some(frame.payload[START_CODE_LEN..]);
      if frame.codec.H264? then
        if nalType == H264_NAL_TYPE_SPS then raw.(h264Sps := nal)
        else if nalType == H264_NAL_TYPE_PPS then raw.(h264Pps := nal)
        else raw
      else
        if nalType == H265_NAL_TYPE_VPS then raw.(h265Vps := nal)
        else if nalType == H265_NAL_TYPE_SPS then raw.(h265Sps := nal)
        else if nalType == H265_NAL_TYPE_PPS then raw.(h265Pps := nal)
        else raw
  }

  /** The complete parameter sets of a codec, once each has been seen. */
  function Complete(raw: RawSets, codec: Codec): Option<ParameterSets> {
    match codec
    case H264 =>
      var sps :- raw.h264Sps;
      var pps :- raw.h264Pps;
      Some(H264Sets(sps, pps))
    case H265 =>
      var vps :- raw.h265Vps;
      var sps :- raw.h265Sps;
      var pps :- raw.h265Pps;
      Some(H265Sets(vps, sps, pps))
    case Aac => None
  }

  /** What one frame does: emits the frame's codec's complete sets unless they were emitted last. */
  function TrackerStep(state: TrackerState, frame: Frame): (TrackerState, Option<ParameterSets>) {
    var raw := ObserveRaw(state.raw, frame);
    var current := Complete(raw, frame.codec);
    if current.None? || state.lastEmitted == current then (TrackerState(raw, state.lastEmitted), None)
    else (TrackerState(raw, current), current)
  }

  class InitSegmentTracker {
    var raw: RawSets
    var lastEmitted: Option<ParameterSets>

    ghost function Current(): TrackerState
      reads this
    {
      TrackerState(raw, lastEmitted)
    }

    constructor ()
      ensures Current() == NEW_TRACKER
    {
      raw := RawSets(None, None, None, None, None);
      lastEmitted := None;
    }

    method Observe(frame: Frame) returns (segment: Option<bytes>)
      requires var sets := TrackerStep(Current(), frame).1; sets.Some? ==> Fits(sets.value)
      modifies this
      ensures Current() == TrackerStep(old(Current()), frame).0
      ensures match TrackerStep(old(Current()), frame).1
              case None => segment == None
              case Some(sets) => segment == Some(SerializeAll(InitBoxes(Stsd(sets))))
    {
      raw := ObserveRaw(raw, frame);
      var current := Complete(raw, frame.codec);
      if current.None? || lastEmitted == current {
        return None;
      }
      lastEmitted := current;
      var data := InitSegment.InitSegment(current.value);
      return Some(data);
    }
  }

  function OneOrNone<T>(o: Option<T>): seq<T> {
    if o.Some? then [o.value] else []
  }

  /** Everything a tracker emits over a stream. */
  function Emitted(state: TrackerState, frames: seq<Frame>): seq<ParameterSets>
    decreases |frames|
  {
    if frames == [] then []
    else
      var (next, sets) := TrackerStep(state, frames[0]);
      (if sets.Some? then [sets.value] else []) + Emitted(next, frames[1..])
  }

  /** The last NAL unit of a codec and type that a stream brings. */
  ghost function LastUnit(frames: seq<Frame>, codec: Codec, nalType: nat): Option<bytes> {
    if frames == [] then None
    else
      var last := frames[|frames| - 1];
      if last.codec == codec && IsOfType(last, nalType) then Some(last.payload[4..])
      else LastUnit(frames[..|frames| - 1], codec, nalType)
  }

  ghost predicate IsOfType(frame: Frame, nalType: nat) {
    |frame.payload| > 4
    && match frame.codec
       case H264 => frame.payload[4] % 32 == nalType
       case H265 => frame.payload[4] / 2 % 64 == nalType
       case Aac => false
  }

  /** A codec's parameter sets so far, when all have come: the last unit of each type. */
  ghost function LastSets(frames: seq<Frame>, codec: Codec): Option<ParameterSets> {
    match codec
    case H264 =>
      var sps :- LastUnit(frames, H264, 7);
      var pps :- LastUnit(frames, H264, 8);
      Some(H264Sets(sps, pps))
    case H265 =>
      var vps :- LastUnit(frames, H265, 32);
      var sps :- LastUnit(frames, H265, 33);
      var pps :- LastUnit(frames, H265, 34);
      Some(H265Sets(vps, sps, pps))
    case Aac => None
  }

  /** The parameter sets in force after a stream: those of its last frame whose codec had all. */
  ghost function InForce(frames: seq<Frame>): Option<ParameterSets> {
    if frames == [] then None
    else
      var sets := LastSets(frames, frames[|frames| - 1].codec);
      if sets.Some? then sets else InForce(frames[..|frames| - 1])
  }

  /** The sets a tracker has seen. */
  ghost function SeenAfter(frames: seq<Frame>): RawSets {
    if frames == [] then NEW_TRACKER.raw
    else ObserveRaw(SeenAfter(frames[..|frames| - 1]), frames[|frames| - 1])
  }

  /** They are the last units of their types. */
  lemma {:induction false} SeenAreLast(frames: seq<Frame>)
    ensures SeenAfter(frames) == RawSets(LastUnit(frames, H264, 7), LastUnit(frames, H264, 8),
                                         LastUnit(frames, H265, 32), LastUnit(frames, H265, 33),
                                         LastUnit(frames, H265, 34))
  {
    if frames != [] {
      SeenAreLast(frames[..|frames| - 1]);
    }
  }

  lemma CompleteAreLast(frames: seq<Frame>, codec: Codec)
    ensures Complete(SeenAfter(frames), codec) == LastSets(frames, codec)
  {
    SeenAreLast(frames);
  }

  lemma {:induction false} EmittedPush(state: TrackerState, frames: seq<Frame>, last: Frame)
    ensures Emitted(state, frames + [last])
         == Emitted(state, frames) + OneOrNone(TrackerStep(TrackerFrom(state, frames), last).1)
    decreases |frames|
  {
    if frames == [] {
      assert [] + [last] == [last] && [last][1..] == [];
    } else {
      var (next, sets) := TrackerStep(state, frames[0]);
      assert (frames + [last])[1..] == frames[1..] + [last];
      EmittedPush(next, frames[1..], last);
    }
  }

  ghost function TrackerFrom(state: TrackerState, frames: seq<Frame>): TrackerState
    decreases |frames|
  {
    if frames == [] then state else TrackerFrom(TrackerStep(state, frames[0]).0, frames[1..])
  }

  /** The last segment emitted always holds the parameter sets in force, and no segment repeats the
      one before it. */
  lemma {:induction false} EmittedFollowsSets(frames: seq<Frame>)
    ensures var emitted := Emitted(NEW_TRACKER, frames);
      && InForce(frames) == (if emitted == [] then None else Some(emitted[|emitted| - 1]))
      && forall i :: 0 < i < |emitted| ==> emitted[i] != emitted[i - 1]
    ensures TrackerFrom(NEW_TRACKER, frames) == TrackerState(SeenAfter(frames), InForce(frames))
  {
    if frames != [] {
      var init, last := frames[..|frames| - 1], frames[|frames| - 1];
      assert frames == init + [last];
      EmittedFollowsSets(init);
      EmittedPush(NEW_TRACKER, init, last);
      TrackerPush(NEW_TRACKER, init, last);
      CompleteAreLast(frames, last.codec);
    }
  }

  lemma {:induction false} TrackerPush(state: TrackerState, frames: seq<Frame>, last: Frame)
    ensures TrackerFrom(state, frames + [last]) == TrackerStep(TrackerFrom(state, frames), last).0
    decreases |frames|
  {
    if frames == [] {
      assert [] + [last] == [last] && [last][1..] == [];
    } else {
      assert (frames + [last])[1..] == frames[1..] + [last];
      TrackerPush(TrackerStep(state, frames[0]).0, frames[1..], last);
    }
  }
}
