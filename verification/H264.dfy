/** H.264 over RTP (RFC 6184): single NAL units, STAP-A aggregates and FU-A fragments. */
module H264Depacketizing {
  import opened Bytes
  import opened Options
  import opened Depacketize
  import opened Reassembly

  const NAL_TYPE_STAP_A: byte := 24
  const NAL_TYPE_FU_A: byte := 28

  /** The NAL header an FU-A stands for: the indicator's top three bits, the FU header's type. */
  function ReconstructedHeader(indicator: byte, fuHeader: byte): byte {
    indicator / 32 * 32 + fuHeader % 32
  }

  /** What an H.264 payload carries. */
  function Content264(payload: bytes): Content {
    if payload == [] then Bad(EmptyPayload)
    else
      var nalType := payload[0] % 32;
      if 1 <= nalType <= 23 then Whole(payload)
      else if nalType == NAL_TYPE_STAP_A then
        match SplitUnits(payload, 1)
        case None => Bad(TruncatedAggregationUnit)
        case Some(nals) => Aggregate(nals)
      else if nalType == NAL_TYPE_FU_A then
        if |payload| < 2 then Bad(TruncatedFragmentationUnit)
        else Piece(HasBit(payload[1], 128), HasBit(payload[1], 64),
                   [ReconstructedHeader(payload[0], payload[1])], payload[2..])
      else Bad(UnsupportedNalUnitType(nalType))
  }

  class H264Depacketizer {
    var pendingParameterSets: Option<seq<bytes>>
    var fragment: Option<Fragment>

    ghost function Current(): State
      reads this
    {
      State(pendingParameterSets, fragment)
    }

    /** Starts with the parameter sets the session description announced. */
    constructor (parameterSets: seq<bytes>)
      ensures Current() == State(Some(parameterSets), None)
    {
      pendingParameterSets := Some(parameterSets);
      fragment := None;
    }

    /** Schedules new parameter sets; a fragment in progress stays. */
    method Renegotiate(parameterSets: seq<bytes>)
      modifies this
      ensures Current() == State(Some(parameterSets), old(fragment))
    {
      pendingParameterSets := Some(parameterSets);
    }

    method Depacketize(rtpPacket: bytes) returns (r: Result<seq<Frame>>)
      modifies this
      ensures (Current(), r) == Step(H264, old(Current()), PacketArrival(Content264, rtpPacket))
    {
      var parsed := ParseRtpHeader(rtpPacket);
      if parsed.Failure? {
        return Failure(parsed.error);
      }
      var timestamp, payload := parsed.value.timestamp, parsed.value.payload;
      var frames := TakePendingParameterSets(timestamp);
      if payload == [] {
        return Failure(EmptyPayload);
      }
      var nalType := payload[0] % 32;
      if 1 <= nalType <= 23 {
        return Success(frames + [AnnexBFrame(H264, timestamp, payload)]);
      } else if nalType == NAL_TYPE_STAP_A {
        r := SplitAggregate(H264, payload, 1, timestamp, frames);
      } else if nalType == NAL_TYPE_FU_A {
        var reassembled := ReassembleFuA(payload, timestamp);
        if reassembled.Failure? {
          return Failure(reassembled.error);
        }
        return Success(frames + reassembled.value);
      } else {
        return Failure(UnsupportedNalUnitType(nalType));
      }
    }

    method TakePendingParameterSets(timestamp: u32) returns (frames: seq<Frame>)
      modifies this`pendingParameterSets
      ensures pendingParameterSets == None
      ensures frames == PendingFrames(H264, old(pendingParameterSets), timestamp)
    {
      frames := PendingFrames(H264, pendingParameterSets, timestamp);
      pendingParameterSets := None;
    }

    method ReassembleFuA(payload: bytes, timestamp: u32) returns (r: Result<seq<Frame>>)
      requires payload != [] && payload[0] % 32 == NAL_TYPE_FU_A
      modifies this`fragment
      ensures (fragment, r) == Own(H264, old(fragment), Readable(timestamp, Content264(payload)))
    {
      if |payload| < 2 {
        return Failure(TruncatedFragmentationUnit);
      }
      var isStart, isEnd := HasBit(payload[1], 128), HasBit(payload[1], 64);
      var fragmentData := payload[2..];
      if isStart {
        fragment := Some(Fragment([ReconstructedHeader(payload[0], payload[1])] + fragmentData, timestamp));
      } else {
        if fragment.None? {
          return Failure(FragmentWithoutStart);
        }
        fragment := Some(fragment.value.(data := fragment.value.data + fragmentData));
      }
      if isEnd {
        var finished := fragment.value;
        fragment := None;
        return Success([AnnexBFrame(H264, finished.timestamp, finished.data)]);
      }
      return Success([]);
    }
  }

  // ----- The sender's side

  /** One FU-A payload; the reserved bit may have either value. */
  ghost function FuPayload(nalHeader: byte, isStart: bool, isEnd: bool, reserved: bool, data: bytes): bytes {
    [nalHeader / 32 * 32 + 28,
     (if isStart then 128 else 0) + (if isEnd then 64 else 0) + (if reserved then 32 else 0) + nalHeader % 32] + data
  }

  lemma FuContent(nalHeader: byte, isStart: bool, isEnd: bool, reserved: bool, data: bytes)
    ensures Content264(FuPayload(nalHeader, isStart, isEnd, reserved, data)) == Piece(isStart, isEnd, [nalHeader], data)
  {
    var payload := FuPayload(nalHeader, isStart, isEnd, reserved, data);
    assert payload[0] % 32 == 28 && payload[0] / 32 == nalHeader / 32;
    assert payload[1] % 32 == nalHeader % 32;
    assert payload[2..] == data;
  }

  /** The payloads that are rejected, and why: empty ones, types RFC 6184 gives other meanings, an
      FU-A without its second header byte, and a STAP-A that joins no units. */
  lemma BadPayloads(payload: bytes, error: DepacketizeError)
    ensures Content264(payload) == Bad(error) <==>
            if payload == [] then error == EmptyPayload
            else if payload[0] % 32 == 24 then error == TruncatedAggregationUnit && !JoinsUnits(payload[1..])
            else if payload[0] % 32 == 28 then error == TruncatedFragmentationUnit && |payload| == 1
            else error == UnsupportedNalUnitType(payload[0] % 32) && payload[0] % 32 in {0, 25, 26, 27, 29, 30, 31}
  {
    if payload != [] {
      SplitsJoins(payload, 1);
    }
  }

  /** What this codec's senders may do with NAL units. */
  ghost predicate CanSend(sending: Sending) {
    match sending
    case Single(_, nal) => nal != [] && 1 <= nal[0] % 32 <= 23
    case Aggregated(_, header, nals) => |header| == 1 && header[0] % 32 == 24 && FitLengths(nals)
    case Fragmented(_, _, _) => CutsNal(sending, 1)
  }

  ghost function FuHeaders(nalHeader: byte, parts: seq<bytes>, timestamps: seq<u32>, isStart: bool,
                           reserved: bool): seq<RtpHeader>
    requires |parts| == |timestamps|
    decreases |parts|
  {
    if parts == [] then []
    else
      [RtpHeader(timestamps[0], FuPayload(nalHeader, isStart, |parts| == 1, reserved, parts[0]))]
      + FuHeaders(nalHeader, parts[1..], timestamps[1..], false, reserved)
  }

  /** The payloads that send the NAL units. */
  ghost function Payloads(sending: Sending, reserved: bool): seq<RtpHeader>
    requires CanSend(sending)
  {
    match sending
    case Single(timestamp, nal) => [RtpHeader(timestamp, nal)]
    case Aggregated(timestamp, header, nals) => [RtpHeader(timestamp, header + JoinUnits(nals))]
    case Fragmented(nal, parts, timestamps) => FuHeaders(nal[0], parts, timestamps, true, reserved)
  }

  lemma {:induction false} FuArrive(nalHeader: byte, parts: seq<bytes>, timestamps: seq<u32>, isStart: bool,
                                    reserved: bool)
    requires |parts| == |timestamps|
    ensures HeaderArrivals(Content264, FuHeaders(nalHeader, parts, timestamps, isStart, reserved))
         == PiecesOf(CutNal([nalHeader], parts, timestamps), isStart)
    decreases |parts|
  {
    if parts != [] {
      var first := RtpHeader(timestamps[0], FuPayload(nalHeader, isStart, |parts| == 1, reserved, parts[0]));
      FuContent(nalHeader, isStart, |parts| == 1, reserved, parts[0]);
      FuArrive(nalHeader, parts[1..], timestamps[1..], false, reserved);
      HeaderArrivalsSplit(Content264, [first], FuHeaders(nalHeader, parts[1..], timestamps[1..], false, reserved));
      assert HeaderArrivals(Content264, [first]) == [HeaderArrival(Content264, first)];
    }
  }

  lemma PayloadsRead(sending: Sending, reserved: bool)
    requires CanSend(sending)
    ensures ReadAs(Content264, 1, sending, Payloads(sending, reserved))
  {
    match sending
    case Single(_, _) =>
    case Aggregated(_, header, nals) =>
      SplitOfJoin(header + JoinUnits(nals), 1, nals);
    case Fragmented(nal, parts, timestamps) =>
      FuArrive(nal[0], parts, timestamps, true, reserved);
      assert nal[..1] == [nal[0]];
  }

  ghost predicate CanSendAll(stream: seq<Sending>) {
    forall i :: 0 <= i < |stream| ==> CanSend(stream[i])
  }

  ghost function StreamPayloads(stream: seq<Sending>, reserved: bool): (payloads: seq<seq<RtpHeader>>)
    requires CanSendAll(stream)
    ensures |payloads| == |stream|
  {
    seq(|stream|, i requires 0 <= i < |stream| => Payloads(stream[i], reserved))
  }

  lemma StreamRead(stream: seq<Sending>, reserved: bool)
    requires CanSendAll(stream)
    ensures AllReadAs(Content264, 1, stream, StreamPayloads(stream, reserved))
  {
    forall i | 0 <= i < |stream|
      ensures ReadAs(Content264, 1, stream[i], StreamPayloads(stream, reserved)[i])
    {
      PayloadsRead(stream[i], reserved);
    }
  }

  /** Depacketizing inverts packetizing: any NAL units, sent in any of the three ways, come out
      whole and in order, from whatever state the depacketizer is in, behind its pending
      parameter sets. */
  lemma StreamRoundTrip(pending: Option<seq<bytes>>, fragment: Option<Fragment>, packets: seq<bytes>,
                        stream: seq<Sending>, reserved: bool)
    requires CanSendAll(stream) && Carry(packets, Flatten(StreamPayloads(stream, reserved)))
    ensures Timestamped(stream)
    ensures Frames(H264, State(pending, fragment), PacketArrivals(Content264, packets))
         == (if packets == [] then []
             else SetFrames(H264, pending, Flatten(StreamPayloads(stream, reserved))[0].timestamp))
            + AllNalFrames(H264, stream)
  {
    StreamRead(stream, reserved);
    RoundTrip(H264, Content264, 1, pending, fragment, packets, stream, StreamPayloads(stream, reserved));
  }

  /** A NAL unit cut anywhere comes out once, byte for byte and with its first packet's timestamp,
      whatever packets that are not fragments arrive in between, failing ones included. */
  lemma FragmentsSurviveOthers(state: State, packets: seq<bytes>, cuts: seq<Sending>, reserved: bool)
    requires CanSendAll(cuts) && forall i :: 0 <= i < |cuts| ==> cuts[i].Fragmented?
    requires Pieces(PacketArrivals(Content264, packets))
          == HeaderArrivals(Content264, Flatten(StreamPayloads(cuts, reserved)))
    ensures Timestamped(cuts)
    ensures PieceFrames(H264, state, PacketArrivals(Content264, packets)) == AllNalFrames(H264, cuts)
  {
    StreamRead(cuts, reserved);
    FragmentsSurvive(H264, Content264, 1, state, packets, cuts, StreamPayloads(cuts, reserved));
  }

  /** A packet with an empty payload, and one with a slice. */
  const EMPTY_PACKET: bytes := [128, 0, 0, 0, 0, 0, 0, 0, 0, 0, 0, 0]
  const SLICE_PACKET: bytes := [128, 0, 0, 0, 0, 0, 0, 0, 0, 0, 0, 0, 101]

  /** A packet with an empty payload takes the parameter sets with it: the slice comes out alone. */
  lemma EmptyPayloadLosesSets()
    ensures Frames(H264, State(Some([[103]]), None), PacketArrivals(Content264, [EMPTY_PACKET, SLICE_PACKET]))
         == [Frame(H264, 0, [0, 0, 0, 1, 101])]
  {
    var arrivals := PacketArrivals(Content264, [EMPTY_PACKET, SLICE_PACKET]);
    assert ReadBe32(EMPTY_PACKET, 4) == 0 && ReadBe32(SLICE_PACKET, 4) == 0;
    assert EMPTY_PACKET[12..12] == [] && SLICE_PACKET[12..13] == [101];
    assert arrivals[0] == Readable(0, Bad(EmptyPayload));
    assert arrivals[1] == Readable(0, Whole([101]));
    assert arrivals[1..] == [arrivals[1]] && arrivals[1..][1..] == [];
    assert START_CODE + [101] == [0, 0, 0, 1, 101];
    assert Frames(H264, State(None, None), arrivals[1..]) == [Frame(H264, 0, [0, 0, 0, 1, 101])];
  }
}
