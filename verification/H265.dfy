/** H.265 over RTP (RFC 7798): single NAL units, AP aggregates and FU fragments. */
module H265Depacketizing {
  import opened Bytes
  import opened Options
  import opened Depacketize
  import opened Reassembly

  const NAL_TYPE_AP: byte := 48
  const NAL_TYPE_FU: byte := 49
  const NAL_TYPE_MAX: byte := 40

  /** The six type bits of a NAL header's first byte. */
  function NalType(first: byte): byte {
    first / 2 % 64
  }

  /** The first NAL header byte an FU stands for: the payload header's outer bits, the FU header's
      type. */
  function ReconstructedByte(payloadHeader: byte, fuHeader: byte): byte {
    payloadHeader / 128 * 128 + payloadHeader % 2 + fuHeader % 64 * 2
  }

  /** What an H.265 payload carries. */
  function Content265(payload: bytes): Content {
    if |payload| < 2 then Bad(EmptyPayload)
    else
      var nalType := NalType(payload[0]);
      if nalType == NAL_TYPE_AP then
        match SplitUnits(payload, 2)
        case None => Bad(TruncatedAggregationUnit)
        case Some(nals) => Aggregate(nals)
      else if nalType == NAL_TYPE_FU then
        if |payload| < 3 then Bad(TruncatedFragmentationUnit)
        else Piece(HasBit(payload[2], 128), HasBit(payload[2], 64),
                   [ReconstructedByte(payload[0], payload[2]), payload[1]], payload[3..])
      else if nalType <= NAL_TYPE_MAX then Whole(payload)
      else Bad(UnsupportedNalUnitType(nalType))
  }

  class H265Depacketizer {
    var pendingParameterSets: Option<seq<bytes>>
    var fragment: Option<Fragment>

    ghost function Current(): State
      reads this
    {
      State(pendingParameterSets, fragment)
    }

    /** Starts with the parameter sets the session description announced. */
    constructor (parameterSets: seq<bytes>)
      ensures Current() == State(Some(parameterSets), None)
    {
      pendingParameterSets := Some(parameterSets);
      fragment := None;
    }

    /** Schedules new parameter sets; a fragment in progress stays. */
    method Renegotiate(parameterSets: seq<bytes>)
      modifies this
      ensures Current() == State(Some(parameterSets), old(fragment))
    {
      pendingParameterSets := Some(parameterSets);
    }

    method Depacketize(rtpPacket: bytes) returns (r: Result<seq<Frame>>)
      modifies this
      ensures (Current(), r) == Step(H265, old(Current()), PacketArrival(Content265, rtpPacket))
    {
      var parsed := ParseRtpHeader(rtpPacket);
      if parsed.Failure? {
        return Failure(parsed.error);
      }
      var timestamp, payload := parsed.value.timestamp, parsed.value.payload;
      var frames := TakePendingParameterSets(timestamp);
      if |payload| < 2 {
        return Failure(EmptyPayload);
      }
      var nalType := NalType(payload[0]);
      if nalType == NAL_TYPE_AP {
        r := SplitAggregate(H265, payload, 2, timestamp, frames);
      } else if nalType == NAL_TYPE_FU {
        var reassembled := ReassembleFu(payload, timestamp);
        if reassembled.Failure? {
          return Failure(reassembled.error);
        }
        return Success(frames + reassembled.value);
      } else if nalType <= NAL_TYPE_MAX {
        return Success(frames + [AnnexBFrame(H265, timestamp, payload)]);
      } else {
        return Failure(UnsupportedNalUnitType(nalType));
      }
    }

    method TakePendingParameterSets(timestamp: u32) returns (frames: seq<Frame>)
      modifies this`pendingParameterSets
      ensures pendingParameterSets == None
      ensures frames == PendingFrames(H265, old(pendingParameterSets), timestamp)
    {
      frames := PendingFrames(H265, pendingParameterSets, timestamp);
      pendingParameterSets := None;
    }

    method ReassembleFu(payload: bytes, timestamp: u32) returns (r: Result<seq<Frame>>)
      requires |payload| >= 2 && NalType(payload[0]) == NAL_TYPE_FU
      modifies this`fragment
      ensures (fragment, r) == Own(H265, old(fragment), Readable(timestamp, Content265(payload)))
    {
      if |payload| < 3 {
        return Failure(TruncatedFragmentationUnit);
      }
      var isStart, isEnd := HasBit(payload[2], 128), HasBit(payload[2], 64);
      var reconstructed := ReconstructedByte(payload[0], payload[2]);
      var fragmentData := payload[3..];
      if isStart {
        fragment := Some(Fragment([reconstructed, payload[1]] + fragmentData, timestamp));
      } else {
        if fragment.None? {
          return Failure(FragmentWithoutStart);
        }
        fragment := Some(fragment.value.(data := fragment.value.data + fragmentData));
      }
      if isEnd {
        var finished := fragment.value;
        fragment := None;
        return Success([AnnexBFrame(H265, finished.timestamp, finished.data)]);
      }
      return Success([]);
    }
  }

  // ----- The sender's side

  /** One FU payload. */
  ghost function FuPayload(first: byte, second: byte, isStart: bool, isEnd: bool, data: bytes): bytes {
    [first / 128 * 128 + 98 + first % 2, second,
     (if isStart then 128 else 0) + (if isEnd then 64 else 0) + first / 2 % 64] + data
  }

  lemma FuContent(first: byte, second: byte, isStart: bool, isEnd: bool, data: bytes)
    ensures Content265(FuPayload(first, second, isStart, isEnd, data)) == Piece(isStart, isEnd, [first, second], data)
  {
    var payload := FuPayload(first, second, isStart, isEnd, data);
    assert payload[0] / 128 == first / 128 && NalType(payload[0]) == NAL_TYPE_FU && payload[0] % 2 == first % 2;
    assert payload[2] % 64 == NalType(first);
    assert first == first / 128 * 128 + NalType(first) * 2 + first % 2;
    assert payload[3..] == data;
  }

  /** The payloads that are rejected, and why: those without a NAL header, types above 40 with other
      meanings, an FU without its third header byte, and an AP that joins no units. */
  lemma BadPayloads(payload: bytes, error: DepacketizeError)
    ensures Content265(payload) == Bad(error) <==>
            if |payload| < 2 then error == EmptyPayload
            else if payload[0] / 2 % 64 == 48 then error == TruncatedAggregationUnit && !JoinsUnits(payload[2..])
            else if payload[0] / 2 % 64 == 49 then error == TruncatedFragmentationUnit && |payload| == 2
            else error == UnsupportedNalUnitType(payload[0] / 2 % 64) && payload[0] / 2 % 64 > 40
  {
    if |payload| >= 2 {
      SplitsJoins(payload, 2);
    }
  }

  /** What this codec's senders may do with NAL units. */
  ghost predicate CanSend(sending: Sending) {
    match sending
    case Single(_, nal) => |nal| >= 2 && nal[0] / 2 % 64 <= 40
    case Aggregated(_, header, nals) => |header| == 2 && header[0] / 2 % 64 == 48 && FitLengths(nals)
    case Fragmented(_, _, _) => CutsNal(sending, 2)
  }

  ghost function FuHeaders(first: byte, second: byte, parts: seq<bytes>, timestamps: seq<u32>,
                           isStart: bool): seq<RtpHeader>
    requires |parts| == |timestamps|
    decreases |parts|
  {
    if parts == [] then []
    else
      [RtpHeader(timestamps[0], FuPayload(first, second, isStart, |parts| == 1, parts[0]))]
      + FuHeaders(first, second, parts[1..], timestamps[1..], false)
  }

  /** The payloads that send the NAL units. */
  ghost function Payloads(sending: Sending): seq<RtpHeader>
    requires CanSend(sending)
  {
    match sending
    case Single(timestamp, nal) => [RtpHeader(timestamp, nal)]
    case Aggregated(timestamp, header, nals) => [RtpHeader(timestamp, header + JoinUnits(nals))]
    case Fragmented(nal, parts, timestamps) => FuHeaders(nal[0], nal[1], parts, timestamps, true)
  }

  lemma {:induction false} FuArrive(first: byte, second: byte, parts: seq<bytes>, timestamps: seq<u32>, isStart: bool)
    requires |parts| == |timestamps|
    ensures HeaderArrivals(Content265, FuHeaders(first, second, parts, timestamps, isStart))
         == PiecesOf(CutNal([first, second], parts, timestamps), isStart)
    decreases |parts|
  {
    if parts != [] {
      var header := RtpHeader(timestamps[0], FuPayload(first, second, isStart, |parts| == 1, parts[0]));
      FuContent(first, second, isStart, |parts| == 1, parts[0]);
      FuArrive(first, second, parts[1..], timestamps[1..], false);
      HeaderArrivalsSplit(Content265, [header], FuHeaders(first, second, parts[1..], timestamps[1..], false));
      assert HeaderArrivals(Content265, [header]) == [HeaderArrival(Content265, header)];
    }
  }

  lemma PayloadsRead(sending: Sending)
    requires CanSend(sending)
    ensures ReadAs(Content265, 2, sending, Payloads(sending))
  {
    match sending
    case Single(_, _) =>
    case Aggregated(_, header, nals) =>
      SplitOfJoin(header + JoinUnits(nals), 2, nals);
    case Fragmented(nal, parts, timestamps) =>
      FuArrive(nal[0], nal[1], parts, timestamps, true);
      assert nal[..2] == [nal[0], nal[1]];
  }

  ghost predicate CanSendAll(stream: seq<Sending>) {
    forall i :: 0 <= i < |stream| ==> CanSend(stream[i])
  }

  ghost function StreamPayloads(stream: seq<Sending>): (payloads: seq<seq<RtpHeader>>)
    requires CanSendAll(stream)
    ensures |payloads| == |stream|
  {
    seq(|stream|, i requires 0 <= i < |stream| => Payloads(stream[i]))
  }

  lemma StreamRead(stream: seq<Sending>)
    requires CanSendAll(stream)
    ensures AllReadAs(Content265, 2, stream, StreamPayloads(stream))
  {
    forall i | 0 <= i < |stream|
      ensures ReadAs(Content265, 2, stream[i], StreamPayloads(stream)[i])
    {
      PayloadsRead(stream[i]);
    }
  }

  /** Depacketizing inverts packetizing: any NAL units, sent in any of the three ways, come out
      whole and in order, from whatever state the depacketizer is in, behind its pending
      parameter sets. */
  lemma StreamRoundTrip(pending: Option<seq<bytes>>, fragment: Option<Fragment>, packets: seq<bytes>,
                        stream: seq<Sending>)
    requires CanSendAll(stream) && Carry(packets, Flatten(StreamPayloads(stream)))
    ensures Timestamped(stream)
    ensures Frames(H265, State(pending, fragment), PacketArrivals(Content265, packets))
         == (if packets == [] then []
             else SetFrames(H265, pending, Flatten(StreamPayloads(stream))[0].timestamp))
            + AllNalFrames(H265, stream)
  {
    StreamRead(stream);
    RoundTrip(H265, Content265, 2, pending, fragment, packets, stream, StreamPayloads(stream));
  }

  /** A NAL unit cut anywhere comes out once, byte for byte and with its first packet's timestamp,
      whatever packets that are not fragments arrive in between, failing ones included. */
  lemma FragmentsSurviveOthers(state: State, packets: seq<bytes>, cuts: seq<Sending>)
    requires CanSendAll(cuts) && forall i :: 0 <= i < |cuts| ==> cuts[i].Fragmented?
    requires Pieces(PacketArrivals(Content265, packets)) == HeaderArrivals(Content265, Flatten(StreamPayloads(cuts)))
    ensures Timestamped(cuts)
    ensures PieceFrames(H265, state, PacketArrivals(Content265, packets)) == AllNalFrames(H265, cuts)
  {
    StreamRead(cuts);
    FragmentsSurvive(H265, Content265, 2, state, packets, cuts, StreamPayloads(cuts));
  }
}
