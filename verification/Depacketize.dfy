/** Frames, errors and the RTP header shared by the depacketizers. */
module Depacketize {
  import opened Bytes
  import opened Options

  datatype Codec = H264 | H265 | Aac

  /** One codec access unit; `timestamp` is the RTP timestamp, unconverted. */
  datatype Frame = Frame(codec: Codec, timestamp: u32, payload: bytes)

  datatype DepacketizeError =
    | RtpTooShort
    | UnsupportedRtpVersion(version: byte)
    | EmptyPayload
    | TruncatedAggregationUnit
    | TruncatedFragmentationUnit
    | FragmentWithoutStart
    | UnsupportedNalUnitType(nalType: byte)
    | TruncatedAccessUnit

  datatype Result<+T> = Success(value: T) | Failure(error: DepacketizeError) {
    predicate IsFailure() { Failure? }

    function PropagateFailure<U>(): Result<U>
      requires Failure?
    {
      Failure(error)
    }

    function Extract(): T
      requires Success?
    {
      value
    }
  }

  const START_CODE: bytes := [0, 0, 0, 1]

  function AnnexBFrame(codec: Codec, timestamp: u32, nal: bytes): Frame {
    Frame(codec, timestamp, START_CODE + nal)
  }

  function AnnexBFrames(codec: Codec, timestamp: u32, nals: seq<bytes>): (frames: seq<Frame>)
    ensures |frames| == |nals|
  {
    seq(|nals|, i requires 0 <= i < |nals| => AnnexBFrame(codec, timestamp, nals[i]))
  }

  // ----- RTP header (RFC 3550 section 5.1)

  datatype RtpHeader = RtpHeader(timestamp: u32, payload: bytes)

  const FIXED_HEADER_LEN := 12

  predicate HasBit(value: byte, bit: nat)
    requires bit > 0
  {
    value / bit % 2 == 1
  }

  /** The timestamp, and the payload without CSRC list, extension header and padding. */
  function ParseRtpHeader(packet: bytes): Result<RtpHeader> {
    if |packet| < FIXED_HEADER_LEN then Failure(RtpTooShort)
    else if packet[0] / 64 != 2 then Failure(UnsupportedRtpVersion(packet[0] / 64))
    else
      var fixed := FIXED_HEADER_LEN + 4 * (packet[0] % 16);
      var offset :- (
        if |packet| < fixed then Failure(RtpTooShort)
        else if HasBit(packet[0], 16) then
          if |packet| < fixed + 4 then Failure(RtpTooShort)
          else
            var extended := fixed + 4 + ReadBe16(packet, fixed + 2) * 4;
            if |packet| < extended then Failure(RtpTooShort) else Success(extended)
        else Success(fixed));
      var padding := if HasBit(packet[0], 32) then packet[|packet| - 1] else 0;
      if |packet| - padding < offset then Failure(RtpTooShort)
      else Success(RtpHeader(ReadBe32(packet, 4), packet[offset..|packet| - padding]))
  }

  // ----- Aggregation (RFC 6184 section 5.7.1, RFC 7798 section 4.4.2)

  /** The length-prefixed units from `offset` on, or `None` when a length runs past the payload. */
  function SplitUnits(payload: bytes, offset: nat): Option<seq<bytes>>
    decreases |payload| - offset
  {
    if offset >= |payload| then Some([])
    else if offset + 2 > |payload| then None
    else
      var end := offset + 2 + ReadBe16(payload, offset);
      if end > |payload| then None
      else
        var rest := SplitUnits(payload, end);
        if rest.None? then None else Some([payload[offset + 2..end]] + rest.value)
  }

  ghost predicate FitLengths(nals: seq<bytes>) {
    forall i :: 0 <= i < |nals| ==> |nals[i]| < U16_LIMIT
  }

  /** Each unit behind its 16-bit length. */
  ghost function JoinUnits(nals: seq<bytes>): bytes
    requires FitLengths(nals)
  {
    if nals == [] then [] else Be16(|nals[0]|) + nals[0] + JoinUnits(nals[1..])
  }

  lemma UnitHead(payload: bytes, offset: nat, nal: bytes, rest: bytes)
    requires offset <= |payload| && |nal| < U16_LIMIT
    requires payload[offset..] == Be16(|nal|) + nal + rest
    ensures offset + 2 + |nal| <= |payload| && ReadBe16(payload, offset) == |nal|
    ensures payload[offset + 2..offset + 2 + |nal|] == nal && payload[offset + 2 + |nal|..] == rest
  {
    var tail := payload[offset..];
    assert payload[offset..offset + 2] == tail[..2] == Be16(|nal|);
    ReadBe16At(payload, offset, |nal|);
    assert payload[offset + 2..offset + 2 + |nal|] == tail[2..2 + |nal|];
    assert payload[offset + 2 + |nal|..] == tail[2 + |nal|..];
  }

  /** Splitting undoes joining, zero-length units included. */
  lemma {:induction false} SplitOfJoin(payload: bytes, offset: nat, nals: seq<bytes>)
    requires FitLengths(nals) && offset <= |payload| && payload[offset..] == JoinUnits(nals)
    ensures SplitUnits(payload, offset) == Some(nals)
    decreases |nals|
  {
    if nals != [] {
      UnitHead(payload, offset, nals[0], JoinUnits(nals[1..]));
      SplitOfJoin(payload, offset + 2 + |nals[0]|, nals[1..]);
      assert nals == [nals[0]] + nals[1..];
    }
  }

  /** A payload splits only if it is exactly such a join. */
  lemma {:induction false} JoinOfSplit(payload: bytes, offset: nat)
    requires offset <= |payload| && SplitUnits(payload, offset).Some?
    ensures FitLengths(SplitUnits(payload, offset).value)
    ensures payload[offset..] == JoinUnits(SplitUnits(payload, offset).value)
    decreases |payload| - offset
  {
    if offset < |payload| {
      var length := ReadBe16(payload, offset);
      var end := offset + 2 + length;
      JoinOfSplit(payload, end);
      assert payload[offset..offset + 2] == Be16(length);
      assert payload[offset..] == payload[offset..offset + 2] + payload[offset + 2..end] + payload[end..];
    }
  }

  /** The bytes are some units, each behind its length. */
  ghost predicate JoinsUnits(data: bytes) {
    exists nals :: FitLengths(nals) && data == JoinUnits(nals)
  }

  lemma SplitsJoins(payload: bytes, offset: nat)
    requires offset <= |payload|
    ensures SplitUnits(payload, offset).Some? <==> JoinsUnits(payload[offset..])
  {
    if SplitUnits(payload, offset).Some? {
      JoinOfSplit(payload, offset);
    }
    if JoinsUnits(payload[offset..]) {
      var nals :| FitLengths(nals) && payload[offset..] == JoinUnits(nals);
      SplitOfJoin(payload, offset, nals);
    }
  }

  ghost function Behind(nals: seq<bytes>, rest: Option<seq<bytes>>): Option<seq<bytes>> {
    if rest.None? then None else Some(nals + rest.value)
  }

  lemma BehindNothing(rest: Option<seq<bytes>>)
    ensures Behind([], rest) == rest
  {
    assert rest.Some? ==> [] + rest.value == rest.value;
  }

  lemma UnitMoves(payload: bytes, offset: nat, nals: seq<bytes>)
    requires offset + 2 <= |payload| && offset + 2 + ReadBe16(payload, offset) <= |payload|
    ensures var end := offset + 2 + ReadBe16(payload, offset);
      Behind(nals, SplitUnits(payload, offset)) == Behind(nals + [payload[offset + 2..end]], SplitUnits(payload, end))
  {
    var end := offset + 2 + ReadBe16(payload, offset);
    var rest := SplitUnits(payload, end);
    var nal := payload[offset + 2..end];
    if rest.Some? {
      assert nals + ([nal] + rest.value) == nals + [nal] + rest.value;
    }
  }

  /** The splitting loop, one frame a unit. */
  method SplitAggregate(codec: Codec, payload: bytes, header: nat, timestamp: u32, frames: seq<Frame>)
    returns (r: Result<seq<Frame>>)
    requires header <= |payload|
    ensures r == match SplitUnits(payload, header)
                 case None => Failure(TruncatedAggregationUnit)
                 case Some(nals) => Success(frames + AnnexBFrames(codec, timestamp, nals))
  {
    var offset := header;
    var pushed := frames;
    ghost var nals: seq<bytes> := [];
    BehindNothing(SplitUnits(payload, offset));
    while offset < |payload|
      invariant header <= offset <= |payload|
      invariant pushed == frames + AnnexBFrames(codec, timestamp, nals)
      invariant SplitUnits(payload, header)
             == Behind(nals, SplitUnits(payload, offset))
    {

      if offset + 2 > |payload| {
        return Failure(TruncatedAggregationUnit);
      }
      var size := ReadBe16(payload, offset);
      offset := offset + 2;
      if offset + size > |payload| {
        return Failure(TruncatedAggregationUnit);
      }
      var nal := payload[offset..offset + size];
      pushed := pushed + [AnnexBFrame(codec, timestamp, nal)];
      UnitMoves(payload, offset - 2, nals);
      nals := nals + [nal];
      offset := offset + size;
      assert AnnexBFrames(codec, timestamp, nals)
          == AnnexBFrames(codec, timestamp, nals[..|nals| - 1]) + [AnnexBFrame(codec, timestamp, nal)];
    }
    assert nals + [] == nals;
    return Success(pushed);
  }
}
