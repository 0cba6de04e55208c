/** What a depacketizer does with each arriving packet, whichever codec's bits the packet
    carries: parameter sets wait for the next readable packet, whole and aggregated NAL units
    come out at once, and fragments are collected until one ends. */
module Reassembly {
  import opened Bytes
  import opened Options
  import opened Depacketize
  import opened RtpPackets

  /** A NAL unit in progress. */
  datatype Fragment = Fragment(data: bytes, timestamp: u32)

  datatype State = State(pending: Option<seq<bytes>>, fragment: Option<Fragment>)

  /** What a payload carries. A piece brings the NAL header its fragment header stands for. */
  datatype Content =
    | Whole(nal: bytes)
    | Aggregate(nals: seq<bytes>)
    | Piece(isStart: bool, isEnd: bool, header: bytes, data: bytes)
    | Bad(error: DepacketizeError)

  /** A packet, once its RTP header has been read or found unreadable. */
  datatype Arrival = Unreadable(error: DepacketizeError) | Readable(timestamp: u32, content: Content)

  function PendingFrames(codec: Codec, pending: Option<seq<bytes>>, timestamp: u32): seq<Frame> {
    if pending.None? then [] else AnnexBFrames(codec, timestamp, pending.value)
  }

  /** The fragment after a piece, and the frame the piece completes. */
  function Collect(codec: Codec, fragment: Option<Fragment>, timestamp: u32,
                   piece: Content): (Option<Fragment>, Result<seq<Frame>>)
    requires piece.Piece?
  {
    if !piece.isStart && fragment.None? then (None, Failure(FragmentWithoutStart))
    else
      var grown := if piece.isStart then Fragment(piece.header + piece.data, timestamp)
                   else fragment.value.(data := fragment.value.data + piece.data);
      if piece.isEnd then (None, Success([AnnexBFrame(codec, grown.timestamp, grown.data)]))
      else (Some(grown), Success([]))
  }

  /** The frames the packet itself completes, and the fragment it leaves. */
  function Own(codec: Codec, fragment: Option<Fragment>, arrival: Arrival): (Option<Fragment>, Result<seq<Frame>>) {
    match arrival
    case Unreadable(error) => (fragment, Failure(error))
    case Readable(timestamp, content) =>
      match content
      case Bad(error) => (fragment, Failure(error))
      case Whole(nal) => (fragment, Success([AnnexBFrame(codec, timestamp, nal)]))
      case Aggregate(nals) => (fragment, Success(AnnexBFrames(codec, timestamp, nals)))
      case Piece(_, _, _, _) => Collect(codec, fragment, timestamp, content)
  }

  /** A readable packet takes the pending parameter sets, even when its payload then fails. */
  function Step(codec: Codec, state: State, arrival: Arrival): (State, Result<seq<Frame>>) {
    var (fragment, own) := Own(codec, state.fragment, arrival);
    if arrival.Unreadable? then (state, own)
    else
      (State(None, fragment),
       if own.Failure? then own
       else Success(PendingFrames(codec, state.pending, arrival.timestamp) + own.value))
  }

  // ----- Runs

  function Delivered(r: Result<seq<Frame>>): seq<Frame> {
    if r.Success? then r.value else []
  }

  /** All frames a run of packets delivers. */
  function Frames(codec: Codec, state: State, arrivals: seq<Arrival>): seq<Frame>
    decreases |arrivals|
  {
    if arrivals == [] then []
    else
      var (next, r) := Step(codec, state, arrivals[0]);
      Delivered(r) + Frames(codec, next, arrivals[1..])
  }

  // ----- Parameter sets

  /** A NAL unit behind its Annex B start code. */
  ghost function NalFrame(codec: Codec, timestamp: u32, nal: bytes): Frame {
    Frame(codec, timestamp, [0, 0, 0, 1] + nal)
  }

  ghost function UnitFrames(codec: Codec, timestamp: u32, nals: seq<bytes>): (frames: seq<Frame>)
    ensures |frames| == |nals|
  {
    seq(|nals|, i requires 0 <= i < |nals| => NalFrame(codec, timestamp, nals[i]))
  }

  ghost function SetFrames(codec: Codec, pending: Option<seq<bytes>>, timestamp: u32): seq<Frame> {
    if pending.None? then [] else UnitFrames(codec, timestamp, pending.value)
  }

  lemma PendingAreSets(codec: Codec, pending: Option<seq<bytes>>, timestamp: u32)
    ensures PendingFrames(codec, pending, timestamp) == SetFrames(codec, pending, timestamp)
  {
    if pending.Some? {
      forall i | 0 <= i < |pending.value|
        ensures AnnexBFrame(codec, timestamp, pending.value[i]) == NalFrame(codec, timestamp, pending.value[i])
      {
      }
    }
  }

  /** The first packet with a readable header, if any. */
  function FirstReadable(arrivals: seq<Arrival>): Option<nat> {
    if arrivals == [] then None
    else if arrivals[0].Readable? then Some(0)
    else
      var later := FirstReadable(arrivals[1..]);
      if later.None? then None else Some(later.value + 1)
  }

  lemma {:induction false} FirstReadableIsFirst(arrivals: seq<Arrival>)
    ensures var first := FirstReadable(arrivals);
      && (first.Some? ==> first.value < |arrivals| && arrivals[first.value].Readable?)
      && forall i :: 0 <= i < |arrivals| && (first.Some? ==> i < first.value) ==> arrivals[i].Unreadable?
  {
    if arrivals != [] && arrivals[0].Unreadable? {
      FirstReadableIsFirst(arrivals[1..]);
    }
  }

  /** The payload is malformed, or goes on with a fragment that was never started. */
  predicate Fails(fragment: Option<Fragment>, content: Content) {
    content.Bad? || (content.Piece? && !content.isStart && fragment.None?)
  }

  /** The parameter-set frames the first readable packet delivers: none when it fails. */
  function PendingShare(codec: Codec, pending: Option<seq<bytes>>, fragment: Option<Fragment>,
                        first: Arrival): seq<Frame> {
    if first.Unreadable? || Fails(fragment, first.content) then []
    else PendingFrames(codec, pending, first.timestamp)
  }

  /** Pending parameter sets add their frames once, ahead of everything else, exactly when the
      first readable packet does not fail; a failing one loses them. */
  lemma {:induction false} PendingFirstAndOnce(codec: Codec, pending: Option<seq<bytes>>, fragment: Option<Fragment>,
                                               arrivals: seq<Arrival>)
    ensures match FirstReadable(arrivals)
            case None => Frames(codec, State(pending, fragment), arrivals) == []
            case Some(i) =>
              && i < |arrivals|
              && Frames(codec, State(pending, fragment), arrivals)
                 == PendingShare(codec, pending, fragment, arrivals[i]) + Frames(codec, State(None, fragment), arrivals)
    decreases |arrivals|
  {
    if arrivals != [] {
      if arrivals[0].Unreadable? {
        UnreadableSkipped(codec, State(pending, fragment), arrivals);
        UnreadableSkipped(codec, State(None, fragment), arrivals);
        PendingFirstAndOnce(codec, pending, fragment, arrivals[1..]);
      } else {
        var next := Step(codec, State(None, fragment), arrivals[0]).0;
        assert Step(codec, State(pending, fragment), arrivals[0]).0 == next;
        Associate(PendingShare(codec, pending, fragment, arrivals[0]),
                  Delivered(Own(codec, fragment, arrivals[0]).1), Frames(codec, next, arrivals[1..]));
        assert PendingFrames(codec, None, arrivals[0].timestamp) + Delivered(Own(codec, fragment, arrivals[0]).1)
            == Delivered(Own(codec, fragment, arrivals[0]).1);
      }
    }
  }

  /** Parameter sets come out before the next frames exactly when the first readable packet is not
      malformed and does not go on with a fragment that was never started. */
  lemma SetsPrecedeFrames(codec: Codec, sets: seq<bytes>, fragment: Option<Fragment>, arrivals: seq<Arrival>)
    requires sets != [] && FirstReadable(arrivals).Some?
    ensures var i := FirstReadable(arrivals).value;
      && i < |arrivals| && arrivals[i].Readable?
      && (Frames(codec, State(Some(sets), fragment), arrivals)
          == UnitFrames(codec, arrivals[i].timestamp, sets) + Frames(codec, State(None, fragment), arrivals)
          <==> !Fails(fragment, arrivals[i].content))
  {
    FirstReadableIsFirst(arrivals);
    PendingFirstAndOnce(codec, Some(sets), fragment, arrivals);
    var first := arrivals[FirstReadable(arrivals).value];
    PendingAreSets(codec, Some(sets), first.timestamp);
    LongerBy(UnitFrames(codec, first.timestamp, sets), Frames(codec, State(None, fragment), arrivals));
  }

  lemma LongerBy(a: seq<Frame>, b: seq<Frame>)
    ensures a + b == b <==> a == []
  {
    assert |a + b| == |a| + |b|;
  }

  lemma UnreadableSkipped(codec: Codec, state: State, arrivals: seq<Arrival>)
    requires arrivals != [] && arrivals[0].Unreadable?
    ensures Frames(codec, state, arrivals) == Frames(codec, state, arrivals[1..])
  {
    assert [] + Frames(codec, state, arrivals[1..]) == Frames(codec, state, arrivals[1..]);
  }

  // ----- Fragments among other packets

  predicate IsPiece(arrival: Arrival) {
    arrival.Readable? && arrival.content.Piece?
  }

  function Pieces(arrivals: seq<Arrival>): seq<Arrival> {
    if arrivals == [] then []
    else (if IsPiece(arrivals[0]) then [arrivals[0]] else []) + Pieces(arrivals[1..])
  }

  /** The frames completed by the pieces of a run, leaving aside other packets' frames and
      pending parameter sets. */
  function PieceFrames(codec: Codec, state: State, arrivals: seq<Arrival>): seq<Frame>
    decreases |arrivals|
  {
    if arrivals == [] then []
    else
      var next := Step(codec, state, arrivals[0]).0;
      (if IsPiece(arrivals[0]) then Delivered(Own(codec, state.fragment, arrivals[0]).1) else [])
      + PieceFrames(codec, next, arrivals[1..])
  }

  /** The pieces alone decide what the pieces complete. */
  lemma {:induction false} OthersDoNotDisturb(codec: Codec, state: State, arrivals: seq<Arrival>)
    ensures PieceFrames(codec, state, arrivals) == Frames(codec, State(None, state.fragment), Pieces(arrivals))
    decreases |arrivals|
  {
    if arrivals != [] {
      var next := Step(codec, state, arrivals[0]).0;
      OthersDoNotDisturb(codec, next, arrivals[1..]);
      if IsPiece(arrivals[0]) {
        PieceStep(codec, state, arrivals[0]);
        assert Pieces(arrivals)[1..] == Pieces(arrivals[1..]);
      } else {
        assert next.fragment == state.fragment;
        assert Pieces(arrivals) == Pieces(arrivals[1..]);
      }
    }
  }

  lemma PieceStep(codec: Codec, state: State, piece: Arrival)
    requires IsPiece(piece)
    ensures Step(codec, State(None, state.fragment), piece).0 == State(None, Step(codec, state, piece).0.fragment)
    ensures Delivered(Step(codec, State(None, state.fragment), piece).1)
         == Delivered(Own(codec, state.fragment, piece).1)
  {
  }

  /** A NAL unit cut into parts, each sent with some timestamp. */
  datatype CutNal = CutNal(header: bytes, parts: seq<bytes>, timestamps: seq<u32>)

  ghost predicate IsCut(nal: CutNal) {
    nal.parts != [] && |nal.timestamps| == |nal.parts|
  }

  ghost function PiecesOf(nal: CutNal, isStart: bool): seq<Arrival>
    requires |nal.timestamps| == |nal.parts|
    decreases |nal.parts|
  {
    if nal.parts == [] then []
    else
      [Readable(nal.timestamps[0], Piece(isStart, |nal.parts| == 1, nal.header, nal.parts[0]))]
      + PiecesOf(nal.(parts := nal.parts[1..], timestamps := nal.timestamps[1..]), false)
  }

  /** The whole NAL unit, with the timestamp of its first piece. */
  ghost function WholeFrame(codec: Codec, nal: CutNal): Frame
    requires IsCut(nal)
  {
    AnnexBFrame(codec, nal.timestamps[0], nal.header + Concat(nal.parts))
  }

  // ----- Whole streams

  /** How a sender may send NAL units. */
  datatype Sent =
    | AsWhole(timestamp: u32, nal: bytes)
    | AsAggregate(timestamp: u32, nals: seq<bytes>)
    | AsPieces(cut: CutNal)

  ghost predicate IsSent(sent: Sent) {
    sent.AsPieces? ==> IsCut(sent.cut)
  }

  ghost function ArrivalsOf(sent: Sent): (arrivals: seq<Arrival>)
    requires IsSent(sent)
    ensures arrivals != []
  {
    match sent
    case AsWhole(timestamp, nal) => [Readable(timestamp, Whole(nal))]
    case AsAggregate(timestamp, nals) => [Readable(timestamp, Aggregate(nals))]
    case AsPieces(cut) => PiecesOf(cut, true)
  }

  ghost function FramesOf(codec: Codec, sent: Sent): seq<Frame>
    requires IsSent(sent)
  {
    match sent
    case AsWhole(timestamp, nal) => [AnnexBFrame(codec, timestamp, nal)]
    case AsAggregate(timestamp, nals) => AnnexBFrames(codec, timestamp, nals)
    case AsPieces(cut) => [WholeFrame(codec, cut)]
  }

  ghost function AllArrivals(stream: seq<Sent>): seq<Arrival>
    requires forall i :: 0 <= i < |stream| ==> IsSent(stream[i])
  {
    if stream == [] then [] else ArrivalsOf(stream[0]) + AllArrivals(stream[1..])
  }

  ghost function AllFrames(codec: Codec, stream: seq<Sent>): seq<Frame>
    requires forall i :: 0 <= i < |stream| ==> IsSent(stream[i])
  {
    if stream == [] then [] else FramesOf(codec, stream[0]) + AllFrames(codec, stream[1..])
  }

  lemma FramesCons(codec: Codec, state: State, first: Arrival, rest: seq<Arrival>)
    ensures var (next, r) := Step(codec, state, first);
      Frames(codec, state, [first] + rest) == Delivered(r) + Frames(codec, next, rest)
  {
    assert ([first] + rest)[1..] == rest;
  }

  /** What a piece sequence builds on: its own NAL header, or the fragment it continues. A start
      piece drops whatever was in progress. */
  ghost function Base(fragment: Option<Fragment>, nal: CutNal, isStart: bool): Fragment
    requires IsCut(nal) && (isStart || fragment.Some?)
  {
    if isStart then Fragment(nal.header, nal.timestamps[0]) else fragment.value
  }

  lemma PieceCollected(codec: Codec, fragment: Option<Fragment>, nal: CutNal, isStart: bool, isEnd: bool)
    requires IsCut(nal) && (isStart || fragment.Some?)
    ensures var base := Base(fragment, nal, isStart);
      var grown := Fragment(base.data + nal.parts[0], base.timestamp);
      Step(codec, State(None, fragment), Readable(nal.timestamps[0], Piece(isStart, isEnd, nal.header, nal.parts[0])))
      == if isEnd then (State(None, None), Success([AnnexBFrame(codec, grown.timestamp, grown.data)]))
         else (State(None, Some(grown)), Success([]))
  {
    var own := Own(codec, fragment, Readable(nal.timestamps[0], Piece(isStart, isEnd, nal.header, nal.parts[0]))).1;
    assert [] + own.value == own.value;
  }

  lemma {:induction false} PiecesDeliver(codec: Codec, fragment: Option<Fragment>, nal: CutNal, isStart: bool,
                                         rest: seq<Arrival>)
    requires IsCut(nal) && (isStart || fragment.Some?)
    ensures var base := Base(fragment, nal, isStart);
      Frames(codec, State(None, fragment), PiecesOf(nal, isStart) + rest)
      == [AnnexBFrame(codec, base.timestamp, base.data + Concat(nal.parts))] + Frames(codec, State(None, None), rest)
    decreases |nal.parts|
  {
    var tail := nal.(parts := nal.parts[1..], timestamps := nal.timestamps[1..]);
    var isEnd := |nal.parts| == 1;
    var first := Readable(nal.timestamps[0], Piece(isStart, isEnd, nal.header, nal.parts[0]));
    var base := Base(fragment, nal, isStart);
    var grown := Fragment(base.data + nal.parts[0], base.timestamp);
    Associate(base.data, nal.parts[0], Concat(tail.parts));
    Associate([first], PiecesOf(tail, false), rest);
    FramesCons(codec, State(None, fragment), first, PiecesOf(tail, false) + rest);
    PieceCollected(codec, fragment, nal, isStart, isEnd);
    if isEnd {
      assert PiecesOf(tail, false) + rest == rest;
      assert grown.data + Concat(tail.parts) == grown.data;
    } else {
      PiecesDeliver(codec, Some(grown), tail, false, rest);
      assert [] + Frames(codec, State(None, Some(grown)), PiecesOf(tail, false) + rest)
          == Frames(codec, State(None, Some(grown)), PiecesOf(tail, false) + rest);
    }
  }

  /** Depacketizing a sent stream gives back its NAL units, in order and with their timestamps,
      however each was sent and whatever was in progress. */
  lemma {:induction false} StreamDelivers(codec: Codec, fragment: Option<Fragment>, stream: seq<Sent>)
    requires forall i :: 0 <= i < |stream| ==> IsSent(stream[i])
    ensures Frames(codec, State(None, fragment), AllArrivals(stream)) == AllFrames(codec, stream)
    decreases |stream|
  {
    if stream != [] {
      SentDelivers(codec, fragment, stream[0], AllArrivals(stream[1..]));
      StreamDelivers(codec, fragment, stream[1..]);
      StreamDelivers(codec, None, stream[1..]);
    }
  }

  lemma SentDelivers(codec: Codec, fragment: Option<Fragment>, sent: Sent, rest: seq<Arrival>)
    requires IsSent(sent)
    ensures Frames(codec, State(None, fragment), ArrivalsOf(sent) + rest)
         == FramesOf(codec, sent) + Frames(codec, State(None, if sent.AsPieces? then None else fragment), rest)
  {
    if sent.AsPieces? {
      PiecesDeliver(codec, fragment, sent.cut, true, rest);
    } else {
      FramesCons(codec, State(None, fragment), ArrivalsOf(sent)[0], rest);
      assert [] + FramesOf(codec, sent) == FramesOf(codec, sent);
    }
  }

  lemma SentFirst(codec: Codec, fragment: Option<Fragment>, sent: Sent)
    requires IsSent(sent)
    ensures var first := ArrivalsOf(sent)[0]; first.Readable? && Own(codec, fragment, first).1.Success?
  {
  }

  lemma FirstArrival(stream: seq<Sent>)
    requires stream != [] && forall i :: 0 <= i < |stream| ==> IsSent(stream[i])
    ensures AllArrivals(stream) != [] && AllArrivals(stream)[0] == ArrivalsOf(stream[0])[0]
  {
  }

  lemma PendingWithFirst(codec: Codec, pending: Option<seq<bytes>>, fragment: Option<Fragment>, arrivals: seq<Arrival>)
    requires arrivals != [] && arrivals[0].Readable? && Own(codec, fragment, arrivals[0]).1.Success?
    ensures Frames(codec, State(pending, fragment), arrivals)
         == PendingFrames(codec, pending, arrivals[0].timestamp) + Frames(codec, State(None, fragment), arrivals)
  {
    PendingFirstAndOnce(codec, pending, fragment, arrivals);
  }

  /** A stream's first packet does not fail, so pending parameter sets come out with it. */
  lemma StreamDeliversPending(codec: Codec, pending: Option<seq<bytes>>, fragment: Option<Fragment>, stream: seq<Sent>)
    requires forall i :: 0 <= i < |stream| ==> IsSent(stream[i])
    ensures var arrivals := AllArrivals(stream);
      && (arrivals != [] ==> arrivals[0].Readable?)
      && Frames(codec, State(pending, fragment), arrivals)
         == (if arrivals == [] then [] else PendingFrames(codec, pending, arrivals[0].timestamp))
            + AllFrames(codec, stream)
  {
    StreamDelivers(codec, fragment, stream);
    if stream != [] {
      FirstArrival(stream);
      SentFirst(codec, fragment, stream[0]);
      PendingWithFirst(codec, pending, fragment, AllArrivals(stream));
    }
  }

  // ----- NAL units on the wire

  /** How a sender may put NAL units into RTP payloads: alone, aggregated behind a payload header,
      or cut at any points after the NAL header. */
  datatype Sending =
    | Single(timestamp: u32, nal: bytes)
    | Aggregated(timestamp: u32, header: bytes, nals: seq<bytes>)
    | Fragmented(nal: bytes, parts: seq<bytes>, timestamps: seq<u32>)

  /** The cut leaves the NAL header, of `headerLength` bytes, to the fragment headers. */
  ghost predicate CutsNal(sending: Sending, headerLength: nat)
    requires sending.Fragmented?
  {
    && |sending.nal| >= headerLength
    && sending.parts != [] && |sending.timestamps| == |sending.parts|
    && Concat(sending.parts) == sending.nal[headerLength..]
  }

  ghost function AsSent(sending: Sending, headerLength: nat): Sent
    requires sending.Fragmented? ==> CutsNal(sending, headerLength)
  {
    match sending
    case Single(timestamp, nal) => AsWhole(timestamp, nal)
    case Aggregated(timestamp, _, nals) => AsAggregate(timestamp, nals)
    case Fragmented(nal, parts, timestamps) => AsPieces(CutNal(nal[..headerLength], parts, timestamps))
  }

  /** The frames of the NAL units themselves, a cut one with the timestamp of its first packet. */
  ghost function NalFrames(codec: Codec, sending: Sending): seq<Frame>
    requires sending.Fragmented? ==> sending.timestamps != []
  {
    match sending
    case Single(timestamp, nal) => [NalFrame(codec, timestamp, nal)]
    case Aggregated(timestamp, _, nals) => UnitFrames(codec, timestamp, nals)
    case Fragmented(nal, _, timestamps) => [NalFrame(codec, timestamps[0], nal)]
  }

  lemma SentFrames(codec: Codec, sending: Sending, headerLength: nat)
    requires sending.Fragmented? ==> CutsNal(sending, headerLength)
    ensures IsSent(AsSent(sending, headerLength))
    ensures FramesOf(codec, AsSent(sending, headerLength)) == NalFrames(codec, sending)
  {
    if sending.Fragmented? {
      assert sending.nal[..headerLength] + sending.nal[headerLength..] == sending.nal;
    }
  }

  /** What arrives for a payload, and for a packet whose header is yet to be read. */
  function HeaderArrival(content: bytes -> Content, header: RtpHeader): Arrival {
    Readable(header.timestamp, content(header.payload))
  }

  function PacketArrival(content: bytes -> Content, packet: bytes): Arrival {
    match ParseRtpHeader(packet)
    case Failure(error) => Unreadable(error)
    case Success(header) => HeaderArrival(content, header)
  }

  function PacketArrivals(content: bytes -> Content, packets: seq<bytes>): (arrivals: seq<Arrival>)
    ensures |arrivals| == |packets|
  {
    seq(|packets|, i requires 0 <= i < |packets| => PacketArrival(content, packets[i]))
  }

  function HeaderArrivals(content: bytes -> Content, headers: seq<RtpHeader>): (arrivals: seq<Arrival>)
    ensures |arrivals| == |headers|
  {
    seq(|headers|, i requires 0 <= i < |headers| => HeaderArrival(content, headers[i]))
  }

  /** RTP packets that carry exactly the given timestamps and payloads, whatever else they hold. */
  ghost predicate Carry(packets: seq<bytes>, headers: seq<RtpHeader>) {
    |packets| == |headers|
    && forall i :: 0 <= i < |packets| ==> Carries(packets[i], headers[i])
  }

  lemma CarriedArrivals(content: bytes -> Content, packets: seq<bytes>, headers: seq<RtpHeader>)
    requires Carry(packets, headers)
    ensures PacketArrivals(content, packets) == HeaderArrivals(content, headers)
  {
    forall i | 0 <= i < |packets|
      ensures ParseRtpHeader(packets[i]) == Success(headers[i])
    {
      CarriedRead(packets[i], headers[i]);
    }
  }

  lemma HeaderArrivalsSplit(content: bytes -> Content, left: seq<RtpHeader>, right: seq<RtpHeader>)
    ensures HeaderArrivals(content, left + right) == HeaderArrivals(content, left) + HeaderArrivals(content, right)
  {
  }

  /** A codec reads these payloads as the sender meant them. */
  ghost predicate ReadAs(content: bytes -> Content, headerLength: nat, sending: Sending, payloads: seq<RtpHeader>) {
    && (sending.Fragmented? ==> CutsNal(sending, headerLength))
    && IsSent(AsSent(sending, headerLength))
    && HeaderArrivals(content, payloads) == ArrivalsOf(AsSent(sending, headerLength))
  }

  ghost predicate AllReadAs(content: bytes -> Content, headerLength: nat, stream: seq<Sending>,
                            payloads: seq<seq<RtpHeader>>) {
    |stream| == |payloads|
    && forall i :: 0 <= i < |stream| ==> ReadAs(content, headerLength, stream[i], payloads[i])
  }

  ghost function Flatten(payloads: seq<seq<RtpHeader>>): seq<RtpHeader> {
    if payloads == [] then [] else payloads[0] + Flatten(payloads[1..])
  }

  ghost predicate Timestamped(stream: seq<Sending>) {
    forall i :: 0 <= i < |stream| && stream[i].Fragmented? ==> stream[i].timestamps != []
  }

  ghost function AllNalFrames(codec: Codec, stream: seq<Sending>): seq<Frame>
    requires Timestamped(stream)
  {
    if stream == [] then [] else NalFrames(codec, stream[0]) + AllNalFrames(codec, stream[1..])
  }

  ghost function SentStream(stream: seq<Sending>, headerLength: nat): (sent: seq<Sent>)
    requires forall i :: 0 <= i < |stream| && stream[i].Fragmented? ==> CutsNal(stream[i], headerLength)
    ensures |sent| == |stream|
  {
    seq(|stream|, i requires 0 <= i < |stream| => AsSent(stream[i], headerLength))
  }

  lemma StreamIsSent(content: bytes -> Content, headerLength: nat, stream: seq<Sending>, payloads: seq<seq<RtpHeader>>)
    requires AllReadAs(content, headerLength, stream, payloads)
    ensures Timestamped(stream)
    ensures forall i :: 0 <= i < |stream| && stream[i].Fragmented? ==> CutsNal(stream[i], headerLength)
    ensures forall i :: 0 <= i < |stream| ==> IsSent(SentStream(stream, headerLength)[i])
  {
  }

  lemma FirstSent(stream: seq<Sending>, headerLength: nat)
    requires stream != []
    requires forall i :: 0 <= i < |stream| && stream[i].Fragmented? ==> CutsNal(stream[i], headerLength)
    ensures SentStream(stream, headerLength)[0] == AsSent(stream[0], headerLength)
    ensures SentStream(stream, headerLength)[1..] == SentStream(stream[1..], headerLength)
  {
  }

  lemma {:induction false} StreamArrives(content: bytes -> Content, headerLength: nat, stream: seq<Sending>,
                                         payloads: seq<seq<RtpHeader>>)
    requires AllReadAs(content, headerLength, stream, payloads)
    requires forall i :: 0 <= i < |stream| && stream[i].Fragmented? ==> CutsNal(stream[i], headerLength)
    requires forall i :: 0 <= i < |stream| ==> IsSent(SentStream(stream, headerLength)[i])
    ensures HeaderArrivals(content, Flatten(payloads)) == AllArrivals(SentStream(stream, headerLength))
  {
    if stream != [] {
      assert ReadAs(content, headerLength, stream[0], payloads[0]);
      FirstSent(stream, headerLength);
      StreamArrives(content, headerLength, stream[1..], payloads[1..]);
      HeaderArrivalsSplit(content, payloads[0], Flatten(payloads[1..]));
    }
  }

  lemma {:induction false} StreamFrames(codec: Codec, headerLength: nat, stream: seq<Sending>)
    requires Timestamped(stream)
    requires forall i :: 0 <= i < |stream| && stream[i].Fragmented? ==> CutsNal(stream[i], headerLength)
    requires forall i :: 0 <= i < |stream| ==> IsSent(SentStream(stream, headerLength)[i])
    ensures AllFrames(codec, SentStream(stream, headerLength)) == AllNalFrames(codec, stream)
  {
    if stream != [] {
      FirstSent(stream, headerLength);
      SentFrames(codec, stream[0], headerLength);
      StreamFrames(codec, headerLength, stream[1..]);
    }
  }

  /** Depacketizing inverts packetizing, for any codec that reads each payload as it was meant. */
  lemma RoundTrip(codec: Codec, content: bytes -> Content, headerLength: nat, pending: Option<seq<bytes>>,
                  fragment: Option<Fragment>, packets: seq<bytes>, stream: seq<Sending>, payloads: seq<seq<RtpHeader>>)
    requires AllReadAs(content, headerLength, stream, payloads) && Carry(packets, Flatten(payloads))
    ensures Timestamped(stream)
    ensures Frames(codec, State(pending, fragment), PacketArrivals(content, packets))
         == (if packets == [] then [] else SetFrames(codec, pending, Flatten(payloads)[0].timestamp))
            + AllNalFrames(codec, stream)
  {
    StreamIsSent(content, headerLength, stream, payloads);
    StreamArrives(content, headerLength, stream, payloads);
    StreamFrames(codec, headerLength, stream);
    CarriedArrivals(content, packets, Flatten(payloads));
    StreamDeliversPending(codec, pending, fragment, SentStream(stream, headerLength));
    if packets != [] {
      PendingAreSets(codec, pending, Flatten(payloads)[0].timestamp);
    }
  }

  /** Fragments complete their NAL units whatever other packets arrive in between. */
  lemma FragmentsSurvive(codec: Codec, content: bytes -> Content, headerLength: nat, state: State,
                         packets: seq<bytes>, cuts: seq<Sending>, payloads: seq<seq<RtpHeader>>)
    requires AllReadAs(content, headerLength, cuts, payloads)
    requires Pieces(PacketArrivals(content, packets)) == HeaderArrivals(content, Flatten(payloads))
    ensures Timestamped(cuts)
    ensures PieceFrames(codec, state, PacketArrivals(content, packets)) == AllNalFrames(codec, cuts)
  {
    StreamIsSent(content, headerLength, cuts, payloads);
    StreamArrives(content, headerLength, cuts, payloads);
    StreamFrames(codec, headerLength, cuts);
    OthersDoNotDisturb(codec, state, PacketArrivals(content, packets));
    StreamDelivers(codec, state.fragment, SentStream(cuts, headerLength));
  }
}
