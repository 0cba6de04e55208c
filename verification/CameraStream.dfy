/** One camera connection end to end: from the bytes on the socket to the frames published. */
module CameraStream {
  import opened Bytes
  import opened Options
  import opened Depacketize
  import opened Reassembly
  import opened H264Depacketizing
  import H265Depacketizing
  import Rtsp = RtspSession
  import Interleaving

  const VIDEO_RTP_CHANNEL: byte := 0

  datatype Depacketizer =
    | OfH264(h264: H264Depacketizer)
    | OfH265(h265: H265Depacketizing.H265Depacketizer)
  {
    ghost function Objects(): set<object> {
      if OfH264? then {h264} else {h265}
    }

    ghost function Current(): State
      reads Objects()
    {
      if OfH264? then h264.Current() else h265.Current()
    }

    function CodecOf(): Codec {
      if OfH264? then H264 else H265
    }

    method Depacketize(rtpPacket: bytes) returns (r: Result<seq<Frame>>)
      modifies Objects()
      ensures (Current(), r) == Step(CodecOf(), old(Current()), PacketArrival(ContentFor(CodecOf()), rtpPacket))
    {
      match this
      case OfH264(h264) => r := h264.Depacketize(rtpPacket);
      case OfH265(h265) => r := h265.Depacketize(rtpPacket);
    }
  }

  function ContentFor(codec: Codec): bytes -> Content {
    if codec == H265 then H265Depacketizing.Content265 else Content264
  }

  /** The RTP packets of the video track; channel 1 carries its RTCP. */
  ghost function VideoPackets(packets: seq<Rtsp.RtpPacket>): seq<bytes> {
    if packets == [] then []
    else VideoPackets(packets[..|packets| - 1]) + VideoPacket(packets[|packets| - 1])
  }

  ghost function VideoPacket(packet: Rtsp.RtpPacket): seq<bytes> {
    if packet.channel == VIDEO_RTP_CHANNEL then [packet.payload] else []
  }

  /** The frames a camera's packets come to, from the depacketizer's initial state. */
  ghost function PublishedFrames(codec: Codec, state: State, packets: seq<Rtsp.RtpPacket>): seq<Frame> {
    Frames(codec, state, PacketArrivals(ContentFor(codec), VideoPackets(packets)))
  }

  /** The state a run of packets leaves. */
  ghost function StateAfter(codec: Codec, state: State, arrivals: seq<Arrival>): State
    decreases |arrivals|
  {
    if arrivals == [] then state else StateAfter(codec, Step(codec, state, arrivals[0]).0, arrivals[1..])
  }

  /** A run's frames are those of its first part and those of the rest from the state it leaves. */
  lemma {:induction false} OneMoreArrival(codec: Codec, state: State, arrivals: seq<Arrival>, last: Arrival)
    ensures var (next, r) := Step(codec, StateAfter(codec, state, arrivals), last);
      && Frames(codec, state, arrivals + [last]) == Frames(codec, state, arrivals) + Delivered(r)
      && StateAfter(codec, state, arrivals + [last]) == next
    decreases |arrivals|
  {
    var (next, r) := Step(codec, StateAfter(codec, state, arrivals), last);
    if arrivals == [] {
      assert [] + [last] == [last] && Delivered(r) + [] == Delivered(r) == [] + Delivered(r);
    } else {
      var (second, first) := Step(codec, state, arrivals[0]);
      assert arrivals + [last] == [arrivals[0]] + (arrivals[1..] + [last]);
      OneMoreArrival(codec, second, arrivals[1..], last);
      Associate(Delivered(first), Frames(codec, second, arrivals[1..]), Delivered(r));
    }
  }

  ghost function StateAfterPackets(codec: Codec, state: State, packets: seq<Rtsp.RtpPacket>): State {
    StateAfter(codec, state, PacketArrivals(ContentFor(codec), VideoPackets(packets)))
  }

  /** Where the loop is after some packets: the frames published and the depacketizer's state. */
  ghost predicate Reached(codec: Codec, start: State, packets: seq<Rtsp.RtpPacket>, published: seq<Frame>,
                          state: State) {
    published == PublishedFrames(codec, start, packets) && state == StateAfterPackets(codec, start, packets)
  }

  lemma OtherPacket(codec: Codec, start: State, packets: seq<Rtsp.RtpPacket>, published: seq<Frame>, state: State,
                    packet: Rtsp.RtpPacket)
    requires Reached(codec, start, packets, published, state) && packet.channel != VIDEO_RTP_CHANNEL
    ensures Reached(codec, start, packets + [packet], published, state)
  {
    assert (packets + [packet])[..|packets|] == packets;
    assert VideoPackets(packets) + [] == VideoPackets(packets);
  }

  lemma VideoPacketTaken(codec: Codec, start: State, packets: seq<Rtsp.RtpPacket>, published: seq<Frame>, state: State,
                         packet: Rtsp.RtpPacket)
    requires Reached(codec, start, packets, published, state) && packet.channel == VIDEO_RTP_CHANNEL
    ensures var (next, r) := Step(codec, state, PacketArrival(ContentFor(codec), packet.payload));
      Reached(codec, start, packets + [packet], published + Delivered(r), next)
  {
    var content, video := ContentFor(codec), VideoPackets(packets);
    assert (packets + [packet])[..|packets|] == packets;
    assert PacketArrivals(content, video + [packet.payload])
        == PacketArrivals(content, video) + [PacketArrival(content, packet.payload)];
    OneMoreArrival(codec, start, PacketArrivals(content, video), PacketArrival(content, packet.payload));
  }

  lemma NothingPublished(codec: Codec, start: State)
    ensures Reached(codec, start, [], [], start)
  {
  }

  /** Publishes frames until the session ends. Whatever the socket reads and keep-alive ticks, the
      frames are those of the media packets at the front of the wire, and of all of them when a
      steady socket ends the session. A packet that cannot be depacketized ends nothing. */
  method RunSession(session: Rtsp.PlayingSession, depacketizer: Depacketizer, ticks: seq<seq<Rtsp.Tick>>)
    returns (published: seq<Frame>, error: Rtsp.SessionError)
    requires session.Valid() && session.delivered == []
    requires depacketizer.Objects() !! {session, session.conn, session.conn.reader}
    modifies session, session.conn, session.conn.reader, depacketizer.Objects()
    ensures session.Valid() && session.delivered <= session.WireFrames()
    ensures Reached(depacketizer.CodecOf(), old(depacketizer.Current()), session.delivered, published,
                    depacketizer.Current())
    ensures error.Stream? && old(session.conn.reader.Steady()) ==> session.delivered == session.WireFrames()
  {
    published := [];
    var calls := 0;
    ghost var start := depacketizer.Current();
    NothingPublished(depacketizer.CodecOf(), start);
    while true
      invariant session.Valid() && (old(session.conn.reader.Steady()) ==> session.conn.reader.Steady())
      invariant Reached(depacketizer.CodecOf(), start, session.delivered, published, depacketizer.Current())
      decreases |session.WireFrames()| - |session.delivered|
    {
      ghost var before := session.delivered;
      var packet, _, _ := session.NextPacket(if calls < |ticks| then ticks[calls] else []);
      if packet.Err? {
        return published, packet.error;
      }
      calls := calls + 1;
      published := PublishPacket(depacketizer, packet.value, published, start, before);
    }
  }

  method PublishPacket(depacketizer: Depacketizer, packet: Rtsp.RtpPacket, published: seq<Frame>, ghost start: State,
                       ghost before: seq<Rtsp.RtpPacket>) returns (r: seq<Frame>)
    requires Reached(depacketizer.CodecOf(), start, before, published, depacketizer.Current())
    modifies depacketizer.Objects()
    ensures Reached(depacketizer.CodecOf(), start, before + [packet], r, depacketizer.Current())
  {
    if packet.channel != VIDEO_RTP_CHANNEL {
      OtherPacket(depacketizer.CodecOf(), start, before, published, depacketizer.Current(), packet);
      return published;
    }
    VideoPacketTaken(depacketizer.CodecOf(), start, before, published, depacketizer.Current(), packet);
    var frames := depacketizer.Depacketize(packet.payload);
    r := published + Delivered(frames);
  }

  /** One connection, from the handshake to the end of the session. The frames published are those
      of a run of media packets at the front of the wire; of all of them, those sent during the
      handshake included, when a steady socket ends an established session. */
  method RunCameraOnce(parse: Rtsp.Parser, incoming: seq<Rtsp.SocketRead>, parseChallenge: Rtsp.ChallengeParser,
                       writable: nat,
                       resolveTrack: Rtsp.Response -> Option<string>, streamUrl: string, depacketizer: Depacketizer,
                       ticks: seq<seq<Rtsp.Tick>>)
    returns (published: seq<Frame>, error: Rtsp.SessionError, ghost packets: seq<Rtsp.RtpPacket>)
    requires Rtsp.PrefixStable(parse)
    modifies depacketizer.Objects()
    ensures packets <= Rtsp.DataFrames(Rtsp.Decode(parse, Rtsp.Flow(incoming)))
    ensures Reached(depacketizer.CodecOf(), old(depacketizer.Current()), packets, published, depacketizer.Current())
    ensures error.Stream? && Rtsp.SteadyReads(parse, incoming)
            && Rtsp.Handshake(parseChallenge, resolveTrack,
                              Rtsp.Controls(Rtsp.Decode(parse, Rtsp.Flow(incoming)))).Established? ==>
              packets == Rtsp.DataFrames(Rtsp.Decode(parse, Rtsp.Flow(incoming)))
  {
    NothingPublished(depacketizer.CodecOf(), depacketizer.Current());
    var connected := Rtsp.Connect(parse, incoming, parseChallenge, writable, resolveTrack, streamUrl);
    if connected.Err? {
      return [], connected.error, [];
    }
    published, error := RunSession(connected.value, depacketizer, ticks);
    packets := connected.value.delivered;
  }

  lemma {:induction false} VideoOfMediaFrames(units: seq<Interleaving.Unit>)
    ensures VideoPackets(Interleaving.MediaFrames(units)) == VideoUnits(units)
  {
    if units != [] {
      VideoOfMediaFrames(units[1..]);
      var first := if units[0].MediaFrame? then [units[0].packet] else [];
      VideoSplit(first, Interleaving.MediaFrames(units[1..]));
      if units[0].MediaFrame? {
        assert first[..0] == [] && [] + VideoPacket(first[0]) == VideoPacket(first[0]);
      }
    }
  }

  lemma {:induction false} VideoSplit(left: seq<Rtsp.RtpPacket>, right: seq<Rtsp.RtpPacket>)
    ensures VideoPackets(left + right) == VideoPackets(left) + VideoPackets(right)
  {
    if right == [] {
      assert left + right == left && VideoPackets(left) + [] == VideoPackets(left);
    } else {
      var last := |right| - 1;
      VideoSplit(left, right[..last]);
      assert (left + right)[..|left + right| - 1] == left + right[..last];
      Associate(VideoPackets(left), VideoPackets(right[..last]), VideoPacket(right[last]));
    }
  }

  /** The RTP packets a camera sends on the video channel. */
  ghost function VideoUnits(units: seq<Interleaving.Unit>): seq<bytes> {
    if units == [] then []
    else
      (if units[0].MediaFrame? && units[0].packet.channel == 0 then [units[0].packet.payload] else [])
      + VideoUnits(units[1..])
  }

  /** From socket to frames: a camera that packetizes NAL units, interleaves the packets with
      responses and other channels, and is cut off anywhere, has its NAL units published whole and
      in order behind the session's parameter sets. */
  lemma CameraRoundTrip(text: Rtsp.Parser, units: seq<Interleaving.Unit>, cutOff: bytes, parameterSets: seq<bytes>,
                        stream: seq<Sending>, reserved: bool)
    requires Rtsp.PrefixStable(text) && Interleaving.CanSendUnits(text, units)
    requires Interleaving.Interleaved(text)(cutOff).Incomplete?
    requires CanSendAll(stream) && Carry(VideoUnits(units), Flatten(StreamPayloads(stream, reserved)))
    ensures Rtsp.PrefixStable(Interleaving.Interleaved(text)) && Timestamped(stream)
    ensures var wire := Interleaving.Wire(text, units) + cutOff;
      PublishedFrames(H264, State(Some(parameterSets), None),
                      Rtsp.DataFrames(Rtsp.Decode(Interleaving.Interleaved(text), wire)))
      == (if VideoUnits(units) == [] then []
          else SetFrames(H264, Some(parameterSets), Flatten(StreamPayloads(stream, reserved))[0].timestamp))
         + AllNalFrames(H264, stream)
  {
    Interleaving.WireFramesAreSent(text, units, cutOff);
    VideoOfMediaFrames(units);
    StreamRoundTrip(Some(parameterSets), None, VideoUnits(units), stream, reserved);
  }
}
