/** Media packets interleaved with text messages on one connection (RFC 2326 section 10.12). */
module Interleaving {
  import opened Bytes
  import opened RtspSession

  const DOLLAR: byte := 36
  const FRAME_HEADER_LEN := 4

  /** A byte stream whose `$` frames are media packets and whose other messages `text` parses. */
  function ParseInterleaved(text: Parser, b: bytes): ParseOutcome {
    if b == [] then Incomplete
    else if b[0] != DOLLAR then text(b)
    else if |b| < FRAME_HEADER_LEN || |b| < FRAME_HEADER_LEN + ReadBe16(b, 2) then Incomplete
    else
      var end := FRAME_HEADER_LEN + ReadBe16(b, 2);
      Parsed(Data(RtpPacket(b[1], b[FRAME_HEADER_LEN..end])), end)
  }

  function Interleaved(text: Parser): Parser {
    (b: bytes) => ParseInterleaved(text, b)
  }

  /** Interleaving keeps a parser's successes stable under later bytes. */
  lemma InterleavedStable(text: Parser)
    requires PrefixStable(text)
    ensures PrefixStable(Interleaved(text))
  {
    forall b
      ensures Consumes(Interleaved(text), b)
    {
      assert Consumes(text, b);
    }
    forall b, more
      ensures Stable(Interleaved(text), b, more)
    {
      assert Stable(text, b, more);
      if b != [] && b[0] == DOLLAR && ParseInterleaved(text, b).Parsed? {
        var end := FRAME_HEADER_LEN + ReadBe16(b, 2);
        assert ReadBe16(b + more, 2) == ReadBe16(b, 2);
        assert (b + more)[FRAME_HEADER_LEN..end] == b[FRAME_HEADER_LEN..end];
      }
    }
  }

  /** What the camera puts on the wire. */
  datatype Unit = MediaFrame(packet: RtpPacket) | TextMessage(text: bytes, message: Message)

  ghost predicate CanSendUnit(text: Parser, unit: Unit) {
    match unit
    case MediaFrame(packet) => |packet.payload| < U16_LIMIT
    case TextMessage(sent, message) =>
      sent != [] && sent[0] != 36 && !message.Data? && text(sent) == Parsed(message, |sent|)
  }

  ghost predicate CanSendUnits(text: Parser, units: seq<Unit>) {
    forall i :: 0 <= i < |units| ==> CanSendUnit(text, units[i])
  }

  ghost function UnitBytes(unit: Unit): bytes
    requires unit.MediaFrame? ==> |unit.packet.payload| < U16_LIMIT
  {
    match unit
    case MediaFrame(packet) => [36, packet.channel] + Be16(|packet.payload|) + packet.payload
    case TextMessage(sent, _) => sent
  }

  ghost function Wire(text: Parser, units: seq<Unit>): bytes
    requires CanSendUnits(text, units)
  {
    if units == [] then [] else UnitBytes(units[0]) + Wire(text, units[1..])
  }

  ghost function MessageOf(unit: Unit): Message {
    if unit.MediaFrame? then Data(unit.packet) else unit.message
  }

  ghost function MessagesOf(units: seq<Unit>): seq<Message> {
    if units == [] then [] else [MessageOf(units[0])] + MessagesOf(units[1..])
  }

  /** The media packets among the units, in order. */
  ghost function MediaFrames(units: seq<Unit>): seq<RtpPacket> {
    if units == [] then []
    else (if units[0].MediaFrame? then [units[0].packet] else []) + MediaFrames(units[1..])
  }

  lemma UnitParses(text: Parser, unit: Unit)
    requires PrefixStable(text) && CanSendUnit(text, unit)
    ensures Interleaved(text)(UnitBytes(unit)) == Parsed(MessageOf(unit), |UnitBytes(unit)|)
  {
    if unit.MediaFrame? {
      var sent := UnitBytes(unit);
      var n := |unit.packet.payload|;
      assert sent[2] == Be16(n)[0] && sent[3] == Be16(n)[1];
      assert ReadBe16(sent, 2) == n;
      assert sent[FRAME_HEADER_LEN..FRAME_HEADER_LEN + n] == unit.packet.payload;
    }
  }

  /** Decoding a wire gives the messages put on it, then those of whatever follows. */
  lemma {:induction false} WireDecodes(text: Parser, units: seq<Unit>, more: bytes)
    requires PrefixStable(text) && CanSendUnits(text, units)
    ensures PrefixStable(Interleaved(text))
    ensures Decode(Interleaved(text), Wire(text, units) + more) == MessagesOf(units) + Decode(Interleaved(text), more)
    decreases |units|
  {
    InterleavedStable(text);
    if units == [] {
      EmptyFirst(more);
      EmptyFirst(Decode(Interleaved(text), more));
    } else {
      var first := UnitBytes(units[0]);
      UnitParses(text, units[0]);
      Associate(first, Wire(text, units[1..]), more);
      DecodeFirst(Interleaved(text), first, Wire(text, units[1..]) + more);
      EmptyFirst(Wire(text, units[1..]) + more);
      assert first[|first|..] == [];
      WireDecodes(text, units[1..], more);
      Associate([MessageOf(units[0])], MessagesOf(units[1..]), Decode(Interleaved(text), more));
    }
  }

  lemma {:induction false} MediaFramesAreData(text: Parser, units: seq<Unit>)
    requires CanSendUnits(text, units)
    ensures DataFrames(MessagesOf(units)) == MediaFrames(units)
  {
    if units != [] {
      assert CanSendUnit(text, units[0]);
      MediaFramesAreData(text, units[1..]);
      FirstMessage(MessageOf(units[0]), MessagesOf(units[1..]));
    }
  }

  /** The media packets on a wire are the ones the camera framed, whatever responses lie between
      them, and even when the wire ends inside a message. */
  lemma WireFramesAreSent(text: Parser, units: seq<Unit>, cutOff: bytes)
    requires PrefixStable(text) && CanSendUnits(text, units) && Interleaved(text)(cutOff).Incomplete?
    ensures PrefixStable(Interleaved(text))
    ensures DataFrames(Decode(Interleaved(text), Wire(text, units) + cutOff)) == MediaFrames(units)
  {
    WireDecodes(text, units, cutOff);
    MediaFramesAreData(text, units);
    assert MessagesOf(units) + [] == MessagesOf(units);
  }
}
