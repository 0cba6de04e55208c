/** RTP packets as RFC 3550 section 5.1 lays them out, and the ones the header parser accepts. */
module RtpPackets {
  import opened Bytes
  import opened Options
  import opened Depacketize

  datatype Extension = Extension(profile: u16, words: seq<u32>)

  /** Everything in a packet but its timestamp and payload. Padding is some filler, which the padding
      count follows. */
  datatype RtpFields = RtpFields(marker: bool, payloadType: nat, sequenceNumber: u16, ssrc: u32, csrcs: seq<u32>,
                                 extension: Option<Extension>, padding: Option<bytes>)

  ghost predicate CanSendFields(fields: RtpFields) {
    && fields.payloadType < 128 && |fields.csrcs| <= 15
    && (fields.extension.Some? ==> |fields.extension.value.words| < U16_LIMIT)
    && (fields.padding.Some? ==> |fields.padding.value| < 255)
  }

  ghost function Words(words: seq<u32>): (data: bytes)
    ensures |data| == 4 * |words|
  {
    if words == [] then [] else Be32(words[0]) + Words(words[1..])
  }

  ghost function FirstByte(fields: RtpFields): byte
    requires CanSendFields(fields)
  {
    128 + (if fields.padding.Some? then 32 else 0) + (if fields.extension.Some? then 16 else 0) + |fields.csrcs|
  }

  /** The twelve bytes every packet starts with. */
  ghost function FixedHeader(fields: RtpFields, timestamp: u32): (data: bytes)
    requires CanSendFields(fields)
    ensures |data| == 12
  {
    [FirstByte(fields), (if fields.marker then 128 else 0) + fields.payloadType]
    + Be16(fields.sequenceNumber) + Be32(timestamp) + Be32(fields.ssrc)
  }

  ghost function ExtensionBytes(extension: Option<Extension>): bytes
    requires extension.Some? ==> |extension.value.words| < U16_LIMIT
  {
    match extension
    case None => []
    case Some(Extension(profile, words)) => Be16(profile) + Be16(|words|) + Words(words)
  }

  ghost function PaddingBytes(padding: Option<bytes>): bytes
    requires padding.Some? ==> |padding.value| < 255
  {
    match padding
    case None => []
    case Some(filler) => filler + [|filler| + 1]
  }

  ghost function Packet(fields: RtpFields, header: RtpHeader): bytes
    requires CanSendFields(fields)
  {
    FixedHeader(fields, header.timestamp) + Words(fields.csrcs) + ExtensionBytes(fields.extension)
    + header.payload + PaddingBytes(fields.padding)
  }

  /** Some packet of that layout carries the timestamp and payload. */
  ghost predicate Carries(packet: bytes, header: RtpHeader) {
    exists fields :: CanSendFields(fields) && packet == Packet(fields, header)
  }

  lemma FirstByteBits(fields: RtpFields)
    requires CanSendFields(fields)
    ensures var first := FirstByte(fields);
      && first / 64 == 2 && first % 16 == |fields.csrcs|
      && (HasBit(first, 32) <==> fields.padding.Some?) && (HasBit(first, 16) <==> fields.extension.Some?)
  {
  }

  lemma FixedHeaderRead(fields: RtpFields, timestamp: u32, rest: bytes)
    requires CanSendFields(fields)
    ensures var packet := FixedHeader(fields, timestamp) + rest;
      packet[0] == FirstByte(fields) && ReadBe32(packet, 4) == timestamp
  {
    var packet := FixedHeader(fields, timestamp) + rest;
    assert packet[4..8] == Be32(timestamp);
    ReadBe32At(packet, 4, timestamp);
  }

  /** Where the payload starts, and how much padding follows it. */
  function PayloadStart(packet: bytes): Option<nat>
    requires |packet| >= 12
  {
    var fixed := 12 + 4 * (packet[0] % 16);
    if packet[0] / 16 % 2 == 0 then Some(fixed)
    else if |packet| < fixed + 4 then None
    else Some(fixed + 4 + ReadBe16(packet, fixed + 2) * 4)
  }

  function PaddingLength(packet: bytes): byte
    requires packet != []
  {
    if packet[0] / 32 % 2 == 1 then packet[|packet| - 1] else 0
  }

  /** A packet is read exactly when it is long enough, has version 2, and holds everything its header
      declares. */
  lemma ParseByParts(packet: bytes)
    ensures ParseRtpHeader(packet)
         == if |packet| < 12 then Failure(RtpTooShort)
            else if packet[0] / 64 != 2 then Failure(UnsupportedRtpVersion(packet[0] / 64))
            else if PayloadStart(packet).None? || |packet| - PaddingLength(packet) < PayloadStart(packet).value
            then Failure(RtpTooShort)
            else Success(RtpHeader(ReadBe32(packet, 4),
                                   packet[PayloadStart(packet).value..|packet| - PaddingLength(packet)]))
  {
  }

  /** Parsing finds the timestamp and the payload of every packet, whatever else it holds. */
  lemma ParsesSent(fields: RtpFields, header: RtpHeader)
    requires CanSendFields(fields)
    ensures ParseRtpHeader(Packet(fields, header)) == Success(header)
  {
    var front := FixedHeader(fields, header.timestamp) + Words(fields.csrcs) + ExtensionBytes(fields.extension);
    var back := PaddingBytes(fields.padding);
    var packet := Packet(fields, header);
    FirstByteBits(fields);
    FixedHeaderRead(fields, header.timestamp, packet[12..]);
    assert packet == FixedHeader(fields, header.timestamp) + packet[12..];
    ParseByParts(packet);
    SentPayloadStart(fields, header);
    Middle(front, header.payload, back);
  }

  lemma Middle(front: bytes, middle: bytes, back: bytes)
    ensures (front + middle + back)[|front|..|front| + |middle|] == middle
  {
  }

  lemma CarriedRead(packet: bytes, header: RtpHeader)
    requires Carries(packet, header)
    ensures ParseRtpHeader(packet) == Success(header)
  {
    var fields :| CanSendFields(fields) && packet == Packet(fields, header);
    ParsesSent(fields, header);
  }

  /** A version is named in the error exactly when the packet has it, is long enough to, and it is
      not 2. */
  lemma VersionRejected(packet: bytes, version: byte)
    ensures ParseRtpHeader(packet) == Failure(UnsupportedRtpVersion(version)) <==>
            |packet| >= 12 && packet[0] / 64 == version && version != 2
  {
    ParseByParts(packet);
  }

  lemma SentPayloadStart(fields: RtpFields, header: RtpHeader)
    requires CanSendFields(fields)
    ensures var packet := Packet(fields, header);
      && PayloadStart(packet) == Some(12 + 4 * |fields.csrcs| + |ExtensionBytes(fields.extension)|)
      && PaddingLength(packet) == |PaddingBytes(fields.padding)|
  {
    var packet := Packet(fields, header);
    FirstByteBits(fields);
    assert packet[0] == FirstByte(fields);
    if fields.extension.Some? {
      var words, at := fields.extension.value.words, 14 + 4 * |fields.csrcs|;
      assert packet[at..at + 2] == Be16(|words|);
      ReadBe16At(packet, at, |words|);
    }
  }

  // ----- Whatever is read was sent

  lemma WordAt(data: bytes, at: nat)
    requires at + 4 <= |data|
    ensures Be16(ReadBe16(data, at)) == data[at..at + 2] && Be32(ReadBe32(data, at)) == data[at..at + 4]
  {
    assert data[at..at + 4] == data[at..at + 2] + data[at + 2..at + 4];
    HalfAt(data, at);
    HalfAt(data, at + 2);
  }

  lemma HalfAt(data: bytes, at: nat)
    requires at + 2 <= |data|
    ensures Be16(ReadBe16(data, at)) == data[at..at + 2]
  {
  }

  lemma {:induction false} WordsOf(data: bytes, count: nat) returns (words: seq<u32>)
    requires |data| == 4 * count
    ensures |words| == count && Words(words) == data
  {
    if count == 0 {
      words := [];
    } else {
      words := WordsOf(data[4..], count - 1);
      WordAt(data, 0);
      assert data == data[0..4] + data[4..];
      words := [ReadBe32(data, 0)] + words;
    }
  }

  lemma ExtensionOf(packet: bytes, from: nat) returns (extension: Extension)
    requires from + 4 <= |packet| && from + 4 + ReadBe16(packet, from + 2) * 4 <= |packet|
    ensures |extension.words| == ReadBe16(packet, from + 2)
    ensures ExtensionBytes(Some(extension)) == packet[from..from + 4 + ReadBe16(packet, from + 2) * 4]
  {
    var count: nat := ReadBe16(packet, from + 2);
    var end := from + 4 + count * 4;
    var words := WordsOf(packet[from + 4..end], count);
    HalfAt(packet, from);
    HalfAt(packet, from + 2);
    extension := Extension(ReadBe16(packet, from), words);
    assert packet[from..end] == packet[from..from + 2] + packet[from + 2..from + 4] + packet[from + 4..end];
  }

  /** The padding bit is set and the count after the payload is zero, which the layout excludes. */
  predicate PadsNothing(packet: bytes) {
    packet != [] && packet[0] / 32 % 2 == 1 && packet[|packet| - 1] == 0
  }

  lemma FixedHeaderOf(packet: bytes, fields: RtpFields)
    requires |packet| >= 12 && packet[0] / 64 == 2 && CanSendFields(fields)
    requires |fields.csrcs| == packet[0] % 16
    requires fields.extension.Some? <==> packet[0] / 16 % 2 == 1
    requires fields.padding.Some? <==> packet[0] / 32 % 2 == 1
    requires (fields.marker <==> packet[1] >= 128) && fields.payloadType == packet[1] % 128
    requires fields.sequenceNumber == ReadBe16(packet, 2) && fields.ssrc == ReadBe32(packet, 8)
    ensures FixedHeader(fields, ReadBe32(packet, 4)) == packet[..12]
  {
    FirstByteOf(packet[0], fields);
    HalfAt(packet, 2);
    WordAt(packet, 4);
    WordAt(packet, 8);
    assert packet[..12] == [packet[0], packet[1]] + packet[2..4] + packet[4..8] + packet[8..12];
  }

  lemma FirstByteOf(first: byte, fields: RtpFields)
    requires first / 64 == 2 && CanSendFields(fields) && |fields.csrcs| == first % 16
    requires fields.extension.Some? <==> first / 16 % 2 == 1
    requires fields.padding.Some? <==> first / 32 % 2 == 1
    ensures FirstByte(fields) == first
  {
  }

  lemma PaddingOf(packet: bytes) returns (padding: Option<bytes>)
    requires packet != [] && !PadsNothing(packet) && PaddingLength(packet) <= |packet|
    ensures padding.Some? <==> packet[0] / 32 % 2 == 1
    ensures padding.Some? ==> |padding.value| < 255
    ensures PaddingBytes(padding) == packet[|packet| - PaddingLength(packet)..]
  {
    if packet[0] / 32 % 2 == 1 {
      var n := packet[|packet| - 1];
      padding := Some(packet[|packet| - n..|packet| - 1]);
      assert packet[|packet| - n..] == padding.value + [n];
    } else {
      padding := None;
    }
  }

  /** The fields of a packet that is read. */
  lemma FieldsOf(packet: bytes, header: RtpHeader) returns (fields: RtpFields)
    requires ParseRtpHeader(packet) == Success(header) && !PadsNothing(packet)
    ensures CanSendFields(fields) && packet == Packet(fields, header)
  {
    ParseByParts(packet);
    var start, csrcsEnd := PayloadStart(packet).value, 12 + 4 * (packet[0] % 16);
    var csrcs := WordsOf(packet[12..csrcsEnd], packet[0] % 16);
    var extension := OptionalExtension(packet, csrcsEnd, start);
    var padding := PaddingOf(packet);
    fields := RtpFields(packet[1] >= 128, packet[1] % 128, ReadBe16(packet, 2), ReadBe32(packet, 8), csrcs,
                        extension, padding);
    FixedHeaderOf(packet, fields);
    Joined(packet, 12, csrcsEnd, start, |packet| - PaddingLength(packet));
  }

  lemma OptionalExtension(packet: bytes, from: nat, start: nat) returns (extension: Option<Extension>)
    requires |packet| >= 12 && from == 12 + 4 * (packet[0] % 16)
    requires PayloadStart(packet) == Some(start) && start <= |packet|
    ensures extension.Some? <==> packet[0] / 16 % 2 == 1
    ensures extension.Some? ==> |extension.value.words| < U16_LIMIT
    ensures from <= start && ExtensionBytes(extension) == packet[from..start]
  {
    if packet[0] / 16 % 2 == 1 {
      var found := ExtensionOf(packet, from);
      extension := Some(found);
    } else {
      extension := None;
    }
  }

  lemma Joined(packet: bytes, a: nat, b: nat, c: nat, d: nat)
    requires a <= b <= c <= d <= |packet|
    ensures packet == packet[..a] + packet[a..b] + packet[b..c] + packet[c..d] + packet[d..]
  {
  }

  /** The same packet without its padding bit. */
  function WithoutPaddingBit(packet: bytes): bytes
    requires PadsNothing(packet)
  {
    [packet[0] - 32] + packet[1..]
  }

  lemma PaddingBitCleared(packet: bytes)
    requires PadsNothing(packet)
    ensures !PadsNothing(WithoutPaddingBit(packet))
    ensures ParseRtpHeader(WithoutPaddingBit(packet)) == ParseRtpHeader(packet)
  {
    var cleared := WithoutPaddingBit(packet);
    ClearedBits(packet[0]);
    SameParts(cleared, packet);
    ParseByParts(packet);
    ParseByParts(cleared);
    forall k | 0 < k <= |packet|
      ensures cleared[k..|packet|] == packet[k..|packet|]
    {
      assert cleared[k..|packet|] == cleared[k..] && packet[k..|packet|] == packet[k..];
    }
  }

  lemma SameParts(a: bytes, b: bytes)
    requires |a| == |b| > 0 && a[1..] == b[1..] && a[0] % 16 == b[0] % 16 && a[0] / 16 % 2 == b[0] / 16 % 2
    ensures |a| >= 12 ==> PayloadStart(a) == PayloadStart(b) && ReadBe32(a, 4) == ReadBe32(b, 4)
    ensures forall k :: 0 < k <= |a| ==> a[k..] == b[k..]
  {
    assert forall i :: 0 < i < |a| ==> a[i] == a[1..][i - 1] && b[i] == b[1..][i - 1];
  }

  lemma ClearedBits(first: byte)
    requires first / 32 % 2 == 1
    ensures first >= 32 && (first - 32) / 64 == first / 64 && (first - 32) % 16 == first % 16
    ensures (first - 32) / 16 % 2 == first / 16 % 2 && (first - 32) / 32 % 2 == 0
  {
  }

  /** A packet is read as a timestamp and a payload exactly when it is a packet of the layout that
      carries them; a padding count of zero is read as no padding. */
  lemma ReadExactlySent(packet: bytes, header: RtpHeader)
    ensures ParseRtpHeader(packet) == Success(header) <==>
            Carries(if PadsNothing(packet) then WithoutPaddingBit(packet) else packet, header)
  {
    var sent := if PadsNothing(packet) then WithoutPaddingBit(packet) else packet;
    if PadsNothing(packet) {
      PaddingBitCleared(packet);
    }
    if ParseRtpHeader(sent) == Success(header) {
      var fields := FieldsOf(sent, header);
    }
    if Carries(sent, header) {
      CarriedRead(sent, header);
    }
  }
}
