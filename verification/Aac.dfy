/** AAC over RTP (RFC 3640): access-unit sizes packed bit by bit, then the units themselves. */
module AacDepacketizing {
  import opened Bytes
  import opened Options
  import opened Depacketize
  import opened RtpPackets

  /** Field widths of an AU-header, in bits. */
  datatype BitWidths = BitWidths(size: byte, index: byte, indexDelta: byte)

  /** A bit is 0 or 1. */
  type bit = x: int | 0 <= x < 2

  // ----- Bits, most significant first

  function Weight(k: nat): nat
    requires k < 8
  {
    [128, 64, 32, 16, 8, 4, 2, 1][k]
  }

  function BitAt(data: bytes, pos: nat): bit
    requires pos < 8 * |data|
  {
    data[pos / 8] / Weight(pos % 8) % 2
  }

  ghost function Bits(data: bytes): (bits: seq<bit>)
    ensures |bits| == 8 * |data|
  {
    seq(8 * |data|, i requires 0 <= i < 8 * |data| => BitAt(data, i))
  }

  /** The number the bits spell; a 64-bit `usize` drops bits shifted out at the top. */
  ghost function Value(bits: seq<bit>): (v: u64) {
    if bits == [] then 0 else Value(bits[..|bits| - 1]) * 2 % U64_LIMIT + bits[|bits| - 1]
  }

  ghost function FieldBits(v: nat, width: nat): (bits: seq<bit>)
    ensures |bits| == width
  {
    if width == 0 then [] else FieldBits(v / 2, width - 1) + [v % 2]
  }

  ghost function Pow2(n: nat): nat {
    if n == 0 then 1 else 2 * Pow2(n - 1)
  }

  lemma {:induction false} ValueOfField(v: nat, width: nat)
    requires v < Pow2(width) && v < U64_LIMIT
    ensures Value(FieldBits(v, width)) == v
  {
    if width > 0 {
      ValueOfField(v / 2, width - 1);
      assert FieldBits(v, width)[..width - 1] == FieldBits(v / 2, width - 1);
    }
  }

  /** The number in `count` bits from `from` on. */
  ghost function Field(data: bytes, from: nat, count: nat): u64
    requires from + count <= 8 * |data|
  {
    Value(Bits(data)[from..from + count])
  }

  lemma FieldStep(data: bytes, from: nat, count: nat)
    requires from + count < 8 * |data|
    ensures Field(data, from, count + 1) == Field(data, from, count) * 2 % U64_LIMIT + BitAt(data, from + count)
  {
    assert Bits(data)[from..from + count + 1] == Bits(data)[from..from + count] + [BitAt(data, from + count)];
  }

  class BitReader {
    const data: bytes
    var bitPos: nat

    ghost predicate Valid()
      reads this
    {
      bitPos <= 8 * |data|
    }

    constructor (data: bytes)
      ensures Valid() && this.data == data && bitPos == 0
    {
      this.data := data;
      bitPos := 0;
    }

    /** Reads `count` bits, or fails when fewer are left. */
    method ReadBits(count: byte) returns (r: Result<u64>)
      requires Valid()
      modifies this`bitPos
      ensures Valid()
      ensures old(bitPos) + count > 8 * |data| ==> r == Failure(TruncatedAccessUnit)
      ensures old(bitPos) + count <= 8 * |data| ==>
                bitPos == old(bitPos) + count && r == Success(Field(data, old(bitPos), count))
    {
      var value: u64 := 0;
      ghost var start := bitPos;
      for i := 0 to count
        invariant Valid() && bitPos == start + i
        invariant value == Field(data, start, i)
      {
        if bitPos / 8 >= |data| {
          return Failure(TruncatedAccessUnit);
        }
        FieldStep(data, start, i);
        value := value * 2 % U64_LIMIT + BitAt(data, bitPos);
        bitPos := bitPos + 1;
      }
      return Success(value);
    }
  }

  // ----- AU-headers

  function HeaderWidth(widths: BitWidths, first: bool): nat {
    widths.size + (if first then widths.index else widths.indexDelta)
  }

  /** The size loop never returns: every header after the first has no width, and header bits
      are left for it after the first. */
  predicate Stuck(widths: BitWidths, length: nat) {
    length > HeaderWidth(widths, true) && HeaderWidth(widths, false) == 0
  }

  /** The headers from here on, of which the first may be the section's first, run out. */
  predicate Advances(widths: BitWidths, length: nat, consumed: nat, first: bool) {
    HeaderWidth(widths, false) > 0 || consumed + (if first then HeaderWidth(widths, true) else 0) >= length
  }

  /** The sizes the headers from bit `consumed` on declare. */
  ghost function SizesFrom(header: bytes, widths: BitWidths, length: nat, consumed: nat, first: bool): Result<seq<nat>>
    requires Advances(widths, length, consumed, first)
    decreases length - consumed, first
  {
    if consumed >= length then Success([])
    else
      var end := consumed + HeaderWidth(widths, first);
      if end > 8 * |header| then Failure(TruncatedAccessUnit)
      else
        var rest := SizesFrom(header, widths, length, end, false);
        if rest.Failure? then rest
        else Success([Field(header, consumed, widths.size)] + rest.value)
  }

  ghost function Prepend(sizes: seq<nat>, rest: Result<seq<nat>>): Result<seq<nat>> {
    if rest.Failure? then rest else Success(sizes + rest.value)
  }

  /** One header: its size field, and its index field, which is skipped. */
  method ReadAuHeader(reader: BitReader, widths: BitWidths, first: bool) returns (r: Result<nat>)
    requires reader.Valid()
    modifies reader`bitPos
    ensures reader.Valid()
    ensures var start, width := old(reader.bitPos), HeaderWidth(widths, first);
      if start + width > 8 * |reader.data| then r == Failure(TruncatedAccessUnit)
      else reader.bitPos == start + width && r == Success(Field(reader.data, start, widths.size))
  {
    var size := reader.ReadBits(widths.size);
    if size.Failure? {
      return Failure(size.error);
    }
    var indexBits := if first then widths.index else widths.indexDelta;
    var index := reader.ReadBits(indexBits);
    if index.Failure? {
      return Failure(index.error);
    }
    return Success(size.value);
  }

  method ReadAccessUnitSizes(widths: BitWidths, header: bytes, length: nat) returns (r: Result<seq<nat>>)
    requires !Stuck(widths, length)
    ensures r == SizesFrom(header, widths, length, 0, true)
  {
    var reader := new BitReader(header);
    var sizes: seq<nat> := [];
    var consumedBits := 0;
    PrependNothing(SizesFrom(header, widths, length, 0, true));
    while consumedBits < length
      invariant reader.data == header && reader.Valid()
      invariant Advances(widths, length, consumedBits, sizes == [])
      invariant reader.bitPos == consumedBits
      invariant SizesFrom(header, widths, length, 0, true)
             == Prepend(sizes, SizesFrom(header, widths, length, consumedBits, sizes == []))
      decreases length - consumedBits, sizes == []
    {
      var size := ReadAuHeader(reader, widths, sizes == []);
      if size.Failure? {
        return Failure(size.error);
      }
      SizeMoves(header, widths, length, consumedBits, sizes);
      consumedBits := consumedBits + HeaderWidth(widths, sizes == []);
      sizes := sizes + [size.value];
    }
    assert sizes + [] == sizes;
    return Success(sizes);
  }

  lemma PrependNothing(rest: Result<seq<nat>>)
    ensures Prepend([], rest) == rest
  {
    assert rest.Success? ==> [] + rest.value == rest.value;
  }

  lemma SizeMoves(header: bytes, widths: BitWidths, length: nat, consumed: nat, sizes: seq<nat>)
    requires consumed < length && Advances(widths, length, consumed, sizes == [])
    requires consumed + HeaderWidth(widths, sizes == []) <= 8 * |header|
    ensures var end := consumed + HeaderWidth(widths, sizes == []);
      Prepend(sizes, SizesFrom(header, widths, length, consumed, sizes == []))
      == Prepend(sizes + [Field(header, consumed, widths.size)],
                 SizesFrom(header, widths, length, end, false))
  {
    var size := Field(header, consumed, widths.size);
    var rest := SizesFrom(header, widths, length, consumed + HeaderWidth(widths, sizes == []), false);
    if rest.Success? {
      assert sizes + ([size] + rest.value) == sizes + [size] + rest.value;
    }
  }

  // ----- Access units

  /** The units of the given sizes, one after the other. */
  ghost function ExtractFrom(payload: bytes, offset: nat, sizes: seq<nat>): Result<seq<bytes>>
    decreases |sizes|
  {
    if sizes == [] then Success([])
    else if offset + sizes[0] > |payload| then Failure(TruncatedAccessUnit)
    else
      var rest := ExtractFrom(payload, offset + sizes[0], sizes[1..]);
      if rest.Failure? then rest else Success([payload[offset..offset + sizes[0]]] + rest.value)
  }

  /** Where the header section ends, when it is whole. */
  function HeadersEnd(payload: bytes): Option<nat> {
    if |payload| < 2 then None
    else
      var end := 2 + (ReadBe16(payload, 0) + 7) / 8;
      if end > |payload| then None else Some(end)
  }

  /** A payload on which the source's size loop would not return. */
  predicate StuckOn(widths: BitWidths, payload: bytes) {
    HeadersEnd(payload).Some? && Stuck(widths, ReadBe16(payload, 0))
  }

  /** The access units a payload declares. */
  ghost function AccessUnits(widths: BitWidths, payload: bytes): Result<seq<bytes>>
    requires !StuckOn(widths, payload)
  {
    match HeadersEnd(payload)
    case None => Failure(TruncatedAccessUnit)
    case Some(end) =>
      var sizes :- SizesFrom(payload[2..end], widths, ReadBe16(payload, 0), 0, true);
      ExtractFrom(payload, end, sizes)
  }

  /** What a packet comes to. */
  ghost function PacketFrames(widths: BitWidths, packet: bytes): Result<seq<Frame>>
    requires ParseRtpHeader(packet).Success? ==> !StuckOn(widths, ParseRtpHeader(packet).value.payload)
  {
    var header :- ParseRtpHeader(packet);
    var units :- AccessUnits(widths, header.payload);
    Success(AacFrames(header.timestamp, units))
  }

  ghost function AacFrames(timestamp: u32, units: seq<bytes>): (frames: seq<Frame>)
    ensures |frames| == |units|
  {
    seq(|units|, i requires 0 <= i < |units| => Frame(Aac, timestamp, units[i]))
  }

  class AacDepacketizer {
    const bitWidths: BitWidths

    constructor (bitWidths: BitWidths)
      ensures this.bitWidths == bitWidths
    {
      this.bitWidths := bitWidths;
    }

    method Depacketize(rtpPacket: bytes) returns (r: Result<seq<Frame>>)
      requires ParseRtpHeader(rtpPacket).Success? ==> !StuckOn(bitWidths, ParseRtpHeader(rtpPacket).value.payload)
      ensures r == PacketFrames(bitWidths, rtpPacket)
    {
      var header := ParseRtpHeader(rtpPacket);
      if header.Failure? {
        return Failure(header.error);
      }
      var payload := header.value.payload;
      if HeadersEnd(payload).None? {
        return Failure(TruncatedAccessUnit);
      }
      var headersEnd := HeadersEnd(payload).value;
      var sizes := ReadAccessUnitSizes(bitWidths, payload[2..headersEnd], ReadBe16(payload, 0));
      if sizes.Failure? {
        return Failure(sizes.error);
      }
      r := CutAccessUnits(payload, headersEnd, sizes.value, header.value.timestamp);
    }
  }

  /** The loop that cuts the payload by the sizes. */
  method CutAccessUnits(payload: bytes, start: nat, sizes: seq<nat>, timestamp: u32) returns (r: Result<seq<Frame>>)
    ensures match ExtractFrom(payload, start, sizes)
            case Failure(error) => r == Failure(error)
            case Success(units) => r == Success(AacFrames(timestamp, units))
  {
    var offset: nat := start;
    var frames: seq<Frame> := [];
    ghost var units: seq<bytes> := [];
    UnitsBehindNothing(ExtractFrom(payload, start, sizes));
    for i := 0 to |sizes|
      invariant frames == AacFrames(timestamp, units)
      invariant ExtractFrom(payload, start, sizes) == UnitsBehind(units, ExtractFrom(payload, offset, sizes[i..]))
    {
      if offset + sizes[i] > |payload| {
        return Failure(TruncatedAccessUnit);
      }
      var accessUnit := payload[offset..offset + sizes[i]];
      AccessUnitMoves(payload, offset, sizes[i..], units);
      assert sizes[i..][1..] == sizes[i + 1..];
      frames := frames + [Frame(Aac, timestamp, accessUnit)];
      units := units + [accessUnit];
      assert AacFrames(timestamp, units)
          == AacFrames(timestamp, units[..|units| - 1]) + [Frame(Aac, timestamp, accessUnit)];
      offset := offset + sizes[i];
    }
    assert units + [] == units;
    return Success(frames);
  }

  ghost function UnitsBehind(units: seq<bytes>, rest: Result<seq<bytes>>): Result<seq<bytes>> {
    if rest.Failure? then rest else Success(units + rest.value)
  }

  lemma UnitsBehindNothing(rest: Result<seq<bytes>>)
    ensures UnitsBehind([], rest) == rest
  {
    assert rest.Success? ==> [] + rest.value == rest.value;
  }

  lemma AccessUnitMoves(payload: bytes, offset: nat, sizes: seq<nat>, units: seq<bytes>)
    requires sizes != [] && offset + sizes[0] <= |payload|
    ensures UnitsBehind(units, ExtractFrom(payload, offset, sizes))
         == UnitsBehind(units + [payload[offset..offset + sizes[0]]],
                        ExtractFrom(payload, offset + sizes[0], sizes[1..]))
  {
    var unit := payload[offset..offset + sizes[0]];
    var rest := ExtractFrom(payload, offset + sizes[0], sizes[1..]);
    if rest.Success? {
      assert units + ([unit] + rest.value) == units + [unit] + rest.value;
    }
  }

  // ----- The sender's side (RFC 3640 section 3.2.1)

  datatype AccessUnit = AccessUnit(data: bytes, index: nat)

  ghost function HeaderBits(widths: BitWidths, units: seq<AccessUnit>, first: bool): seq<bit> {
    if units == [] then []
    else
      FieldBits(|units[0].data|, widths.size)
      + FieldBits(units[0].index, if first then widths.index else widths.indexDelta)
      + HeaderBits(widths, units[1..], false)
  }

  ghost function Octet(b: seq<int>): int
    requires |b| == 8
  {
    128 * b[0] + 64 * b[1] + 32 * b[2] + 16 * b[3] + 8 * b[4] + 4 * b[5] + 2 * b[6] + b[7]
  }

  ghost function PackByte(bits: seq<bit>): byte
    requires |bits| == 8
  {
    Octet(bits)
  }

  lemma HighBit(b: seq<int>, k: nat)
    requires |b| == 8 && k < 4 && forall i :: 0 <= i < 8 ==> 0 <= b[i] < 2
    ensures Octet(b) / Weight(k) % 2 == b[k]
  {
    var v := Octet(b);
    if k == 0 {
      assert v / 128 == b[0];
    } else if k == 1 {
      assert v / 64 == 2 * b[0] + b[1];
    } else if k == 2 {
      assert v / 32 == 2 * (2 * b[0] + b[1]) + b[2];
    } else {
      assert v / 16 == 2 * (4 * b[0] + 2 * b[1] + b[2]) + b[3];
    }
  }

  lemma LowBit(b: seq<int>, k: nat)
    requires |b| == 8 && 4 <= k < 8 && forall i :: 0 <= i < 8 ==> 0 <= b[i] < 2
    ensures Octet(b) / Weight(k) % 2 == b[k]
  {
    var v := Octet(b);
    if k == 4 {
      assert v / 8 == 2 * (8 * b[0] + 4 * b[1] + 2 * b[2] + b[3]) + b[4];
    } else if k == 5 {
      assert v / 4 == 2 * (16 * b[0] + 8 * b[1] + 4 * b[2] + 2 * b[3] + b[4]) + b[5];
    } else if k == 6 {
      assert v / 2 == 2 * (32 * b[0] + 16 * b[1] + 8 * b[2] + 4 * b[3] + 2 * b[4] + b[5]) + b[6];
    }
  }

  ghost function FirstEight(bits: seq<bit>): (r: seq<bit>)
    ensures |r| == 8
  {
    seq(8, i requires 0 <= i < 8 => if i < |bits| then bits[i] else 0)
  }

  /** The bits in bytes, the last one padded with zeros. */
  ghost function PackBits(bits: seq<bit>): (data: bytes)
    ensures |data| == (|bits| + 7) / 8
  {
    if bits == [] then []
    else [PackByte(FirstEight(bits))] + (if |bits| <= 8 then [] else PackBits(bits[8..]))
  }

  lemma {:induction false} PackedBits(bits: seq<bit>, i: nat)
    requires i < |bits|
    ensures BitAt(PackBits(bits), i) == bits[i]
    decreases i
  {
    var first := FirstEight(bits);
    if i < 4 {
      HighBit(first, i);
    } else if i < 8 {
      LowBit(first, i);
    } else {
      PackedBits(bits[8..], i - 8);
      assert PackBits(bits)[i / 8] == PackBits(bits[8..])[(i - 8) / 8];
    }
  }

  ghost function UnitData(units: seq<AccessUnit>): (data: seq<bytes>)
    ensures |data| == |units|
  {
    seq(|units|, i requires 0 <= i < |units| => units[i].data)
  }

  ghost function Sizes(units: seq<AccessUnit>): (sizes: seq<nat>)
    ensures |sizes| == |units|
  {
    seq(|units|, i requires 0 <= i < |units| => |units[i].data|)
  }

  /** Every size fits its field, and the header section its length. */
  ghost predicate CanPack(widths: BitWidths, units: seq<AccessUnit>) {
    SizesFit(widths, units) && |HeaderBits(widths, units, true)| < U16_LIMIT
  }

  /** The last unit's header, first header or not, takes up bits. */
  ghost predicate LastHeaderHasWidth(widths: BitWidths, units: seq<AccessUnit>, first: bool) {
    units != [] ==> HeaderWidth(widths, first && |units| == 1) > 0
  }

  /** The payload that packs the units: header length in bits, headers, units. */
  ghost function PayloadOf(widths: BitWidths, units: seq<AccessUnit>): bytes
    requires CanPack(widths, units)
  {
    var bits := HeaderBits(widths, units, true);
    Be16(|bits|) + PackBits(bits) + Concat(UnitData(units))
  }

  /** The bits occur in the data at position `from`. */
  ghost predicate BitsAt(data: bytes, from: nat, bits: seq<bit>) {
    from + |bits| <= 8 * |data| && Bits(data)[from..from + |bits|] == bits
  }

  lemma FieldRead(header: bytes, from: nat, v: nat, width: nat)
    requires BitsAt(header, from, FieldBits(v, width)) && v < Pow2(width) && v < U64_LIMIT
    ensures Field(header, from, width) == v
  {
    ValueOfField(v, width);
  }

  lemma SliceSplit<T>(s: seq<T>, from: nat, left: seq<T>, right: seq<T>)
    requires from + |left + right| <= |s| && s[from..from + |left + right|] == left + right
    ensures s[from..from + |left|] == left && s[from + |left|..from + |left| + |right|] == right
  {
    var part := s[from..from + |left + right|];
    assert s[from..from + |left|] == part[..|left|];
    assert s[from + |left|..from + |left| + |right|] == part[|left|..];
  }

  lemma BitsAtSplit(data: bytes, from: nat, left: seq<bit>, right: seq<bit>)
    requires BitsAt(data, from, left + right)
    ensures BitsAt(data, from, left) && BitsAt(data, from + |left|, right)
  {
    SliceSplit(Bits(data), from, left, right);
  }

  lemma FirstHeader(header: bytes, widths: BitWidths, units: seq<AccessUnit>, first: bool, consumed: nat)
    requires units != [] && |units[0].data| < Pow2(widths.size) && |units[0].data| < U64_LIMIT
    requires BitsAt(header, consumed, HeaderBits(widths, units, first))
    ensures var end := consumed + HeaderWidth(widths, first);
      && consumed + widths.size <= 8 * |header| && Field(header, consumed, widths.size) == |units[0].data|
      && BitsAt(header, end, HeaderBits(widths, units[1..], false))
      && consumed + |HeaderBits(widths, units, first)| == end + |HeaderBits(widths, units[1..], false)|
  {
    var size := FieldBits(|units[0].data|, widths.size);
    var index := FieldBits(units[0].index, if first then widths.index else widths.indexDelta);
    var rest := HeaderBits(widths, units[1..], false);
    BitsAtSplit(header, consumed, size + index, rest);
    BitsAtSplit(header, consumed, size, index);
    FieldRead(header, consumed, |units[0].data|, widths.size);
  }

  ghost predicate SizesFit(widths: BitWidths, units: seq<AccessUnit>) {
    forall i :: 0 <= i < |units| ==> |units[i].data| < Pow2(widths.size) && |units[i].data| < U64_LIMIT
  }

  /** The section holds one header a unit from bit `consumed` to its end, each with the unit's size. */
  ghost predicate Declares(header: bytes, widths: BitWidths, consumed: nat, length: nat, first: bool,
                           units: seq<AccessUnit>)
    decreases |units|
  {
    if units == [] then consumed == length
    else
      var end := consumed + HeaderWidth(widths, first);
      && end <= length && end <= 8 * |header|
      && Field(header, consumed, widths.size) == |units[0].data|
      && Declares(header, widths, end, length, false, units[1..])
  }

  lemma {:induction false} PackedDeclares(header: bytes, widths: BitWidths, units: seq<AccessUnit>, first: bool,
                                          consumed: nat)
    requires SizesFit(widths, units) && BitsAt(header, consumed, HeaderBits(widths, units, first))
    ensures Declares(header, widths, consumed, consumed + |HeaderBits(widths, units, first)|, first, units)
    decreases |units|
  {
    if units != [] {
      FirstHeader(header, widths, units, first, consumed);
      PackedDeclares(header, widths, units[1..], false, consumed + HeaderWidth(widths, first));
    }
  }

  lemma {:induction false} DeclaresLength(header: bytes, widths: BitWidths, consumed: nat, length: nat, first: bool,
                                          units: seq<AccessUnit>)
    requires Declares(header, widths, consumed, length, first, units)
    ensures units != [] ==> length >= consumed + HeaderWidth(widths, first && |units| == 1)
    ensures |units| == 1 ==> length == consumed + HeaderWidth(widths, first)
    ensures |units| > 1 ==> length >= consumed + HeaderWidth(widths, first) + HeaderWidth(widths, false)
    decreases |units|
  {
    if |units| > 1 {
      DeclaresLength(header, widths, consumed + HeaderWidth(widths, first), length, false, units[1..]);
    }
  }

  /** The headers from bit `consumed` on give back the sizes they declare. */
  lemma {:induction false} SizesOfHeaders(header: bytes, widths: BitWidths, units: seq<AccessUnit>, first: bool,
                                          consumed: nat, length: nat)
    requires LastHeaderHasWidth(widths, units, first)
    requires Declares(header, widths, consumed, length, first, units)
    ensures Advances(widths, length, consumed, first)
    ensures SizesFrom(header, widths, length, consumed, first) == Success(Sizes(units))
    decreases |units|
  {
    if units != [] {
      DeclaresLength(header, widths, consumed, length, first, units);
      var end := consumed + HeaderWidth(widths, first);
      SizesOfHeaders(header, widths, units[1..], false, end, length);
      SizeInFront(header, widths, length, consumed, first, |units[0].data|, Sizes(units[1..]));
      assert Sizes(units) == [|units[0].data|] + Sizes(units[1..]);
    }
  }

  lemma SizeInFront(header: bytes, widths: BitWidths, length: nat, consumed: nat, first: bool, size: nat,
                    rest: seq<nat>)
    requires consumed < length && Advances(widths, length, consumed, first)
    requires var end := consumed + HeaderWidth(widths, first);
      && end <= 8 * |header| && Field(header, consumed, widths.size) == size
      && Advances(widths, length, end, false) && SizesFrom(header, widths, length, end, false) == Success(rest)
    ensures SizesFrom(header, widths, length, consumed, first) == Success([size] + rest)
  {
  }

  lemma {:induction false} HeaderBitsLength(widths: BitWidths, units: seq<AccessUnit>, first: bool)
    ensures units != [] ==>
              |HeaderBits(widths, units, first)| >= HeaderWidth(widths, first)
              && (|units| > 1 ==>
                    |HeaderBits(widths, units, first)| >= HeaderWidth(widths, first) + HeaderWidth(widths, false))
              && (|units| == 1 || HeaderWidth(widths, false) == 0 ==>
                    |HeaderBits(widths, units, first)| == HeaderWidth(widths, first))
    decreases |units|
  {
    if units != [] {
      HeaderBitsLength(widths, units[1..], false);
    }
  }

  lemma {:induction false} ExtractConcat(payload: bytes, offset: nat, units: seq<AccessUnit>)
    requires offset <= |payload| && Concat(UnitData(units)) <= payload[offset..]
    ensures ExtractFrom(payload, offset, Sizes(units)) == Success(UnitData(units))
    decreases |units|
  {
    if units != [] {
      var data, rest := units[0].data, Concat(UnitData(units[1..]));
      var tail := payload[offset..];
      assert UnitData(units)[1..] == UnitData(units[1..]) && Sizes(units)[1..] == Sizes(units[1..]);
      assert tail[..|data|] == data && payload[offset..offset + |data|] == tail[..|data|];
      assert payload[offset + |data|..] == tail[|data|..];
      ExtractConcat(payload, offset + |data|, units[1..]);
      assert UnitData(units) == [data] + UnitData(units[1..]);
    }
  }

  lemma PayloadParts(count: u16, header: bytes, data: bytes, trailing: bytes)
    requires |header| == (count + 7) / 8
    ensures var payload := Be16(count) + header + data + trailing;
      && ReadBe16(payload, 0) == count && HeadersEnd(payload) == Some(2 + |header|)
      && payload[2..2 + |header|] == header && payload[2 + |header|..] == data + trailing
  {
    var payload := Be16(count) + header + data + trailing;
    assert payload[0..2] == Be16(count);
    ReadBe16At(payload, 0, count);
  }

  lemma PackedHeader(bits: seq<bit>)
    ensures BitsAt(PackBits(bits), 0, bits)
  {
    forall i | 0 <= i < |bits|
      ensures Bits(PackBits(bits))[i] == bits[i]
    {
      PackedBits(bits, i);
    }
  }

  lemma HeadersRead(widths: BitWidths, units: seq<AccessUnit>)
    requires SizesFit(widths, units) && LastHeaderHasWidth(widths, units, true)
    ensures var bits := HeaderBits(widths, units, true);
      Advances(widths, |bits|, 0, true) && SizesFrom(PackBits(bits), widths, |bits|, 0, true) == Success(Sizes(units))
  {
    var bits := HeaderBits(widths, units, true);
    PackedHeader(bits);
    PackedDeclares(PackBits(bits), widths, units, true, 0);
    SizesOfHeaders(PackBits(bits), widths, units, true, 0, |bits|);
  }

  lemma AccessUnitsFound(widths: BitWidths, payload: bytes, count: u16, header: bytes, sizes: seq<nat>,
                         units: seq<bytes>)
    requires HeadersEnd(payload) == Some(2 + |header|)
    requires ReadBe16(payload, 0) == count && payload[2..2 + |header|] == header
    requires Advances(widths, count, 0, true) && SizesFrom(header, widths, count, 0, true) == Success(sizes)
    requires ExtractFrom(payload, 2 + |header|, sizes) == Success(units)
    ensures !StuckOn(widths, payload) && AccessUnits(widths, payload) == Success(units)
  {
  }

  lemma UnitsRead(widths: BitWidths, units: seq<AccessUnit>, trailing: bytes)
    requires CanPack(widths, units) && LastHeaderHasWidth(widths, units, true)
    ensures var payload := PayloadOf(widths, units) + trailing;
      !StuckOn(widths, payload) && AccessUnits(widths, payload) == Success(UnitData(units))
  {
    var bits := HeaderBits(widths, units, true);
    var header, data := PackBits(bits), Concat(UnitData(units));
    var payload := PayloadOf(widths, units) + trailing;
    PayloadParts(|bits|, header, data, trailing);
    HeadersRead(widths, units);
    assert data <= data + trailing;
    ExtractConcat(payload, 2 + |header|, units);
    AccessUnitsFound(widths, payload, |bits|, header, Sizes(units), UnitData(units));
  }

  lemma UnitsLost(widths: BitWidths, units: seq<AccessUnit>, trailing: bytes)
    requires CanPack(widths, units) && !LastHeaderHasWidth(widths, units, true)
    ensures var payload := PayloadOf(widths, units) + trailing;
      !StuckOn(widths, payload) && AccessUnits(widths, payload) != Success(UnitData(units))
  {
    var bits := HeaderBits(widths, units, true);
    var header := PackBits(bits);
    var payload := PayloadOf(widths, units) + trailing;
    PayloadParts(|bits|, header, Concat(UnitData(units)), trailing);
    LastSizeLost(header, widths, units);
    FewerUnits(payload, 2 + |header|, SizesFrom(header, widths, |bits|, 0, true), |units|);
  }

  /** Extraction inverts packing, for any field widths and any units whose sizes fit, exactly when
      the last unit's header has some width; bytes after the last unit are ignored. */
  lemma PackRoundTrip(widths: BitWidths, units: seq<AccessUnit>, trailing: bytes)
    requires CanPack(widths, units)
    ensures var payload := PayloadOf(widths, units) + trailing;
      && !StuckOn(widths, payload)
      && (AccessUnits(widths, payload) == Success(UnitData(units)) <==> LastHeaderHasWidth(widths, units, true))
  {
    if LastHeaderHasWidth(widths, units, true) {
      UnitsRead(widths, units, trailing);
    } else {
      UnitsLost(widths, units, trailing);
    }
  }

  /** A whole packet: it comes to one frame a unit, with its timestamp, under the same condition. */
  lemma PacketRoundTrip(widths: BitWidths, packet: bytes, timestamp: u32, units: seq<AccessUnit>, trailing: bytes)
    requires CanPack(widths, units) && Carries(packet, RtpHeader(timestamp, PayloadOf(widths, units) + trailing))
    ensures ParseRtpHeader(packet).Success? && !StuckOn(widths, ParseRtpHeader(packet).value.payload)
    ensures PacketFrames(widths, packet) == Success(AacFrames(timestamp, UnitData(units)))
       <==> LastHeaderHasWidth(widths, units, true)
  {
    CarriedRead(packet, RtpHeader(timestamp, PayloadOf(widths, units) + trailing));
    PackRoundTrip(widths, units, trailing);
    var found := AccessUnits(widths, PayloadOf(widths, units) + trailing);
    if found.Success? && AacFrames(timestamp, found.value) == AacFrames(timestamp, UnitData(units)) {
      SameUnits(timestamp, found.value, UnitData(units));
    }
  }

  lemma SameUnits(timestamp: u32, a: seq<bytes>, b: seq<bytes>)
    requires AacFrames(timestamp, a) == AacFrames(timestamp, b)
    ensures a == b
  {
    assert |AacFrames(timestamp, a)| == |AacFrames(timestamp, b)|;
    forall i | 0 <= i < |a|
      ensures a[i] == b[i]
    {
      assert AacFrames(timestamp, a)[i] == AacFrames(timestamp, b)[i];
    }
  }

  /** An empty unit behind a header of no width is packed and not found again. */
  lemma WidthlessUnitLost()
    ensures var widths, units := BitWidths(0, 0, 0), [AccessUnit([], 0)];
      && CanPack(widths, units) && PayloadOf(widths, units) == [0, 0]
      && !StuckOn(widths, [0, 0]) && AccessUnits(widths, [0, 0]) == Success([]) != Success(UnitData(units))
  {
    var widths, units := BitWidths(0, 0, 0), [AccessUnit([], 0)];
    HeaderBitsLength(widths, units, true);
    assert units[1..] == [] && |UnitData(units)| == 1 && UnitData(units)[0] == [];
    assert HeaderBits(widths, units, true) == [];
    assert Concat(UnitData(units)) == [];
    assert PayloadOf(widths, units) == [0, 0];
  }

  lemma FewerUnits(payload: bytes, offset: nat, sizes: Result<seq<nat>>, count: nat)
    requires sizes.Success? ==> |sizes.value| < count
    ensures sizes.Success? && ExtractFrom(payload, offset, sizes.value).Success? ==>
              |ExtractFrom(payload, offset, sizes.value).value| < count
  {
    if sizes.Success? {
      ExtractCount(payload, offset, sizes.value);
    }
  }

  /** A last header of no width is not read. */
  lemma LastSizeLost(header: bytes, widths: BitWidths, units: seq<AccessUnit>)
    requires !LastHeaderHasWidth(widths, units, true)
    ensures var length := |HeaderBits(widths, units, true)|;
      && !Stuck(widths, length)
      && (SizesFrom(header, widths, length, 0, true).Success? ==>
            |SizesFrom(header, widths, length, 0, true).value| < |units|)
  {
    HeaderBitsLength(widths, units, true);
  }

  lemma {:induction false} ExtractCount(payload: bytes, offset: nat, sizes: seq<nat>)
    ensures ExtractFrom(payload, offset, sizes).Success? ==> |ExtractFrom(payload, offset, sizes).value| == |sizes|
    decreases |sizes|
  {
    if sizes != [] {
      ExtractCount(payload, offset + sizes[0], sizes[1..]);
    }
  }

  // ----- When the size loop returns

  /** The loop's state between iterations. */
  datatype LoopState = Running(consumed: nat, sizes: seq<nat>) | Returned

  /** One iteration: the loop test, the two reads, the advance. */
  ghost function Iterate(header: bytes, widths: BitWidths, length: nat, state: LoopState): LoopState {
    if state.Returned? || state.consumed >= length then Returned
    else
      var end := state.consumed + HeaderWidth(widths, state.sizes == []);
      if end > 8 * |header| then Returned
      else Running(end, state.sizes + [Field(header, state.consumed, widths.size)])
  }

  ghost function After(header: bytes, widths: BitWidths, length: nat, n: nat): LoopState {
    if n == 0 then Running(0, []) else Iterate(header, widths, length, After(header, widths, length, n - 1))
  }

  /** These sizes are still declared by the rest of the section. */
  ghost predicate Declared(header: bytes, widths: BitWidths, length: nat, state: LoopState, rest: seq<nat>) {
    && state.Running? && Advances(widths, length, state.consumed, state.sizes == [])
    && SizesFrom(header, widths, length, state.consumed, state.sizes == []) == Success(rest)
  }

  /** One iteration collects the next size still declared, and returns when there is none. */
  lemma IterationCollects(header: bytes, widths: BitWidths, length: nat, state: LoopState, rest: seq<nat>)
    requires Declared(header, widths, length, state, rest)
    ensures rest == [] <==> Iterate(header, widths, length, state).Returned?
    ensures rest != [] ==>
              var next := Iterate(header, widths, length, state);
              next.Running? && next.sizes == state.sizes + [rest[0]]
              && Declared(header, widths, length, next, rest[1..])
  {
  }

  lemma {:induction false} StuckKeepsRunning(header: bytes, widths: BitWidths, length: nat, n: nat)
    requires Stuck(widths, length) && length <= 8 * |header|
    ensures var state := After(header, widths, length, n);
      && state.Running?
      && state.consumed == (if state.sizes == [] then 0 else HeaderWidth(widths, true))
  {
    if n > 0 {
      StuckKeepsRunning(header, widths, length, n - 1);
    }
  }

  lemma {:induction false} AdvancingReturns(header: bytes, widths: BitWidths, length: nat, n: nat)
    requires !Stuck(widths, length)
    ensures var state := After(header, widths, length, n);
      state.Running? ==> (state.sizes == [] <==> n == 0) && state.consumed + 1 >= n
                         && (HeaderWidth(widths, false) == 0 && n > 0 ==> state.consumed >= length)
  {
    if n > 0 {
      AdvancingReturns(header, widths, length, n - 1);
    }
  }

  /** The size loop returns exactly when it is not stuck, for any header section as long as the
      declared length. */
  lemma LoopReturns(header: bytes, widths: BitWidths, length: nat)
    requires length <= 8 * |header|
    ensures (exists n :: After(header, widths, length, n).Returned?) <==> !Stuck(widths, length)
  {
    if Stuck(widths, length) {
      forall n: nat
        ensures !After(header, widths, length, n).Returned?
      {
        StuckKeepsRunning(header, widths, length, n);
      }
    } else {
      AdvancingReturns(header, widths, length, length + 2);
      AdvancingReturns(header, widths, length, length + 1);
      assert After(header, widths, length, length + 2).Returned?;
    }
  }

  /** A packet on which the loop never returns: no size width, an index of eight bits in the first
      header and none in later ones, and sixteen header bits. */
  lemma StuckPacket()
    ensures var widths, packet := BitWidths(0, 8, 0), [128, 0, 0, 0, 0, 0, 0, 0, 0, 0, 0, 0] + [0, 16, 1, 2];
      && ParseRtpHeader(packet) == Success(RtpHeader(0, [0, 16, 1, 2]))
      && StuckOn(widths, [0, 16, 1, 2])
      && forall n: nat :: After([1, 2], widths, 16, n).Running?
  {
    var widths, packet := BitWidths(0, 8, 0), [128, 0, 0, 0, 0, 0, 0, 0, 0, 0, 0, 0] + [0, 16, 1, 2];
    assert |packet| == 16 && packet[0] == 128 && packet[12..16] == [0, 16, 1, 2];
    assert ReadBe32(packet, 4) == 0;
    forall n: nat
      ensures After([1, 2], widths, 16, n).Running?
    {
      StuckKeepsRunning([1, 2], widths, 16, n);
    }
  }
}
