/** Initialization segments: `ftyp` and a `moov` that carries a codec's parameter sets, and the
    tracker that emits one whenever the parameter sets change. */
module InitSegment {
  import opened Bytes
  import opened Options
  import opened Boxes
  import opened Depacketize
  import opened Fmp4
  import opened RtpClocks

  const WIDTH: u16 := 1920
  const HEIGHT: u16 := 1080

  function Zeros(n: nat): (r: bytes)
    ensures |r| == n
  {
    seq(n, _ => 0)
  }

  function IdentityMatrix(): bytes {
    Be32(0x0001_0000) + Zeros(12) + Be32(0x0001_0000) + Zeros(12) + Be32(0x4000_0000)
  }

  function FtypBox(): Box {
    Leaf(FTYP, Be32(0x6973_6F35) + Be32(0) + Be32(0x6973_6F35) + Be32(0x6973_6F36) + Be32(0x6973_6F6D)
               + Be32(0x6D70_3431))
  }

  function MvhdBox(): Box {
    Leaf(MVHD, Zeros(12) + Be32(VIDEO_CLOCK_RATE_HZ) + Be32(0) + Be32(0x0001_0000) + Be16(0x0100) + Zeros(10)
               + IdentityMatrix() + Zeros(24) + Be32(TRACK_ID + 1))
  }

  function TkhdBox(): Box {
    Leaf(TKHD, Be32(0x07) + Zeros(8) + Be32(TRACK_ID) + Zeros(8) + Zeros(8) + Zeros(8)
               + IdentityMatrix() + Be16(WIDTH) + Zeros(2) + Be16(HEIGHT) + Zeros(2))
  }

  function MdhdBox(): Box {
    Leaf(MDHD, Zeros(12) + Be32(VIDEO_CLOCK_RATE_HZ) + Be32(0) + Be16(0x55C4) + Be16(0))
  }

  function HdlrBox(): Box {
    Leaf(HDLR, Zeros(8) + Be32(0x7669_6465) + Zeros(12)
               + [99, 111, 114, 118, 101, 116, 116, 101, 45, 109, 101, 100, 105, 97, 45, 98, 114, 105, 100, 103,
                  101, 0])
  }

  function VmhdBox(): Box {
    Leaf(VMHD, Be32(1) + Zeros(8))
  }

  function DinfBox(): Box {
    Box(DINF, [], [Box(DREF, Be32(0) + Be32(1), [Leaf(URL, Be32(1))])])
  }

  function MvexBox(): Box {
    Box(MVEX, [], [Leaf(TREX, Be32(0) + Be32(TRACK_ID) + Be32(1) + Zeros(12))])
  }

  function SampleEntryHeader(): (r: bytes)
    ensures |r| == 78
  {
    Zeros(6) + Be16(1) + Zeros(16) + Be16(WIDTH) + Be16(HEIGHT) + Be32(0x0048_0000) + Be32(0x0048_0000) + Zeros(4)
    + Be16(1) + Zeros(32) + Be16(0x0018) + [255, 255]
  }

  /** A codec's sample entry, with its configuration record inside. */
  function StsdBox(entryKind: u32, configKind: u32, config: bytes): Box {
    Box(STSD, Be32(0) + Be32(1), [Box(entryKind, SampleEntryHeader(), [Leaf(configKind, config)])])
  }

  function StblBox(stsd: Box): Box {
    Box(STBL, [], [stsd, Leaf(STTS, Zeros(8)), Leaf(STSC, Zeros(8)), Leaf(STSZ, Zeros(12)), Leaf(STCO, Zeros(8))])
  }

  function MinfBox(stsd: Box): Box { Box(MINF, [], [VmhdBox(), DinfBox(), StblBox(stsd)]) }

  function MdiaBox(stsd: Box): Box { Box(MDIA, [], [MdhdBox(), HdlrBox(), MinfBox(stsd)]) }

  function TrakBox(stsd: Box): Box { Box(TRAK, [], [TkhdBox(), MdiaBox(stsd)]) }

  function MoovBox(stsd: Box): Box { Box(MOOV, [], [MvhdBox(), TrakBox(stsd), MvexBox()]) }

  function InitBoxes(stsd: Box): seq<Box> { [FtypBox(), MoovBox(stsd)] }

  // ----- Configuration records

  /** A length that does not fit 16 bits is written as 65535. */
  function Length16(unit: bytes): u16 {
    if |unit| < U16_LIMIT then |unit| else 65535
  }

  function ByteOr0(data: bytes, i: nat): byte {
    if i < |data| then data[i] else 0
  }

  function AvcC(sps: bytes, pps: bytes): bytes {
    [1, ByteOr0(sps, 1), ByteOr0(sps, 2), ByteOr0(sps, 3), 0xFF, 0xE1]
    + Be16(Length16(sps)) + sps + [1] + Be16(Length16(pps)) + pps
  }

  /** The twelve profile, tier and level bytes of an SPS, or zeros when it is too short. */
  function ProfileTierLevel(sps: bytes): (r: bytes)
    ensures |r| == 12
  {
    if |sps| < 15 then Zeros(12) else sps[3..15]
  }

  function HvcArray(nalType: byte, unit: bytes): bytes
    requires nalType < 128
  {
    [128 + nalType] + Be16(1) + Be16(Length16(unit)) + unit
  }

  /** Everything before the arrays; the last byte counts them. */
  function HvcCFixed(sps: bytes): (fixed: bytes)
    ensures |fixed| == 23 && fixed[22] == 3
  {
    [1] + ProfileTierLevel(sps) + Be16(0xF000) + [0xFC, 0xFD, 0xF8, 0xF8] + Be16(0) + [0x0B, 3]
  }

  function HvcC(vps: bytes, sps: bytes, pps: bytes): bytes {
    HvcCFixed(sps)
    + HvcArray(32, vps) + HvcArray(33, sps) + HvcArray(34, pps)
  }

  datatype ParameterSets = H264Sets(sps: bytes, pps: bytes) | H265Sets(vps: bytes, sps: bytes, pps: bytes)

  function Stsd(sets: ParameterSets): Box {
    match sets
    case H264Sets(sps, pps) => StsdBox(AVC1, AVCC, AvcC(sps, pps))
    case H265Sets(vps, sps, pps) => StsdBox(HVC1, HVCC, HvcC(vps, sps, pps))
  }

  /** The source panics on a segment that does not fit a 32-bit box. */
  predicate Fits(sets: ParameterSets) {
    Size(MoovBox(Stsd(sets))) < U32_LIMIT
  }

  method InitSegment(sets: ParameterSets) returns (data: bytes)
    requires Fits(sets)
    ensures data == SerializeAll(InitBoxes(Stsd(sets)))
  {
    var out := new BytesMut();
    FtypSize();
    WriteBox(out, FtypBox());
    WriteBox(out, MoovBox(Stsd(sets)));
    SerializeTwo(FtypBox(), MoovBox(Stsd(sets)));
    return out.data;
  }

  lemma FtypSize()
    ensures Size(FtypBox()) == 32
  {
  }

  // ----- Reading back

  lemma StsdShaped(sets: ParameterSets)
    ensures Shaped(Stsd(sets))
  {
    var entry := Stsd(sets).children[0];
    assert Shaped(entry.children[0]);
    assert Shaped(entry);
  }

  lemma StblShaped(stsd: Box)
    requires Shaped(stsd)
    ensures Shaped(StblBox(stsd))
  {
  }

  lemma DinfShaped()
    ensures Shaped(DinfBox())
  {
    var dref := DinfBox().children[0];
    assert Shaped(dref.children[0]);
    assert Shaped(dref);
  }

  lemma MoovShaped(stsd: Box)
    requires Shaped(stsd)
    ensures Shaped(MoovBox(stsd))
  {
    StblShaped(stsd);
    DinfShaped();
    assert Shaped(MinfBox(stsd));
    assert Shaped(MdiaBox(stsd));
    assert Shaped(TrakBox(stsd));
    assert Shaped(MvexBox().children[0]);
    assert Shaped(MvexBox());
  }

  /** The first box of each kind, one inside the other. */
  function FindPath(boxes: seq<Box>, path: seq<u32>): Option<Box>
    requires path != []
    decreases |path|
  {
    var found :- Find(boxes, path[0]);
    if |path| == 1 then Some(found) else FindPath(found.children, path[1..])
  }

  lemma FindPathStep(boxes: seq<Box>, path: seq<u32>, found: Box)
    requires |path| > 1 && Find(boxes, path[0]) == Some(found)
    ensures FindPath(boxes, path) == FindPath(found.children, path[1..])
  {
  }

  /** The path to the sample entries. */
  lemma StsdFound(stsd: Box, rest: seq<u32>)
    requires rest != [] && stsd.kind == STSD
    ensures FindPath(InitBoxes(stsd), [MOOV, TRAK, MDIA, MINF, STBL, STSD] + rest) == FindPath(stsd.children, rest)
  {
    var tail := [MINF, STBL, STSD] + rest;
    FindNext(InitBoxes(stsd), MOOV);
    FindPathStep(InitBoxes(stsd), [MOOV, TRAK, MDIA, MINF, STBL, STSD] + rest, MoovBox(stsd));
    assert ([MOOV, TRAK, MDIA, MINF, STBL, STSD] + rest)[1..] == [TRAK, MDIA] + tail;
    FindNext(MoovBox(stsd).children, TRAK);
    FindPathStep(MoovBox(stsd).children, [TRAK, MDIA] + tail, TrakBox(stsd));
    assert ([TRAK, MDIA] + tail)[1..] == [MDIA] + tail;
    FindNext(TrakBox(stsd).children, MDIA);
    FindPathStep(TrakBox(stsd).children, [MDIA] + tail, MdiaBox(stsd));
    assert ([MDIA] + tail)[1..] == tail;
    MediaPath(stsd, rest);
  }

  lemma MediaPath(stsd: Box, rest: seq<u32>)
    requires rest != [] && stsd.kind == STSD
    ensures FindPath(MdiaBox(stsd).children, [MINF, STBL, STSD] + rest) == FindPath(stsd.children, rest)
  {
    var mdia, minf := MdiaBox(stsd).children, MinfBox(stsd).children;
    FindNext(mdia, MINF);
    FindNext(mdia[1..], MINF);
    FindPathStep(mdia, [MINF, STBL, STSD] + rest, MinfBox(stsd));
    assert ([MINF, STBL, STSD] + rest)[1..] == [STBL, STSD] + rest;
    FindNext(minf, STBL);
    FindNext(minf[1..], STBL);
    FindPathStep(minf, [STBL, STSD] + rest, StblBox(stsd));
    assert ([STBL, STSD] + rest)[1..] == [STSD] + rest;
    FindPathStep(StblBox(stsd).children, [STSD] + rest, stsd);
    assert ([STSD] + rest)[1..] == rest;
  }

  /** A unit behind its 16-bit length at `at`, and where it ends. */
  function ReadUnit(data: bytes, at: nat): Option<(bytes, nat)> {
    if at + 2 > |data| then None
    else
      var end := at + 2 + ReadBe16(data, at);
      if end > |data| then None else Some((data[at + 2..end], end))
  }

  /** Reads an `avcC` record with one SPS, whose profile it repeats, and one PPS, of samples with
      four-byte lengths (ISO/IEC 14496-15 section 5.3.3.1). */
  function DecodeAvcC(data: bytes): Option<ParameterSets> {
    if |data| < 6 || data[0] != 1 || data[4] != 255 || data[5] != 225 then None
    else
      var (sps, at) :- ReadUnit(data, 6);
      if !RepeatsProfile(data, sps) || at >= |data| || data[at] != 1 then None
      else
        var (pps, end) :- ReadUnit(data, at + 1);
        if end == |data| then Some(H264Sets(sps, pps)) else None
  }

  /** The profile, its constraints and the level are the SPS's, zero where it is too short. */
  predicate RepeatsProfile(data: bytes, sps: bytes)
    requires |data| >= 4
  {
    forall k :: 1 <= k <= 3 ==> data[k] == if k < |sps| then sps[k] else 0
  }

  /** One array of a single unit. */
  function ReadArray(data: bytes, at: nat, nalType: byte): Option<(bytes, nat)> {
    if at + 3 > |data| || data[at] % 64 != nalType || ReadBe16(data, at + 1) != 1 then None
    else ReadUnit(data, at + 3)
  }

  /** The fixed part: version 1, no minimum segmentation, parallelism unknown, chroma format 1, eight
      bits of luma and chroma, no frame rate, one temporal layer, four-byte lengths, three arrays. */
  predicate FixedFields(data: bytes)
    requires |data| >= 23
  {
    data[0] == 1 && data[13..23] == [240, 0, 252, 253, 248, 248, 0, 0, 11, 3]
  }

  /** The profile, tier and level are the twelve bytes of the SPS that hold them, zeros when it is too
      short. */
  predicate RepeatsTier(data: bytes, sps: bytes)
    requires |data| >= 13
  {
    forall k :: 1 <= k <= 12 ==> data[k] == if |sps| >= 15 then sps[k + 2] else 0
  }

  /** Reads an `hvcC` record with one VPS, one SPS, whose profile it repeats, and one PPS (section
      8.3.3.1). */
  function DecodeHvcC(data: bytes): Option<ParameterSets> {
    if |data| < 23 || !FixedFields(data) then None
    else
      var (vps, spsAt) :- ReadArray(data, 23, 32);
      var (sps, ppsAt) :- ReadArray(data, spsAt, 33);
      if !RepeatsTier(data, sps) then None else
      var (pps, end) :- ReadArray(data, ppsAt, 34);
      if end == |data| then Some(H265Sets(vps, sps, pps)) else None
  }

  /** The parameter sets a player finds in an initialization segment. */
  function PlayerSets(data: bytes): Option<ParameterSets> {
    var boxes :- ParseBoxes(data);
    var avcC := FindPath(boxes, [MOOV, TRAK, MDIA, MINF, STBL, STSD] + [AVC1, AVCC]);
    if avcC.Some? then DecodeAvcC(avcC.value.fields)
    else
      var hvcC :- FindPath(boxes, [MOOV, TRAK, MDIA, MINF, STBL, STSD] + [HVC1, HVCC]);
      DecodeHvcC(hvcC.fields)
  }

  predicate LengthsFit(sets: ParameterSets) {
    match sets
    case H264Sets(sps, pps) => |sps| < U16_LIMIT && |pps| < U16_LIMIT
    case H265Sets(vps, sps, pps) => |vps| < U16_LIMIT && |sps| < U16_LIMIT && |pps| < U16_LIMIT
  }

  lemma UnitRead(data: bytes, at: nat, unit: bytes, rest: bytes)
    requires at <= |data| && |unit| < U16_LIMIT && data[at..] == Be16(|unit|) + unit + rest
    ensures ReadUnit(data, at) == Some((unit, at + 2 + |unit|))
    ensures at + 2 + |unit| <= |data| && data[at + 2 + |unit|..] == rest
  {
    UnitHead(data, at, unit, rest);
  }

  lemma ArrayRead(data: bytes, at: nat, nalType: byte, unit: bytes, rest: bytes)
    requires at <= |data| && |unit| < U16_LIMIT && nalType < 64 && data[at..] == HvcArray(nalType, unit) + rest
    ensures ReadArray(data, at, nalType) == Some((unit, at + 5 + |unit|))
    ensures at + 5 + |unit| <= |data| && data[at + 5 + |unit|..] == rest
  {
    var tail := data[at..];
    assert tail == [128 + nalType] + Be16(1) + (Be16(|unit|) + unit + rest);
    assert data[at] == tail[0];
    assert data[at + 1..at + 3] == tail[1..3] == Be16(1);
    ReadBe16At(data, at + 1, 1);
    assert data[at + 3..] == tail[3..];
    UnitRead(data, at + 3, unit, rest);
  }

  lemma ProfileRepeated(sps: bytes, pps: bytes)
    ensures |AvcC(sps, pps)| >= 6 && RepeatsProfile(AvcC(sps, pps), sps)
    ensures AvcC(sps, pps)[0] == 1 && AvcC(sps, pps)[4] == 255 && AvcC(sps, pps)[5] == 225
  {
  }

  lemma AvcCDecoded(sps: bytes, pps: bytes)
    requires |sps| < U16_LIMIT && |pps| < U16_LIMIT
    ensures DecodeAvcC(AvcC(sps, pps)) == Some(H264Sets(sps, pps))
  {
    var data := AvcC(sps, pps);
    var rest := [1] + Be16(|pps|) + pps;
    ProfileRepeated(sps, pps);
    assert data[6..] == Be16(|sps|) + sps + rest;
    UnitRead(data, 6, sps, rest);
    assert data[8 + |sps|] == data[8 + |sps|..][0];
    assert data[9 + |sps|..] == data[8 + |sps|..][1..] == Be16(|pps|) + pps + [];
    UnitRead(data, 9 + |sps|, pps, []);
  }

  lemma LastArrayRead(data: bytes, at: nat, pps: bytes)
    requires |pps| < U16_LIMIT && at <= |data| && data[at..] == HvcArray(34, pps) + []
    ensures ReadArray(data, at, 34) == Some((pps, |data|))
  {
    ArrayRead(data, at, 34, pps, []);
  }

  lemma LastArraysRead(data: bytes, at: nat, sps: bytes, pps: bytes, afterSps: bytes)
    requires |sps| < U16_LIMIT && |pps| < U16_LIMIT && at <= |data|
    requires data[at..] == HvcArray(33, sps) + afterSps && afterSps == HvcArray(34, pps) + []
    ensures ReadArray(data, at, 33) == Some((sps, at + 5 + |sps|))
    ensures ReadArray(data, at + 5 + |sps|, 34) == Some((pps, |data|))
  {
    ArrayRead(data, at, 33, sps, afterSps);
    LastArrayRead(data, at + 5 + |sps|, pps);
  }

  lemma ArraysRead(data: bytes, vps: bytes, sps: bytes, pps: bytes, afterVps: bytes, afterSps: bytes)
    requires |vps| < U16_LIMIT && |sps| < U16_LIMIT && |pps| < U16_LIMIT
    requires |data| >= 23 && data[23..] == HvcArray(32, vps) + afterVps
    requires afterVps == HvcArray(33, sps) + afterSps && afterSps == HvcArray(34, pps) + []
    ensures ReadArray(data, 23, 32) == Some((vps, 28 + |vps|))
    ensures ReadArray(data, 28 + |vps|, 33) == Some((sps, 33 + |vps| + |sps|))
    ensures ReadArray(data, 33 + |vps| + |sps|, 34) == Some((pps, |data|))
  {
    ArrayRead(data, 23, 32, vps, afterVps);
    LastArraysRead(data, 28 + |vps|, sps, pps, afterSps);
  }

  /** A record's arrays start after its 23 fixed bytes, the last of which counts them. */
  lemma FixedPart(fixed: bytes, a: bytes, b: bytes, c: bytes)
    requires |fixed| == 23
    ensures var data := fixed + a + b + c;
      data[..23] == fixed && data[23..] == a + (b + (c + []))
  {
  }

  lemma FixedRead(data: bytes, sps: bytes)
    requires |data| >= 23 && data[..23] == HvcCFixed(sps)
    ensures FixedFields(data) && RepeatsTier(data, sps)
  {
    var fixed := HvcCFixed(sps);
    assert data[0] == fixed[0] && data[13..23] == fixed[13..23];
    assert fixed[13..23] == Be16(0xF000) + [0xFC, 0xFD, 0xF8, 0xF8] + Be16(0) + [0x0B, 3];
    forall k | 1 <= k <= 12
      ensures data[k] == if |sps| >= 15 then sps[k + 2] else 0
    {
      assert data[k] == fixed[k] == ProfileTierLevel(sps)[k - 1];
    }
  }

  lemma ArraysDecoded(data: bytes, vps: bytes, sps: bytes, pps: bytes, spsAt: nat, ppsAt: nat)
    requires |data| >= 23 && FixedFields(data) && RepeatsTier(data, sps)
    requires ReadArray(data, 23, 32) == Some((vps, spsAt)) && ReadArray(data, spsAt, 33) == Some((sps, ppsAt))
    requires ReadArray(data, ppsAt, 34) == Some((pps, |data|))
    ensures DecodeHvcC(data) == Some(H265Sets(vps, sps, pps))
  {
  }

  lemma HvcCDecoded(vps: bytes, sps: bytes, pps: bytes)
    requires |vps| < U16_LIMIT && |sps| < U16_LIMIT && |pps| < U16_LIMIT
    ensures DecodeHvcC(HvcC(vps, sps, pps)) == Some(H265Sets(vps, sps, pps))
  {
    var data := HvcC(vps, sps, pps);
    FixedPart(HvcCFixed(sps), HvcArray(32, vps), HvcArray(33, sps), HvcArray(34, pps));
    FixedRead(data, sps);
    ArraysRead(data, vps, sps, pps, HvcArray(33, sps) + (HvcArray(34, pps) + []), HvcArray(34, pps) + []);
    ArraysDecoded(data, vps, sps, pps, 28 + |vps|, 33 + |vps| + |sps|);
  }

  /** The written segment parses to the boxes it was made of. */
  lemma InitSegmentParsed(sets: ParameterSets)
    requires Fits(sets)
    ensures ParseBoxes(SerializeAll(InitBoxes(Stsd(sets)))) == Some(InitBoxes(Stsd(sets)))
  {
    FtypSize();
    StsdShaped(sets);
    MoovShaped(Stsd(sets));
    ParseSerialized(InitBoxes(Stsd(sets)));
  }

  /** Lengths read from 16 bits fit them. */
  lemma DecodedLengthsFit(data: bytes)
    ensures DecodeAvcC(data).Some? ==> LengthsFit(DecodeAvcC(data).value)
    ensures DecodeHvcC(data).Some? ==> LengthsFit(DecodeHvcC(data).value)
  {
  }

  /** A player finds the camera's parameter sets in the segment exactly when each fits the record's
      16-bit length. */
  lemma InitSegmentReadBack(sets: ParameterSets)
    requires Fits(sets)
    ensures PlayerSets(SerializeAll(InitBoxes(Stsd(sets)))) == Some(sets) <==> LengthsFit(sets)
  {
    InitSegmentParsed(sets);
    StsdFound(Stsd(sets), [AVC1, AVCC]);
    StsdFound(Stsd(sets), [HVC1, HVCC]);
    EntryFound(sets);
    match sets
    case H264Sets(sps, pps) =>
      DecodedLengthsFit(AvcC(sps, pps));
      if LengthsFit(sets) {
        AvcCDecoded(sps, pps);
      }
    case H265Sets(vps, sps, pps) =>
      DecodedLengthsFit(HvcC(vps, sps, pps));
      if LengthsFit(sets) {
        HvcCDecoded(vps, sps, pps);
      }
  }

  // ----- A set too long to be read back

  lemma SizeOfBoxes(boxes: seq<Box>)
    ensures boxes == [] ==> SizeAll(boxes) == 0
    ensures |boxes| > 0 ==> SizeAll(boxes) == Size(boxes[0]) + SizeAll(boxes[1..])
  {
  }

  lemma SizeOfLeaf(kind: u32, fields: bytes)
    ensures Size(Leaf(kind, fields)) == 8 + |fields|
  {
    SizeOfBoxes([]);
  }

  lemma SizeOfTwo(a: Box, b: Box)
    ensures SizeAll([a, b]) == Size(a) + Size(b)
  {
    assert [a, b][1..] == [b] && [b][1..] == [];
    SizeOfBoxes([b]);
    SizeOfBoxes([]);
  }

  lemma SizeOfThree(a: Box, b: Box, c: Box)
    ensures SizeAll([a, b, c]) == Size(a) + Size(b) + Size(c)
  {
    assert [a, b, c][1..] == [b, c];
    SizeOfTwo(b, c);
  }

  lemma StsdSize(entryKind: u32, configKind: u32, config: bytes)
    ensures Size(StsdBox(entryKind, configKind, config)) == 110 + |config|
  {
    var leaf := Leaf(configKind, config);
    var entry := Box(entryKind, SampleEntryHeader(), [leaf]);
    SizeOfLeaf(configKind, config);
    assert [leaf][1..] == [] && [entry][1..] == [];
    assert SizeAll([leaf]) == Size(leaf);
    assert SizeAll([entry]) == Size(entry);
  }

  lemma StblSize(stsd: Box)
    ensures Size(StblBox(stsd)) == 76 + Size(stsd)
  {
    var a, b, c, d := Leaf(STTS, Zeros(8)), Leaf(STSC, Zeros(8)), Leaf(STSZ, Zeros(12)), Leaf(STCO, Zeros(8));
    assert [stsd, a, b, c, d][1..] == [a, b, c, d] && [a, b, c, d][1..] == [b, c, d];
    SizeOfThree(b, c, d);
    assert SizeAll([a, b, c, d]) == Size(a) + SizeAll([b, c, d]);
    SizeOfLeaf(STTS, Zeros(8));
    SizeOfLeaf(STSC, Zeros(8));
    SizeOfLeaf(STSZ, Zeros(12));
    SizeOfLeaf(STCO, Zeros(8));
  }

  lemma DinfSize()
    ensures Size(DinfBox()) == 36
  {
    var url := Leaf(URL, Be32(1));
    var dref := Box(DREF, Be32(0) + Be32(1), [url]);
    SizeOfLeaf(URL, Be32(1));
    assert [url][1..] == [] && [dref][1..] == [];
    assert SizeAll([url]) == Size(url);
    assert SizeAll([dref]) == Size(dref);
  }

  lemma MvexSize()
    ensures Size(MvexBox()) == 40
  {
    var trex := Leaf(TREX, Be32(0) + Be32(TRACK_ID) + Be32(1) + Zeros(12));
    assert [trex][1..] == [];
    assert SizeAll([trex]) == Size(trex);
  }

  lemma MdiaSize(stsd: Box)
    ensures Size(MdiaBox(stsd)) == 234 + Size(stsd)
  {
    StblSize(stsd);
    DinfSize();
    SizeOfThree(VmhdBox(), DinfBox(), StblBox(stsd));
    SizeOfThree(MdhdBox(), HdlrBox(), MinfBox(stsd));
  }

  lemma MoovSize(stsd: Box)
    ensures Size(MoovBox(stsd)) == 490 + Size(stsd)
  {
    MdiaSize(stsd);
    MvexSize();
    SizeOfTwo(TkhdBox(), MdiaBox(stsd));
    SizeOfThree(MvhdBox(), TrakBox(stsd), MvexBox());
  }

  /** An SPS one byte longer than its length field holds is written and not read back. */
  lemma LongSetLost()
    ensures var sets := H264Sets(Zeros(65536), []);
      Fits(sets) && PlayerSets(SerializeAll(InitBoxes(Stsd(sets)))) != Some(sets)
  {
    var sets := H264Sets(Zeros(65536), []);
    StsdSize(AVC1, AVCC, AvcC(sets.sps, sets.pps));
    MoovSize(Stsd(sets));
    InitSegmentReadBack(sets);
  }

  lemma EntryFound(sets: ParameterSets)
    ensures match sets
            case H264Sets(sps, pps) => FindPath(Stsd(sets).children, [AVC1, AVCC]) == Some(Leaf(AVCC, AvcC(sps, pps)))
            case H265Sets(vps, sps, pps) =>
              && FindPath(Stsd(sets).children, [AVC1, AVCC]) == None
              && FindPath(Stsd(sets).children, [HVC1, HVCC]) == Some(Leaf(HVCC, HvcC(vps, sps, pps)))
  {
    var entries := Stsd(sets).children;
    assert [AVC1, AVCC][1..] == [AVCC] && [HVC1, HVCC][1..] == [HVCC];
    match sets
    case H264Sets(_, _) => FindPathStep(entries, [AVC1, AVCC], entries[0]);
    case H265Sets(_, _, _) =>
      assert entries[1..] == [] && Find(entries, AVC1) == None;
      FindPathStep(entries, [HVC1, HVCC], entries[0]);
  }
}
