/** The fragmented-MP4 muxer: initialization segments and one `moof`/`mdat` pair a frame. */
module Fmp4 {
  import opened Bytes
  import opened Options
  import opened Boxes
  import opened RtpClocks

  const DEFAULT_FIRST_SAMPLE_DURATION_TICKS := VIDEO_CLOCK_RATE_HZ / 30
  const TRACK_ID: u32 := 1
  const START_CODE_LEN := 4

  // ----- Fragments

  const SYNC_SAMPLE: u32 := 0x0200_0000
  const NON_SYNC_SAMPLE: u32 := 0x0101_0000

  function Leaf(kind: u32, fields: bytes): Box { Box(kind, fields, []) }

  function TrunFields(dataOffset: u32, duration: u32, size: u32, flags: u32): bytes {
    Be32(0x0701) + Be32(1) + Be32(dataOffset) + Be32(duration) + Be32(size) + Be32(flags)
  }

  function SampleFlags(isKeyframe: bool): u32 {
    if isKeyframe then SYNC_SAMPLE else NON_SYNC_SAMPLE
  }

  /** The movie fragment; `dataOffset` is where the sample starts, counted from the box's start. */
  function MoofBox(sequenceNumber: u32, decodeTime: u64, duration: u32, size: u32, isKeyframe: bool,
                   dataOffset: u32): Box {
    Box(MOOF, [], [
      Leaf(MFHD, Be32(0) + Be32(sequenceNumber)),
      Box(TRAF, [], [
        Leaf(TFHD, Be32(0x02_0000) + Be32(TRACK_ID)),
        Leaf(TFDT, Be32(0x0100_0000) + Be64(decodeTime)),
        Leaf(TRUN, TrunFields(dataOffset, duration, size, SampleFlags(isKeyframe)))])])
  }

  function MdatBox(payload: bytes): Box
    requires |payload| < U32_LIMIT
  {
    Leaf(MDAT, Be32(|payload|) + payload)
  }

  const DATA_OFFSET_FIELD_OFFSET := 84

  /** The source panics on a sample that does not fit a 32-bit box. */
  predicate FitsBox(payload: bytes) {
    |payload| + 12 < U32_LIMIT
  }

  /** That is when its box does not fit: a length before it, and the box's head. */
  lemma FitsBoxSize(payload: bytes)
    ensures FitsBox(payload) <==> |payload| < U32_LIMIT && Size(MdatBox(payload)) < U32_LIMIT
  {
    if |payload| < U32_LIMIT {
      assert Size(MdatBox(payload)) == 8 + |Be32(|payload|) + payload| + SizeAll([]);
    }
  }

  /** The two boxes of a fragment, the sample right behind the `mdat` header. */
  function FragmentBoxes(sequenceNumber: u32, decodeTime: u64, duration: u32, payload: bytes,
                         isKeyframe: bool): seq<Box>
    requires FitsBox(payload)
  {
    [MoofBox(sequenceNumber, decodeTime, duration, |payload| + 4, isKeyframe, MOOF_SIZE + 8), MdatBox(payload)]
  }

  const MOOF_SIZE := 100

  lemma MoofSize(sequenceNumber: u32, decodeTime: u64, duration: u32, size: u32, isKeyframe: bool, dataOffset: u32)
    ensures Size(MoofBox(sequenceNumber, decodeTime, duration, size, isKeyframe, dataOffset)) == MOOF_SIZE
  {
    var moof := MoofBox(sequenceNumber, decodeTime, duration, size, isKeyframe, dataOffset);
    var traf := moof.children[1];
    assert Size(traf.children[2]) == 32 && Size(traf.children[1]) == 20 && Size(traf.children[0]) == 16;
    assert traf.children == [traf.children[0], traf.children[1], traf.children[2]];
    assert SizeAll(traf.children) == 16 + SizeAll(traf.children[1..]);
    assert SizeAll(traf.children[1..]) == 20 + SizeAll(traf.children[2..]);
    assert SizeAll(traf.children[2..]) == 32 + SizeAll([]);
    assert SizeAll(moof.children) == 16 + SizeAll(moof.children[1..]);
    assert SizeAll(moof.children[1..]) == Size(traf) + SizeAll([]);
  }

  /** The bytes of a movie fragment before and after its `data_offset` field. */
  ghost function BeforeDataOffset(sequenceNumber: u32, decodeTime: u64): bytes {
    (Be32(100) + Be32(MOOF))
    + (Be32(16) + Be32(MFHD) + (Be32(0) + Be32(sequenceNumber)))
    + (Be32(76) + Be32(TRAF))
    + (Be32(16) + Be32(TFHD) + (Be32(0x02_0000) + Be32(TRACK_ID)))
    + (Be32(20) + Be32(TFDT) + (Be32(0x0100_0000) + Be64(decodeTime)))
    + (Be32(32) + Be32(TRUN)) + (Be32(0x0701) + Be32(1))
  }

  ghost function AfterDataOffset(duration: u32, size: u32, isKeyframe: bool): bytes {
    Be32(duration) + Be32(size) + Be32(SampleFlags(isKeyframe))
  }

  lemma LeafBytes(kind: u32, fields: bytes)
    requires |fields| + 8 < U32_LIMIT
    ensures Serialize(Leaf(kind, fields)) == Be32(8 + |fields|) + Be32(kind) + fields
  {
    assert Size(Leaf(kind, fields)) == 8 + |fields|;
    assert Serialize(Leaf(kind, fields)) == Be32(8 + |fields|) + Be32(kind) + fields + [];
  }

  lemma SerializeOne(b: Box)
    ensures SerializeAll([b]) == Serialize(b)
  {
    assert SerializeAll([b]) == Serialize(b) + [];
  }

  lemma SerializeTwo(a: Box, b: Box)
    ensures SerializeAll([a, b]) == Serialize(a) + Serialize(b)
  {
    SerializeOne(b);
    assert [a, b][1..] == [b];
  }

  lemma SerializeThree(a: Box, b: Box, c: Box)
    ensures SerializeAll([a, b, c]) == Serialize(a) + Serialize(b) + Serialize(c)
  {
    SerializeTwo(b, c);
    assert [a, b, c][1..] == [b, c];
  }

  lemma TrafLayout(decodeTime: u64, trun: bytes)
    requires |trun| == 24
    ensures Serialize(Box(TRAF, [], [Leaf(TFHD, Be32(0x02_0000) + Be32(TRACK_ID)),
                                     Leaf(TFDT, Be32(0x0100_0000) + Be64(decodeTime)),
                                     Leaf(TRUN, trun)]))
         == (Be32(76) + Be32(TRAF))
            + (Be32(16) + Be32(TFHD) + (Be32(0x02_0000) + Be32(TRACK_ID)))
            + (Be32(20) + Be32(TFDT) + (Be32(0x0100_0000) + Be64(decodeTime)))
            + (Be32(32) + Be32(TRUN) + trun)
  {
    var tfhd := Leaf(TFHD, Be32(0x02_0000) + Be32(TRACK_ID));
    var tfdt := Leaf(TFDT, Be32(0x0100_0000) + Be64(decodeTime));
    LeafBytes(TFHD, tfhd.fields);
    LeafBytes(TFDT, tfdt.fields);
    LeafBytes(TRUN, trun);
    SerializeThree(tfhd, tfdt, Leaf(TRUN, trun));
    var traf := Box(TRAF, [], [tfhd, tfdt, Leaf(TRUN, trun)]);
    assert |SerializeAll(traf.children)| == 68;
    assert Size(traf) == 76;
  }

  lemma MoofLayout(sequenceNumber: u32, decodeTime: u64, duration: u32, size: u32, isKeyframe: bool, dataOffset: u32)
    ensures Serialize(MoofBox(sequenceNumber, decodeTime, duration, size, isKeyframe, dataOffset))
         == BeforeDataOffset(sequenceNumber, decodeTime) + Be32(dataOffset)
            + AfterDataOffset(duration, size, isKeyframe)
    ensures |BeforeDataOffset(sequenceNumber, decodeTime)| == DATA_OFFSET_FIELD_OFFSET
  {
    var moof := MoofBox(sequenceNumber, decodeTime, duration, size, isKeyframe, dataOffset);
    MoofSize(sequenceNumber, decodeTime, duration, size, isKeyframe, dataOffset);
    LeafBytes(MFHD, Be32(0) + Be32(sequenceNumber));
    TrafLayout(decodeTime, TrunFields(dataOffset, duration, size, SampleFlags(isKeyframe)));
    SerializeTwo(moof.children[0], moof.children[1]);
    Regroup(Be32(100) + Be32(MOOF), Be32(16) + Be32(MFHD) + (Be32(0) + Be32(sequenceNumber)), Be32(76) + Be32(TRAF),
            Be32(16) + Be32(TFHD) + (Be32(0x02_0000) + Be32(TRACK_ID)),
            Be32(20) + Be32(TFDT) + (Be32(0x0100_0000) + Be64(decodeTime)), Be32(32) + Be32(TRUN),
            Be32(0x0701) + Be32(1), Be32(dataOffset), Be32(duration), Be32(size), Be32(SampleFlags(isKeyframe)));
    assert Serialize(moof) == (Be32(100) + Be32(MOOF)) + [] + SerializeAll(moof.children);
    assert (Be32(100) + Be32(MOOF)) + [] == Be32(100) + Be32(MOOF);
  }

  lemma Regroup(a: bytes, b: bytes, c: bytes, d: bytes, e: bytes, f: bytes, g: bytes, h: bytes, i: bytes, j: bytes,
                k: bytes)
    ensures a + (b + (c + d + e + (f + (g + h + i + j + k)))) == (a + b + c + d + e + f + g) + h + (i + j + k)
  {
  }

  /** Patching the four bytes at the constant offset sets the `trun` box's data offset. */
  lemma DataOffsetPatched(sequenceNumber: u32, decodeTime: u64, duration: u32, size: u32, isKeyframe: bool,
                          before: u32, after: u32)
    ensures var unpatched := Serialize(MoofBox(sequenceNumber, decodeTime, duration, size, isKeyframe, before));
      && |unpatched| == MOOF_SIZE
      && unpatched[..DATA_OFFSET_FIELD_OFFSET] + Be32(after) + unpatched[DATA_OFFSET_FIELD_OFFSET + 4..]
         == Serialize(MoofBox(sequenceNumber, decodeTime, duration, size, isKeyframe, after))
  {
    MoofSize(sequenceNumber, decodeTime, duration, size, isKeyframe, before);
    MoofLayout(sequenceNumber, decodeTime, duration, size, isKeyframe, before);
    MoofLayout(sequenceNumber, decodeTime, duration, size, isKeyframe, after);
    Patched(BeforeDataOffset(sequenceNumber, decodeTime), Be32(before), Be32(after),
            AfterDataOffset(duration, size, isKeyframe));
  }

  lemma Patched(left: bytes, before: bytes, after: bytes, right: bytes)
    requires |before| == |after|
    ensures var whole := left + before + right;
      whole[..|left|] + after + whole[|left| + |before|..] == left + after + right
  {
    var whole := left + before + right;
    assert whole[..|left|] == left && whole[|left| + |before|..] == right;
  }

  method Fragment(sequenceNumber: u32, baseMediaDecodeTime: u64, sampleDuration: u32, samplePayload: bytes,
                  isKeyframe: bool)
    returns (data: bytes)
    requires FitsBox(samplePayload)
    ensures data == SerializeAll(FragmentBoxes(sequenceNumber, baseMediaDecodeTime, sampleDuration, samplePayload,
                                               isKeyframe))
  {
    var size := |samplePayload| + 4;
    var moof := new BytesMut();
    MoofSize(sequenceNumber, baseMediaDecodeTime, sampleDuration, size, isKeyframe, 0);
    WriteBox(moof, MoofBox(sequenceNumber, baseMediaDecodeTime, sampleDuration, size, isKeyframe, 0));
    var dataOffset := |moof.data| + 8;
    DataOffsetPatched(sequenceNumber, baseMediaDecodeTime, sampleDuration, size, isKeyframe, 0, dataOffset);
    moof.Patch(DATA_OFFSET_FIELD_OFFSET, dataOffset);
    WriteBox(moof, MdatBox(samplePayload));
    SerializeTwo(MoofBox(sequenceNumber, baseMediaDecodeTime, sampleDuration, size, isKeyframe, dataOffset),
                 MdatBox(samplePayload));
    return moof.data;
  }

  // ----- A player's view of a fragment

  datatype Sample = Sample(sequenceNumber: u32, decodeTime: u64, duration: u32, isKeyframe: bool, nal: bytes)

  function Find(boxes: seq<Box>, kind: u32): Option<Box> {
    if boxes == [] then None else if boxes[0].kind == kind then Some(boxes[0]) else Find(boxes[1..], kind)
  }

  /** Reads a fragment of track 1 as ISO/IEC 14496-12 section 8.8 says: the data offset counts from the
      start of the `moof` box, here the first; a sample whose non-sync flag is clear is a keyframe,
      and depends on no other; the decode time has 64 bits, the run one sample with a duration, a
      size and flags of its own, and the sample is one length-prefixed NAL unit. */
  function Demux(data: bytes): Option<Sample> {
    var boxes :- ParseBoxes(data);
    if boxes == [] || boxes[0].kind != MOOF then None
    else
      var mfhd :- Find(boxes[0].children, MFHD);
      var traf :- Find(boxes[0].children, TRAF);
      var tfhd :- Find(traf.children, TFHD);
      var tfdt :- Find(traf.children, TFDT);
      var trun :- Find(traf.children, TRUN);
      if BoxHeads(mfhd.fields, tfhd.fields, tfdt.fields, trun.fields)
      then DemuxSample(data, mfhd.fields, tfdt.fields, trun.fields)
      else None
  }

  /** The boxes' lengths, versions, flags, track and sample count are those of the one-sample layout. */
  predicate BoxHeads(mfhd: bytes, tfhd: bytes, tfdt: bytes, trun: bytes) {
    && |mfhd| == 8 && |tfhd| == 8 && |tfdt| == 12 && |trun| == 24
    && ReadBe32(mfhd, 0) == 0 && ReadBe32(tfhd, 0) == 0x02_0000 && ReadBe32(tfhd, 4) == 1
    && ReadBe32(tfdt, 0) == 0x0100_0000 && ReadBe32(trun, 0) == 0x0701 && ReadBe32(trun, 4) == 1
  }

  function DemuxSample(data: bytes, mfhd: bytes, tfdt: bytes, trun: bytes): Option<Sample>
    requires |mfhd| == 8 && |tfdt| == 12 && |trun| == 24
  {
    var dataOffset, size := ReadBe32(trun, 8), ReadBe32(trun, 16);
    var isKeyframe :- ReadFlags(ReadBe32(trun, 20));
    if size < 4 || dataOffset + size > |data| || ReadBe32(data, dataOffset) != size - 4 then None
    else
      Some(Sample(ReadBe32(mfhd, 4), ReadBe64(tfdt, 4), ReadBe32(trun, 12), isKeyframe,
                  data[dataOffset + 4..dataOffset + size]))
  }

  /** Whether the sample is a keyframe, unless the flags contradict themselves or say more. */
  function ReadFlags(flags: u32): Option<bool> {
    var nonSync, dependsOn := flags / 0x1_0000 % 2, flags / 0x100_0000 % 4;
    if dependsOn == 2 - nonSync && flags == dependsOn * 0x100_0000 + nonSync * 0x1_0000 then Some(nonSync == 0)
    else None
  }

  lemma FlagsRead(isKeyframe: bool)
    ensures ReadFlags(SampleFlags(isKeyframe)) == Some(isKeyframe)
  {
  }

  lemma FragmentShaped(sequenceNumber: u32, decodeTime: u64, duration: u32, payload: bytes, isKeyframe: bool)
    requires FitsBox(payload)
    ensures var boxes := FragmentBoxes(sequenceNumber, decodeTime, duration, payload, isKeyframe);
      AllShaped(boxes) && AllFit(boxes)
  {
    var boxes := FragmentBoxes(sequenceNumber, decodeTime, duration, payload, isKeyframe);
    MoofSize(sequenceNumber, decodeTime, duration, |payload| + 4, isKeyframe, MOOF_SIZE + 8);
    assert Size(boxes[1]) == 12 + |payload|;
    var traf := boxes[0].children[1];
    assert AllShaped(traf.children);
    assert AllShaped(boxes[0].children);
  }

  lemma TrunRead(dataOffset: u32, duration: u32, size: u32, flags: u32)
    ensures var fields := TrunFields(dataOffset, duration, size, flags);
      && |fields| == 24 && ReadBe32(fields, 8) == dataOffset && ReadBe32(fields, 12) == duration
      && ReadBe32(fields, 16) == size && ReadBe32(fields, 20) == flags
  {
    var fields := TrunFields(dataOffset, duration, size, flags);
    assert fields[8..12] == Be32(dataOffset) && fields[12..16] == Be32(duration);
    assert fields[16..20] == Be32(size) && fields[20..24] == Be32(flags);
    ReadBe32At(fields, 8, dataOffset);
    ReadBe32At(fields, 12, duration);
    ReadBe32At(fields, 16, size);
    ReadBe32At(fields, 20, flags);
  }

  /** The patched offset leads to the sample: its length and payload, up to the last byte. */
  lemma SampleAtDataOffset(sequenceNumber: u32, decodeTime: u64, duration: u32, payload: bytes, isKeyframe: bool)
    requires FitsBox(payload)
    ensures var data := SerializeAll(FragmentBoxes(sequenceNumber, decodeTime, duration, payload, isKeyframe));
      && |data| == MOOF_SIZE + 8 + |payload| + 4
      && ReadBe32(data, DATA_OFFSET_FIELD_OFFSET) == MOOF_SIZE + 8
      && data[MOOF_SIZE + 8..] == Be32(|payload|) + payload
  {
    var boxes := FragmentBoxes(sequenceNumber, decodeTime, duration, payload, isKeyframe);
    var data := SerializeAll(boxes);
    var size := |payload| + 4;
    MoofSize(sequenceNumber, decodeTime, duration, size, isKeyframe, MOOF_SIZE + 8);
    MoofLayout(sequenceNumber, decodeTime, duration, size, isKeyframe, MOOF_SIZE + 8);
    SerializeTwo(boxes[0], boxes[1]);
    LeafBytes(MDAT, Be32(|payload|) + payload);
    Placed(BeforeDataOffset(sequenceNumber, decodeTime), MOOF_SIZE + 8, AfterDataOffset(duration, size, isKeyframe),
           Be32(12 + |payload|) + Be32(MDAT), Be32(|payload|) + payload);
  }

  lemma Placed(left: bytes, value: u32, right: bytes, header: bytes, rest: bytes)
    ensures var data := (left + Be32(value) + right) + (header + rest);
      && ReadBe32(data, |left|) == value
      && data[|left| + 4 + |right| + |header|..] == rest
  {
    var data := (left + Be32(value) + right) + (header + rest);
    assert data[|left|..|left| + 4] == Be32(value);
    ReadBe32At(data, |left|, value);
  }

  /** Every fragment is read back: the muxer's arguments are what a player finds in its bytes. */
  lemma DemuxFragment(sequenceNumber: u32, decodeTime: u64, duration: u32, payload: bytes, isKeyframe: bool)
    requires FitsBox(payload)
    ensures Demux(SerializeAll(FragmentBoxes(sequenceNumber, decodeTime, duration, payload, isKeyframe)))
         == Some(Sample(sequenceNumber, decodeTime, duration, isKeyframe, payload))
  {
    var boxes := FragmentBoxes(sequenceNumber, decodeTime, duration, payload, isKeyframe);
    FragmentShaped(sequenceNumber, decodeTime, duration, payload, isKeyframe);
    ParseSerialized(boxes);
    FindChildren(boxes[0]);
    SampleAtDataOffset(sequenceNumber, decodeTime, duration, payload, isKeyframe);
    HeadsRead(sequenceNumber, decodeTime, MOOF_SIZE + 8, duration, |payload| + 4, SampleFlags(isKeyframe));
    DemuxedSample(SerializeAll(boxes), sequenceNumber, decodeTime, duration, payload, isKeyframe);
  }

  lemma DemuxedSample(data: bytes, sequenceNumber: u32, decodeTime: u64, duration: u32, payload: bytes,
                      isKeyframe: bool)
    requires FitsBox(payload) && |data| >= MOOF_SIZE + 8 && data[MOOF_SIZE + 8..] == Be32(|payload|) + payload
    ensures DemuxSample(data, Be32(0) + Be32(sequenceNumber), Be32(0x0100_0000) + Be64(decodeTime),
                        TrunFields(MOOF_SIZE + 8, duration, |payload| + 4, SampleFlags(isKeyframe)))
         == Some(Sample(sequenceNumber, decodeTime, duration, isKeyframe, payload))
  {
    FlagsRead(isKeyframe);
    TrunRead(MOOF_SIZE + 8, duration, |payload| + 4, SampleFlags(isKeyframe));
    MfhdRead(sequenceNumber);
    TfdtRead(decodeTime);
    LengthThenPayload(data, MOOF_SIZE + 8, payload);
  }

  lemma MfhdRead(sequenceNumber: u32)
    ensures ReadBe32(Be32(0) + Be32(sequenceNumber), 4) == sequenceNumber
  {
    PairRead(0, sequenceNumber);
  }

  lemma PairRead(a: u32, b: u32)
    ensures ReadBe32(Be32(a) + Be32(b), 0) == a && ReadBe32(Be32(a) + Be32(b), 4) == b
  {
    var pair := Be32(a) + Be32(b);
    assert pair[0..4] == Be32(a) && pair[4..8] == Be32(b);
    ReadBe32At(pair, 0, a);
    ReadBe32At(pair, 4, b);
  }

  lemma FirstRead(a: u32, rest: bytes)
    ensures ReadBe32(Be32(a) + rest, 0) == a
  {
    assert (Be32(a) + rest)[0..4] == Be32(a);
    ReadBe32At(Be32(a) + rest, 0, a);
  }

  lemma HeadsRead(sequenceNumber: u32, decodeTime: u64, dataOffset: u32, duration: u32, size: u32, flags: u32)
    ensures BoxHeads(Be32(0) + Be32(sequenceNumber), Be32(0x02_0000) + Be32(TRACK_ID),
                     Be32(0x0100_0000) + Be64(decodeTime), TrunFields(dataOffset, duration, size, flags))
  {
    var trun := TrunFields(dataOffset, duration, size, flags);
    PairRead(0, sequenceNumber);
    PairRead(0x02_0000, TRACK_ID);
    FirstRead(0x0100_0000, Be64(decodeTime));
    assert trun[0..4] == Be32(0x0701) && trun[4..8] == Be32(1);
    ReadBe32At(trun, 0, 0x0701);
    ReadBe32At(trun, 4, 1);
  }

  lemma TfdtRead(decodeTime: u64)
    ensures ReadBe64(Be32(0x0100_0000) + Be64(decodeTime), 4) == decodeTime
  {
    assert (Be32(0x0100_0000) + Be64(decodeTime))[4..12] == Be64(decodeTime);
    ReadBe64At(Be32(0x0100_0000) + Be64(decodeTime), 4, decodeTime);
  }

  lemma LengthThenPayload(data: bytes, at: nat, payload: bytes)
    requires at <= |data| && |payload| < U32_LIMIT && data[at..] == Be32(|payload|) + payload
    ensures at + 4 + |payload| == |data| && ReadBe32(data, at) == |payload| && data[at + 4..|data|] == payload
  {
    var tail := data[at..];
    assert data[at..at + 4] == tail[..4];
    ReadBe32At(data, at, |payload|);
    assert data[at + 4..|data|] == tail[4..];
  }

  lemma FindChildren(moof: Box)
    requires |moof.children| == 2 && moof.children[0].kind == MFHD && moof.children[1].kind == TRAF
    requires var traf := moof.children[1];
      && |traf.children| == 3
      && traf.children[0].kind == TFHD && traf.children[1].kind == TFDT && traf.children[2].kind == TRUN
    ensures Find(moof.children, MFHD) == Some(moof.children[0]) && Find(moof.children, TRAF) == Some(moof.children[1])
    ensures var traf := moof.children[1];
      Find(traf.children, TFHD) == Some(traf.children[0])
      && Find(traf.children, TFDT) == Some(traf.children[1]) && Find(traf.children, TRUN) == Some(traf.children[2])
  {
    var traf := moof.children[1];
    FindNext(moof.children, TRAF);
    FindNext(traf.children, TFDT);
    FindNext(traf.children, TRUN);
    FindNext(traf.children[1..], TRUN);
  }

  lemma FindNext(boxes: seq<Box>, kind: u32)
    requires |boxes| > 1 && boxes[0].kind != kind
    ensures Find(boxes, kind) == Find(boxes[1..], kind) && boxes[1..][0] == boxes[1]
  {
  }
}
