/** ISO/IEC 14496-12 boxes: a pure serializer and parser of box trees, and the muxer's own
    writer, which appends to a growing buffer and patches each size in place. */
module Boxes {
  import opened Bytes
  import opened Options

  /** A box: its four-character code as a number, its own fields, then the boxes inside it. */
  datatype Box = Box(kind: u32, fields: bytes, children: seq<Box>)

  function Size(b: Box): nat {
    8 + |b.fields| + SizeAll(b.children)
  }

  function SizeAll(boxes: seq<Box>): nat {
    if boxes == [] then 0 else Size(boxes[0]) + SizeAll(boxes[1..])
  }

  function SizeField(size: nat): u32 {
    if size < U32_LIMIT then size else 0
  }

  /** The box on the wire; meaningful for boxes whose size fits its 32-bit field. */
  function Serialize(b: Box): (r: bytes)
    ensures |r| == Size(b)
  {
    Be32(SizeField(Size(b))) + Be32(b.kind) + b.fields + SerializeAll(b.children)
  }

  function SerializeAll(boxes: seq<Box>): (r: bytes)
    ensures |r| == SizeAll(boxes)
  {
    if boxes == [] then [] else Serialize(boxes[0]) + SerializeAll(boxes[1..])
  }

  lemma {:induction false} SerializeAllPush(boxes: seq<Box>, b: Box)
    ensures SerializeAll(boxes + [b]) == SerializeAll(boxes) + Serialize(b)
    ensures SizeAll(boxes + [b]) == SizeAll(boxes) + Size(b)
  {
    if boxes == [] {
      assert SerializeAll([b]) == Serialize(b) + [];
    } else {
      assert (boxes + [b])[1..] == boxes[1..] + [b];
      SerializeAllPush(boxes[1..], b);
    }
  }

  // ----- The writer

  class BytesMut {
    var data: bytes

    constructor ()
      ensures data == []
    {
      data := [];
    }

    method PutU32(v: u32)
      modifies this
      ensures data == old(data) + Be32(v)
    {
      data := data + Be32(v);
    }

    method PutSlice(slice: bytes)
      modifies this
      ensures data == old(data) + slice
    {
      data := data + slice;
    }

    /** Overwrites the four bytes at `at`. */
    method Patch(at: nat, v: u32)
      requires at + 4 <= |data|
      modifies this
      ensures data == old(data)[..at] + Be32(v) + old(data)[at + 4..]
    {
      data := data[..at] + Be32(v) + data[at + 4..];
    }
  }

  /** Leaves room for the size, writes the box's fields and the boxes inside it, then patches the size.
      A box of 4 GiB or more is a panic in the source. */
  method WriteBox(out: BytesMut, b: Box)
    requires Size(b) < U32_LIMIT
    modifies out
    ensures out.data == old(out.data) + Serialize(b)
    decreases b, 1
  {
    var start := |out.data|;
    ghost var before := out.data;
    out.PutU32(0); // the size, not known yet
    out.PutU32(b.kind);
    out.PutSlice(b.fields);
    assert out.data == before + (Be32(0) + Be32(b.kind) + b.fields);
    WriteAll(out, b.children);
    out.Patch(start, |out.data| - start);
    PatchedBox(before, b);
  }

  /** The part of a box's body that writes the boxes inside it. */
  method WriteAll(out: BytesMut, boxes: seq<Box>)
    requires SizeAll(boxes) < U32_LIMIT
    modifies out
    ensures out.data == old(out.data) + SerializeAll(boxes)
    decreases boxes, 0
  {
    ghost var before := out.data;
    for i := 0 to |boxes|
      invariant out.data == before + SerializeAll(boxes[..i])
    {
      ChildFits(boxes, i);
      WriteBox(out, boxes[i]);
      SerializeAllPush(boxes[..i], boxes[i]);
      assert boxes[..i + 1] == boxes[..i] + [boxes[i]];
    }
    assert boxes[..|boxes|] == boxes;
  }

  lemma {:induction false} ChildFits(boxes: seq<Box>, i: nat)
    requires i < |boxes|
    ensures Size(boxes[i]) <= SizeAll(boxes)
  {
    if i > 0 {
      ChildFits(boxes[1..], i - 1);
    }
  }

  lemma PatchedBox(before: bytes, b: Box)
    requires Size(b) < U32_LIMIT
    ensures var written := before + (Be32(0) + Be32(b.kind) + b.fields) + SerializeAll(b.children);
      && |written| - |before| == Size(b)
      && written[..|before|] + Be32(Size(b)) + written[|before| + 4..] == before + Serialize(b)
  {
    Spliced(before, Be32(0), Be32(Size(b)), Be32(b.kind), b.fields, SerializeAll(b.children));
  }

  lemma Spliced(before: bytes, placeholder: bytes, size: bytes, kind: bytes, fields: bytes, children: bytes)
    requires |placeholder| == |size| == 4
    ensures var written := before + (placeholder + kind + fields) + children;
      written[..|before|] + size + written[|before| + 4..] == before + (size + kind + fields + children)
  {
    var written := before + (placeholder + kind + fields) + children;
    assert written[..|before|] == before;
    assert written[|before| + 4..] == kind + fields + children;
  }

  // ----- The parser

  /** Which boxes hold others, and how many bytes of their own fields come first
      (ISO/IEC 14496-12 section 8, ISO/IEC 14496-15 sections 5.4 and 8.4 for `avc1` and `hvc1`). */
  function FieldsBeforeChildren(kind: u32): Option<nat> {
    if kind in {MOOV, TRAK, MDIA, MINF, DINF, STBL, MVEX, MOOF, TRAF} then Some(0)
    else if kind in {DREF, STSD} then Some(8)
    else if kind in {AVC1, HVC1} then Some(78)
    else None
  }

  const FTYP: u32 := 0x6674_7970
  const MOOV: u32 := 0x6D6F_6F76
  const MVHD: u32 := 0x6D76_6864
  const TRAK: u32 := 0x7472_616B
  const TKHD: u32 := 0x746B_6864
  const MDIA: u32 := 0x6D64_6961
  const MDHD: u32 := 0x6D64_6864
  const HDLR: u32 := 0x6864_6C72
  const MINF: u32 := 0x6D69_6E66
  const VMHD: u32 := 0x766D_6864
  const DINF: u32 := 0x6469_6E66
  const DREF: u32 := 0x6472_6566
  const URL: u32 := 0x7572_6C20
  const STBL: u32 := 0x7374_626C
  const STSD: u32 := 0x7374_7364
  const AVC1: u32 := 0x6176_6331
  const AVCC: u32 := 0x6176_6343
  const HVC1: u32 := 0x6876_6331
  const HVCC: u32 := 0x6876_6343
  const STTS: u32 := 0x7374_7473
  const STSC: u32 := 0x7374_7363
  const STSZ: u32 := 0x7374_737A
  const STCO: u32 := 0x7374_636F
  const MVEX: u32 := 0x6D76_6578
  const TREX: u32 := 0x7472_6578
  const MOOF: u32 := 0x6D6F_6F66
  const MFHD: u32 := 0x6D66_6864
  const TRAF: u32 := 0x7472_6166
  const TFHD: u32 := 0x7466_6864
  const TFDT: u32 := 0x7466_6474
  const TRUN: u32 := 0x7472_756E
  const MDAT: u32 := 0x6D64_6174

  /** A four-character code, as a number. */
  ghost function Name(text: string): int
    requires |text| == 4
  {
    ((text[0] as int * 256 + text[1] as int) * 256 + text[2] as int) * 256 + text[3] as int
  }

  /** The kinds are the codes of ISO/IEC 14496-12 and ISO/IEC 14496-15. */
  lemma KindsAreNames()
    ensures FTYP == Name("ftyp") && MOOV == Name("moov") && MVHD == Name("mvhd") && TRAK == Name("trak")
    ensures TKHD == Name("tkhd") && MDIA == Name("mdia") && MDHD == Name("mdhd") && HDLR == Name("hdlr")
    ensures MINF == Name("minf") && VMHD == Name("vmhd") && DINF == Name("dinf") && DREF == Name("dref")
    ensures STBL == Name("stbl") && STSD == Name("stsd") && STTS == Name("stts") && STSC == Name("stsc")
    ensures STSZ == Name("stsz") && STCO == Name("stco") && MVEX == Name("mvex") && TREX == Name("trex")
    ensures MOOF == Name("moof") && MFHD == Name("mfhd") && TRAF == Name("traf") && TFHD == Name("tfhd")
    ensures TFDT == Name("tfdt") && TRUN == Name("trun") && MDAT == Name("mdat") && URL == Name("url ")
    ensures AVC1 == Name("avc1") && AVCC == Name("avcC") && HVC1 == Name("hvc1") && HVCC == Name("hvcC")
  {
  }

  /** Reads a run of boxes, and the boxes inside containers, by their size fields alone. */
  function ParseBoxes(input: bytes): Option<seq<Box>>
    decreases |input|
  {
    if input == [] then Some([])
    else if |input| < 8 then None
    else
      var size, kind := ReadBe32(input, 0), ReadBe32(input, 4);
      if size < 8 || size > |input| then None
      else
        var rest := ParseBoxes(input[size..]);
        var body := input[8..size];
        match FieldsBeforeChildren(kind)
        case None =>
          if rest.None? then None else Some([Box(kind, body, [])] + rest.value)
        case Some(own) =>
          if |body| < own then None
          else
            var children := ParseBoxes(body[own..]);
            if children.None? || rest.None? then None
            else Some([Box(kind, body[..own], children.value)] + rest.value)
  }

  /** Boxes the format allows: containers carry exactly their own fields, other boxes no children. */
  ghost predicate Shaped(b: Box) {
    && (match FieldsBeforeChildren(b.kind)
        case None => b.children == []
        case Some(own) => |b.fields| == own)
    && AllShaped(b.children)
  }

  ghost predicate AllShaped(boxes: seq<Box>) {
    forall i :: 0 <= i < |boxes| ==> Shaped(boxes[i])
  }

  ghost predicate AllFit(boxes: seq<Box>) {
    forall i :: 0 <= i < |boxes| ==> Size(boxes[i]) < U32_LIMIT
  }

  lemma ChildrenFit(b: Box)
    requires Size(b) < U32_LIMIT
    ensures AllFit(b.children)
  {
    forall i | 0 <= i < |b.children|
      ensures Size(b.children[i]) < U32_LIMIT
    {
      ChildFits(b.children, i);
    }
  }

  lemma SerializedHead(b: Box, rest: bytes)
    requires Size(b) < U32_LIMIT
    ensures var input := Serialize(b) + rest;
      && ReadBe32(input, 0) == Size(b) && ReadBe32(input, 4) == b.kind
      && input[8..Size(b)] == b.fields + SerializeAll(b.children)
      && input[Size(b)..] == rest
  {
    var children := SerializeAll(b.children);
    HeadRead(Size(b), b.kind, b.fields, children, rest);
    assert Serialize(b) == Be32(Size(b)) + Be32(b.kind) + b.fields + children;
    assert Size(b) == 8 + |b.fields| + |children|;
  }

  lemma HeadRead(size: u32, kind: u32, fields: bytes, children: bytes, rest: bytes)
    ensures var input := Be32(size) + Be32(kind) + fields + children + rest;
      && ReadBe32(input, 0) == size && ReadBe32(input, 4) == kind
      && input[8..8 + |fields| + |children|] == fields + children
      && input[8 + |fields| + |children|..] == rest
  {
    var input := Be32(size) + Be32(kind) + fields + children + rest;
    Headed(Be32(size), Be32(kind), fields, children, rest);
    ReadBe32At(input, 0, size);
    ReadBe32At(input, 4, kind);
  }

  lemma Headed(size: bytes, kind: bytes, fields: bytes, children: bytes, rest: bytes)
    requires |size| == |kind| == 4
    ensures var input := size + kind + fields + children + rest;
      && At(input, 0, size) && At(input, 4, kind)
      && input[8..8 + |fields| + |children|] == fields + children
      && input[8 + |fields| + |children|..] == rest
  {
  }

  /** Every tree the format allows is read back from its bytes: sizes and nesting agree at every
      depth. */
  lemma {:induction false} ParseSerialized(boxes: seq<Box>)
    requires AllShaped(boxes) && AllFit(boxes)
    ensures ParseBoxes(SerializeAll(boxes)) == Some(boxes)
  {
    if boxes != [] {
      var b := boxes[0];
      var rest := SerializeAll(boxes[1..]);
      SerializedHead(b, rest);
      ParseSerialized(boxes[1..]);
      var body := b.fields + SerializeAll(b.children);
      if FieldsBeforeChildren(b.kind).Some? {
        ChildrenFit(b);
        ParseSerialized(b.children);
        assert body[..|b.fields|] == b.fields && body[|b.fields|..] == SerializeAll(b.children);
      } else {
        assert body == b.fields;
      }
      assert boxes == [b] + boxes[1..];
    }
  }
}
