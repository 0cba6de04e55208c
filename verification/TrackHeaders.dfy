/** What a player reads off an initialization segment besides the parameter sets: the file's brands,
    the track's header and clock, and the sample entry. */
module TrackHeaders {
  import opened Bytes
  import opened Options
  import opened Boxes
  import opened Fmp4
  import opened InitSegment

  /** The track's number, its clock, its handler and its size, the number of the next track, and the
      track and sample description that fragments extend. */
  datatype Track = Track(id: u32, timescale: u32, handler: u32, width: u16, height: u16, nextId: u32, extended: u32,
                         description: u32)

  function PlayerTrack(data: bytes): Option<Track> {
    var boxes :- ParseBoxes(data);
    var moov :- Find(boxes, MOOV);
    var mvhd :- Find(moov.children, MVHD);
    var mvex :- Find(moov.children, MVEX);
    var trex :- Find(mvex.children, TREX);
    var trak :- Find(moov.children, TRAK);
    var tkhd :- Find(trak.children, TKHD);
    var mdia :- Find(trak.children, MDIA);
    var mdhd :- Find(mdia.children, MDHD);
    var hdlr :- Find(mdia.children, HDLR);
    ReadTrack(mvhd.fields, tkhd.fields, mdhd.fields, hdlr.fields, trex.fields)
  }

  /** Version 0 headers of a file whose durations are in its fragments, and of an enabled track (ISO/IEC
      14496-12 sections 8.2.2, 8.3.2, 8.4.2, 8.4.3 and 8.8.3). */
  function ReadTrack(mvhd: bytes, tkhd: bytes, mdhd: bytes, hdlr: bytes, trex: bytes): Option<Track> {
    if |mvhd| != 100 || |tkhd| != 84 || |mdhd| != 24 || |hdlr| < 24 || |trex| != 24 then None
    else if !Unversioned(mvhd) || !Unversioned(mdhd) || !Unversioned(hdlr) || !Unversioned(trex) then None
    else if ReadBe32(tkhd, 0) != 7 || ReadBe32(mvhd, 16) != 0 || ReadBe32(mdhd, 16) != 0 then None
    else if !PlaysUnchanged(mvhd, tkhd, mdhd) then None
    else
      Some(Track(ReadBe32(tkhd, 12), ReadBe32(mdhd, 12), ReadBe32(hdlr, 8), ReadBe16(tkhd, 76), ReadBe16(tkhd, 80),
                 ReadBe32(mvhd, 96), ReadBe32(trex, 4), ReadBe32(trex, 8)))
  }

  /** At normal rate and volume, neither scaled nor rotated, in an undetermined language. */
  predicate PlaysUnchanged(mvhd: bytes, tkhd: bytes, mdhd: bytes)
    requires |mvhd| == 100 && |tkhd| == 84 && |mdhd| == 24
  {
    && ReadBe32(mvhd, 20) == 0x1_0000 && ReadBe16(mvhd, 24) == 0x100 && IsUnity(mvhd, 36) && IsUnity(tkhd, 40)
    && ReadBe16(mdhd, 20) == (('u' as int - 96) * 32 + ('n' as int - 96)) * 32 + ('d' as int - 96)
  }

  /** The unity matrix, of 16.16 numbers but for the 2.30 numbers of its last column. */
  predicate IsUnity(fields: bytes, at: nat)
    requires at + 36 <= |fields|
  {
    forall k :: 0 <= k < 9 ==> ReadBe32(fields, at + 4 * k) == UnityWord(k)
  }

  function UnityWord(k: nat): u32 {
    if k == 8 then 0x4000_0000 else if k % 4 == 0 then 0x1_0000 else 0
  }

  lemma UnityRead(fields: bytes, at: nat)
    requires at + 36 <= |fields| && fields[at..at + 36] == IdentityMatrix()
    ensures IsUnity(fields, at)
  {
    forall k | 0 <= k < 9
      ensures ReadBe32(fields, at + 4 * k) == UnityWord(k)
    {
      MatrixWord(k);
      SubSlice(fields, at, 36, 4 * k);
      ReadBe32At(fields, at + 4 * k, UnityWord(k));
    }
  }

  lemma SubSlice(fields: bytes, at: nat, length: nat, from: nat)
    requires at + length <= |fields| && from + 4 <= length
    ensures fields[at..at + length][from..from + 4] == fields[at + from..at + from + 4]
  {
    var left, right := fields[at..at + length][from..from + 4], fields[at + from..at + from + 4];
    assert |left| == |right| == 4;
    assert left[0] == right[0] && left[1] == right[1] && left[2] == right[2] && left[3] == right[3];
  }

  lemma MatrixWord(k: nat)
    requires k < 9
    ensures |IdentityMatrix()| == 36 && IdentityMatrix()[4 * k..4 * k + 4] == Be32(UnityWord(k))
  {
    var matrix := IdentityMatrix();
    if k == 0 {
      assert matrix[0..4] == Be32(0x1_0000);
    } else if k == 4 {
      assert matrix[16..20] == Be32(0x1_0000);
    } else if k == 8 {
      assert matrix[32..36] == Be32(0x4000_0000);
    } else {
      assert Be32(0) == [0, 0, 0, 0] && matrix[4 * k..4 * k + 4] == [0, 0, 0, 0];
    }
  }

  lemma UnchangedRead()
    ensures |MvhdBox().fields| == 100 && |TkhdBox().fields| == 84 && |MdhdBox().fields| == 24
    ensures PlaysUnchanged(MvhdBox().fields, TkhdBox().fields, MdhdBox().fields)
  {
    var mvhd, tkhd, mdhd := MvhdBox().fields, TkhdBox().fields, MdhdBox().fields;
    assert mvhd[20..24] == Be32(0x1_0000) && mvhd[24..26] == Be16(0x100) && mdhd[20..22] == Be16(0x55C4);
    ReadBe32At(mvhd, 20, 0x1_0000);
    ReadBe16At(mvhd, 24, 0x100);
    ReadBe16At(mdhd, 20, 0x55C4);
    assert mvhd[36..72] == IdentityMatrix() && tkhd[40..76] == IdentityMatrix();
    UnityRead(mvhd, 36);
    UnityRead(tkhd, 40);
  }

  /** The brands of the file's format: its own, and those it is compatible with (section 4.3). */
  function PlayerBrands(data: bytes): Option<seq<u32>> {
    var boxes :- ParseBoxes(data);
    var ftyp :- Find(boxes, FTYP);
    if |ftyp.fields| != 24 then None
    else
      Some([ReadBe32(ftyp.fields, 0), ReadBe32(ftyp.fields, 8), ReadBe32(ftyp.fields, 12), ReadBe32(ftyp.fields, 16),
            ReadBe32(ftyp.fields, 20)])
  }

  lemma BrandsReadBack(sets: ParameterSets)
    requires Fits(sets)
    ensures PlayerBrands(SerializeAll(InitBoxes(Stsd(sets))))
         == Some([Name("iso5"), Name("iso5"), Name("iso6"), Name("isom"), Name("mp41")])
  {
    InitSegmentParsed(sets);
    BrandsRead(FtypBox().fields);
  }

  lemma BrandsRead(fields: bytes)
    requires fields == FtypBox().fields
    ensures |fields| == 24 && ReadBe32(fields, 0) == Name("iso5") && ReadBe32(fields, 8) == Name("iso5")
    ensures ReadBe32(fields, 12) == Name("iso6") && ReadBe32(fields, 16) == Name("isom")
    ensures ReadBe32(fields, 20) == Name("mp41")
  {
    assert fields[0..4] == Be32(0x6973_6F35) && fields[8..12] == Be32(0x6973_6F35);
    assert fields[12..16] == Be32(0x6973_6F36) && fields[16..20] == Be32(0x6973_6F6D);
    assert fields[20..24] == Be32(0x6D70_3431);
    ReadBe32At(fields, 0, 0x6973_6F35);
    ReadBe32At(fields, 8, 0x6973_6F35);
    ReadBe32At(fields, 12, 0x6973_6F36);
    ReadBe32At(fields, 16, 0x6973_6F6D);
    ReadBe32At(fields, 20, 0x6D70_3431);
  }

  predicate Unversioned(fields: bytes)
    requires |fields| >= 4
  {
    ReadBe32(fields, 0) == 0
  }

  lemma HeadersRead()
    ensures ReadTrack(MvhdBox().fields, TkhdBox().fields, MdhdBox().fields, HdlrBox().fields,
                      MvexBox().children[0].fields)
         == Some(Track(1, 90_000, Name("vide"), 1920, 1080, 2, 1, 1))
  {
    UnchangedRead();
    MvhdRead();
    TkhdRead();
    MdhdRead();
    HdlrRead();
    TrexRead();
  }

  lemma MvhdRead()
    ensures var mvhd := MvhdBox().fields;
      |mvhd| == 100 && Unversioned(mvhd) && ReadBe32(mvhd, 16) == 0 && ReadBe32(mvhd, 96) == 2
  {
    var mvhd := MvhdBox().fields;
    assert mvhd[0..4] == Be32(0) && mvhd[16..20] == Be32(0) && mvhd[96..100] == Be32(2);
    ReadBe32At(mvhd, 0, 0);
    ReadBe32At(mvhd, 16, 0);
    ReadBe32At(mvhd, 96, 2);
  }

  lemma TkhdRead()
    ensures var tkhd := TkhdBox().fields;
      && |tkhd| == 84 && ReadBe32(tkhd, 0) == 7 && ReadBe32(tkhd, 12) == 1
      && ReadBe16(tkhd, 76) == 1920 && ReadBe16(tkhd, 80) == 1080
  {
    var tkhd := TkhdBox().fields;
    assert tkhd[0..4] == Be32(7) && tkhd[12..16] == Be32(1);
    assert tkhd[76..78] == Be16(1920) && tkhd[80..82] == Be16(1080);
    ReadBe32At(tkhd, 0, 7);
    ReadBe32At(tkhd, 12, 1);
    ReadBe16At(tkhd, 76, 1920);
    ReadBe16At(tkhd, 80, 1080);
  }

  lemma MdhdRead()
    ensures var mdhd := MdhdBox().fields;
      |mdhd| == 24 && Unversioned(mdhd) && ReadBe32(mdhd, 12) == 90_000 && ReadBe32(mdhd, 16) == 0
  {
    var mdhd := MdhdBox().fields;
    assert mdhd[0..4] == Be32(0) && mdhd[12..16] == Be32(90_000) && mdhd[16..20] == Be32(0);
    ReadBe32At(mdhd, 0, 0);
    ReadBe32At(mdhd, 12, 90_000);
    ReadBe32At(mdhd, 16, 0);
  }

  lemma HdlrRead()
    ensures var hdlr := HdlrBox().fields;
      |hdlr| >= 24 && Unversioned(hdlr) && ReadBe32(hdlr, 8) == Name("vide")
  {
    var hdlr := HdlrBox().fields;
    assert hdlr[0..4] == Be32(0) && hdlr[8..12] == Be32(0x7669_6465);
    ReadBe32At(hdlr, 0, 0);
    ReadBe32At(hdlr, 8, 0x7669_6465);
  }

  lemma TrexRead()
    ensures var trex := MvexBox().children[0].fields;
      |trex| == 24 && Unversioned(trex) && ReadBe32(trex, 4) == 1 && ReadBe32(trex, 8) == 1
  {
    var trex := MvexBox().children[0].fields;
    assert trex[0..4] == Be32(0) && trex[4..8] == Be32(1) && trex[8..12] == Be32(1);
    ReadBe32At(trex, 0, 0);
    ReadBe32At(trex, 4, 1);
    ReadBe32At(trex, 8, 1);
  }

  lemma HeadersFound(stsd: Box)
    ensures var moov := MoovBox(stsd);
      && Find(InitBoxes(stsd), MOOV) == Some(moov)
      && Find(moov.children, MVHD) == Some(MvhdBox())
      && Find(moov.children, TRAK) == Some(TrakBox(stsd)) && Find(moov.children, MVEX) == Some(MvexBox())
      && Find(MvexBox().children, TREX) == Some(MvexBox().children[0])
      && Find(TrakBox(stsd).children, TKHD) == Some(TkhdBox())
      && Find(TrakBox(stsd).children, MDIA) == Some(MdiaBox(stsd))
      && Find(MdiaBox(stsd).children, MDHD) == Some(MdhdBox())
      && Find(MdiaBox(stsd).children, HDLR) == Some(HdlrBox())
  {
    FindNext(InitBoxes(stsd), MOOV);
    FindNext(MoovBox(stsd).children, TRAK);
    FindNext(MoovBox(stsd).children, MVEX);
    FindNext(MoovBox(stsd).children[1..], MVEX);
    FindNext(TrakBox(stsd).children, MDIA);
    FindNext(MdiaBox(stsd).children, HDLR);
  }

  /** A player finds track 1, of video, ticking at 90 kHz, 1920 by 1080, extended by fragments of its
      first sample description, and no track 2. */
  lemma TrackReadBack(sets: ParameterSets)
    requires Fits(sets)
    ensures PlayerTrack(SerializeAll(InitBoxes(Stsd(sets))))
         == Some(Track(1, 90_000, Name("vide"), 1920, 1080, 2, 1, 1))
  {
    InitSegmentParsed(sets);
    HeadersFound(Stsd(sets));
    HeadersRead();
  }

  /** A video sample entry whose data is in the file's own first reference: 1920 by 1080 at 72 dots per
      inch, one frame a sample, 24 bits deep, without a colour table (section 12.1.3). */
  predicate IsVideoEntry(fields: bytes) {
    && |fields| == 78 && ReadBe16(fields, 6) == 1 && ReadBe16(fields, 24) == 1920 && ReadBe16(fields, 26) == 1080
    && ReadBe32(fields, 28) == 0x48_0000 && ReadBe32(fields, 32) == 0x48_0000
    && ReadBe16(fields, 40) == 1 && ReadBe16(fields, 74) == 24 && ReadBe16(fields, 76) == 65535
  }

  lemma VideoEntryRead()
    ensures IsVideoEntry(SampleEntryHeader())
  {
    var fields := SampleEntryHeader();
    EntryHalves(fields);
    assert fields[28..32] == Be32(0x48_0000) && fields[32..36] == Be32(0x48_0000);
    ReadBe32At(fields, 28, 0x48_0000);
    ReadBe32At(fields, 32, 0x48_0000);
  }

  lemma EntryHalves(fields: bytes)
    requires fields == SampleEntryHeader()
    ensures ReadBe16(fields, 6) == 1 && ReadBe16(fields, 24) == 1920 && ReadBe16(fields, 26) == 1080
    ensures ReadBe16(fields, 40) == 1 && ReadBe16(fields, 74) == 24 && ReadBe16(fields, 76) == 65535
  {
    assert fields[6..8] == Be16(1) && fields[24..26] == Be16(1920) && fields[26..28] == Be16(1080);
    assert fields[40..42] == Be16(1) && fields[74..76] == Be16(24) && fields[76..78] == [255, 255];
    ReadBe16At(fields, 6, 1);
    ReadBe16At(fields, 24, 1920);
    ReadBe16At(fields, 26, 1080);
    ReadBe16At(fields, 40, 1);
    ReadBe16At(fields, 74, 24);
  }

  /** A player finds one sample entry, of the codec's kind and such fields. */
  lemma EntryReadBack(sets: ParameterSets)
    requires Fits(sets)
    ensures var boxes := ParseBoxes(SerializeAll(InitBoxes(Stsd(sets))));
      var kind := if sets.H264Sets? then Name("avc1") else Name("hvc1");
      && boxes.Some?
      && var entry := FindPath(boxes.value, [MOOV, TRAK, MDIA, MINF, STBL, STSD] + [kind]);
         entry.Some? && IsVideoEntry(entry.value.fields)
  {
    var kind: u32 := if sets.H264Sets? then AVC1 else HVC1;
    InitSegmentParsed(sets);
    StsdFound(Stsd(sets), [kind]);
    VideoEntryRead();
    assert Find(Stsd(sets).children, kind) == Some(Stsd(sets).children[0]);
  }
}
