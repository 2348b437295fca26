/** A volume with two PEI core files, of which only the second one has an image. */
module FfsTwoCores {
  import opened Wrappers
  import opened Bytes
  import opened FvbAttributes
  import opened FfsVolume

  const VOLUME_SIZE: nat := 136
  const FIRST: nat := 72
  const SECOND: nat := 96

  /** A file without sections at 72, and a file with a PE32 section of eight bytes at 96. */
  function VolumeByte(i: nat): byte {
    if i == 88 then 0xE4 else if i == 90 then 0x04 else if i == 92 then 0x18 else if i == 95 then 0x07
    else if i == 112 then 0xDC else if i == 114 then 0x04 else if i == 116 then 0x20 else if i == 119 then 0x07
    else if i == 120 then 0x08 else if i == 123 then 0x10
    else 0
  }

  const BYTES: seq<byte> := seq(VOLUME_SIZE, i requires 0 <= i => VolumeByte(i))

  const VOLUME: Volume := Volume(BYTES, VOLUME_SIZE, FIRST, 0)

  lemma {:induction false} ByteSumZeros(s: seq<byte>)
    requires forall i :: 0 <= i < |s| ==> s[i] == 0
    ensures ByteSum(s) == 0
  {
    if s != [] {
      ByteSumZeros(s[..|s| - 1]);
    }
  }

  /** The checksum of a header in which only the checksum, the type and the low byte of the size are not zero. */
  lemma {:induction false} SumOfHeader(file: nat, checksum: byte, kind: byte, size: byte)
    requires file + FILE_HEADER <= |BYTES|
    requires forall i :: file <= i < file + 16 ==> BYTES[i] == 0
    requires BYTES[file + 16] == checksum && BYTES[file + 18] == kind && BYTES[file + 20] == size
    requires BYTES[file + 19] == BYTES[file + 21] == BYTES[file + 22] == 0
    ensures HeaderSum(BYTES, file) == (checksum as nat + kind as nat + size as nat) % 0x100
  {
    var a, b := BYTES[file..file + FILE_CHECKSUM], BYTES[file + FILE_CHECKSUM + 1..file + FILE_STATE];
    hide VolumeByte;
    ByteSumZeros(a[..16]);
    assert ByteSum(a) == checksum as nat;
    assert b == [kind, 0, size, 0, 0];
    assert b[..4][..3][..2][..1] == [kind] && b[..4][..3][..2] == [kind, 0] && b[..4][..3] == [kind, 0, size];
    assert ByteSum([kind]) == kind as nat by { assert [kind][..0] == []; }
    assert ByteSum([kind, 0]) == kind as nat by { assert [kind, 0][..1] == [kind]; }
    assert ByteSum([kind, 0, size]) == kind as nat + size as nat by { assert [kind, 0, size][..2] == [kind, 0]; }
    assert ByteSum(b[..4]) == kind as nat + size as nat;
    assert ByteSum(b) == kind as nat + size as nat;
  }

  lemma {:induction false} ValidState()
    ensures HighestBit(StateBits(0x07, false)) == FILE_DATA_VALID
  {
  }

  lemma {:induction false} Items()
    ensures VOLUME.Readable() && VOLUME.InRange(FIRST) && VOLUME.InRange(SECOND)
    ensures VOLUME.ItemAt(FIRST) == File && VOLUME.ItemAt(SECOND) == File
    ensures VOLUME.Next(FIRST) == SECOND && VOLUME.Next(SECOND) == 128 && !VOLUME.InRange(128)
    ensures VOLUME.Type(FIRST) == VOLUME.Type(SECOND) == FILETYPE_PEI_CORE
    ensures VOLUME.Size(FIRST) == 24 && VOLUME.Size(SECOND) == 32
  {
    SumOfHeader(FIRST, 0xE4, 0x04, 0x18);
    SumOfHeader(SECOND, 0xDC, 0x04, 0x20);
    ValidState();
    hide ByteSum, HeaderSum, HighestBit, StateBits;
    assert VOLUME.Polarity() == false;
    assert BYTES[FIRST + FILE_STATE] == 0x07 && BYTES[SECOND + FILE_STATE] == 0x07;
  }

  lemma {:induction false} SectionsOfFiles()
    ensures VOLUME.HoldsFile(FIRST) && !VOLUME.HasSection(FIRST, 0)
    ensures VOLUME.HoldsFile(SECOND) && VOLUME.HasSection(SECOND, 0)
    ensures VOLUME.SectionType(SECOND, 0) == SECTION_PE32
  {
    hide Volume.Readable, Volume.InRange, Volume.ItemAt, Volume.Next;
    Items();
  }

  /** The search for the PEI core ends without an image, although a PEI core file with one is in the volume. */
  lemma {:induction false} SecondCoreIsIgnored()
    ensures var v, p := VOLUME, Wanted(VOLUME, FILETYPE_PEI_CORE);
            && v.CanSearch(None, p)
            && First(v.Files(v.headerLength), p) == Some(FIRST)
            && v.HoldsFile(FIRST)
            && v.SectionsGetAhead(FIRST, 0, WantedSection(v, FIRST, SECTION_PE32))
            && First(v.Sections(FIRST, 0), WantedSection(v, FIRST, SECTION_PE32)) == None
            && SECOND in v.Files(v.headerLength) && p(SECOND)
            && v.HoldsFile(SECOND)
            && First(v.Sections(SECOND, 0), WantedSection(v, SECOND, SECTION_PE32)) == Some(0)
  {
    Items();
    SectionsOfFiles();
    hide Volume.HoldsFile, Volume.HasSection, Volume.SectionType, Volume.InRange, Volume.ItemAt, Volume.Next;
    hide Volume.Type, VolumeByte;
    var v, p := VOLUME, Wanted(VOLUME, FILETYPE_PEI_CORE);
    SearchFinds(v, FIRST, p);
    SectionFound(v, FIRST, 0, WantedSection(v, FIRST, SECTION_PE32));
    SectionFound(v, SECOND, 0, WantedSection(v, SECOND, SECTION_PE32));
    FilesAreVisited(v, FIRST, SECOND);
    assert Visits(v, SECOND, SECOND);
  }
}
