/** The searches through a firmware volume that find the PEI core. */
module FfsWalker {
  import opened Wrappers
  import opened Bytes
  import opened EfiStatus
  import opened FvHeader
  import opened FvbAttributes
  import opened FfsVolume

  /** The highest bit set in the state of a file. */
  method GetFileState(erasePolarity: nat, state: byte) returns (highestBit: bv8)
    ensures IsHighestBit(StateBits(state, erasePolarity != 0), highestBit)
  {
    var fileState := state as bv8;
    if erasePolarity != 0 {
      fileState := !fileState;
    }
    highestBit := 0x80;
    while highestBit != 0 && highestBit & fileState == 0
      invariant highestBit in {0x00, 0x01, 0x02, 0x04, 0x08, 0x10, 0x20, 0x40, 0x80}
      invariant highestBit == 0 ==> fileState == 0
      invariant highestBit != 0 && highestBit != 0x80 ==> fileState < highestBit << 1
      decreases highestBit
    {
      highestBit := highestBit >> 1;
    }
  }

  /** UINT8 addition and subtraction. */
  function AddByte(sum: nat, b: byte): (r: nat) {
    (sum + b as nat) % 0x100
  }

  function SubtractByte(sum: nat, b: byte): (r: nat) {
    (sum - b as nat) % 0x100
  }

  /** Zero for a header whose checksum is right. */
  method CalculateHeaderChecksum(volume: seq<byte>, file: nat) returns (sum: nat)
    requires file + FILE_HEADER <= |volume|
    ensures sum == HeaderSum(volume, file)
  {
    hide ByteSum, AddByte, SubtractByte, HeaderSum;
    var header := volume[file..file + FILE_HEADER];
    SumNothing(header);
    sum := 0;
    var index := 0;
    while index < FILE_HEADER - 3
      invariant 0 <= index <= FILE_HEADER
      invariant sum == ByteSum(header[..index]) % 0x100
    {
      SumOne(header, index, sum);
      sum := AddByte(sum, header[index]);
      SumOne(header, index + 1, sum);
      sum := AddByte(sum, header[index + 1]);
      SumOne(header, index + 2, sum);
      sum := AddByte(sum, header[index + 2]);
      SumOne(header, index + 3, sum);
      sum := AddByte(sum, header[index + 3]);
      index := index + 4;
    }
    while index < FILE_HEADER
      invariant 0 <= index <= FILE_HEADER
      invariant sum == ByteSum(header[..index]) % 0x100
    {
      SumOne(header, index, sum);
      sum := AddByte(sum, header[index]);
      index := index + 1;
    }
    assert header[..index] == header;
    SubtractFields(volume, file, sum);
    sum := SubtractByte(sum, header[FILE_STATE]);
    sum := SubtractByte(sum, header[FILE_CHECKSUM]);
  }

  lemma {:induction false} SumNothing(s: seq<byte>)
    ensures ByteSum(s[..0]) == 0
  {
  }

  lemma {:induction false} SumOne(s: seq<byte>, k: nat, sum: nat)
    requires k < |s| && sum == ByteSum(s[..k]) % 0x100
    ensures AddByte(sum, s[k]) == ByteSum(s[..k + 1]) % 0x100
  {
    assert s[..k + 1][..k] == s[..k];
  }

  lemma {:induction false} SplitHeader(volume: seq<byte>, file: nat)
    requires file + FILE_HEADER <= |volume|
    ensures ByteSum(volume[file..file + FILE_HEADER])
         == ByteSum(volume[file..file + FILE_CHECKSUM]) + volume[file + FILE_CHECKSUM] as nat
            + ByteSum(volume[file + FILE_CHECKSUM + 1..file + FILE_STATE]) + volume[file + FILE_STATE] as nat
  {
    var a := volume[file..file + FILE_CHECKSUM];
    var b := volume[file + FILE_CHECKSUM + 1..file + FILE_STATE];
    var c, s := volume[file + FILE_CHECKSUM], volume[file + FILE_STATE];
    assert volume[file..file + FILE_HEADER] == a + [c] + b + [s];
    ByteSumAppend(a, [c]);
    ByteSumAppend(a + [c], b);
    ByteSumAppend(a + [c] + b, [s]);
    assert ByteSum([c]) == c as nat && ByteSum([s]) == s as nat by {
      assert [c][..0] == [] && [s][..0] == [];
    }
  }

  /** Taking the two bytes out of the sum of the whole header leaves the sum that the checksum covers. */
  lemma {:induction false} SubtractFields(volume: seq<byte>, file: nat, sum: nat)
    requires file + FILE_HEADER <= |volume| && sum == ByteSum(volume[file..file + FILE_HEADER]) % 0x100
    ensures SubtractByte(SubtractByte(sum, volume[file + FILE_STATE]), volume[file + FILE_CHECKSUM])
         == HeaderSum(volume, file)
  {
    SplitHeader(volume, file);
  }

  /** The next file of a type, from the start of the volume or behind a given file. */
  method FindNextFile(searchType: byte, volume: Volume, fileHeader: Option<nat>)
    returns (status: Status, found: Option<nat>)
    requires volume.CanSearch(fileHeader, Wanted(volume, searchType))
    ensures var next := First(volume.Files(volume.SearchStart(fileHeader)), Wanted(volume, searchType));
            if next.Some? then status == Success && found == next else status == NotFound && found == fileHeader
  {
    hide Volume.Files, Volume.GetsAhead, First, HighestBit, IsHighestBit, StateBits, HeaderSum, Occupied, Le24;
    ghost var p := Wanted(volume, searchType);
    var erasePolarity := if volume.attributes & ERASE_POLARITY != 0 then 1 else 0;
    var fileOffset;
    if fileHeader == None {
      fileOffset := volume.headerLength;
    } else {
      var fileLength := Le24(volume.bytes, fileHeader.value + FILE_SIZE);
      fileOffset := fileHeader.value + Occupied(fileLength, 8);
    }
    ghost var next := First(volume.Files(fileOffset), p);
    while fileOffset < volume.fvLength - FILE_HEADER
      invariant volume.GetsAhead(fileOffset, p)
      invariant next == First(volume.Files(fileOffset), p)
      decreases volume.fvLength - fileOffset
    {
      var fileState := GetFileState(erasePolarity, volume.bytes[fileOffset + FILE_STATE]);
      HighestBitIsHighest(StateBits(volume.bytes[fileOffset + FILE_STATE], erasePolarity != 0), fileState);
      ghost var start := fileOffset;
      if fileState == FILE_HEADER_INVALID {
        SearchSkips(volume, start, p);
        fileOffset := fileOffset + FILE_HEADER;
      } else if fileState == FILE_DATA_VALID || fileState == FILE_MARKED_FOR_UPDATE {
        var checksum := CalculateHeaderChecksum(volume.bytes, fileOffset);
        if checksum == 0 {
          var fileLength := Le24(volume.bytes, fileOffset + FILE_SIZE);
          if searchType == volume.bytes[fileOffset + FILE_TYPE] || searchType == FILETYPE_ALL {
            SearchFinds(volume, start, p);
            return Success, Some(fileOffset);
          }
          SearchSkips(volume, start, p);
          fileOffset := fileOffset + Occupied(fileLength, 8);
        } else {
          SearchEnds(volume, start, p);
          return NotFound, fileHeader;
        }
      } else if fileState == FILE_DELETED {
        SearchSkips(volume, start, p);
        var fileLength := Le24(volume.bytes, fileOffset + FILE_SIZE);
        fileOffset := fileOffset + Occupied(fileLength, 8);
      } else {
        SearchEnds(volume, start, p);
        return NotFound, fileHeader;
      }
    }
    SearchEnds(volume, fileOffset, p);
    return NotFound, fileHeader;
  }

  /** The data of the first section of a type in a file. */
  method FindSectionData(sectionType: byte, volume: Volume, file: nat)
    returns (status: Status, sectionData: Option<nat>)
    requires volume.HoldsFile(file)
    requires volume.SectionsGetAhead(file, 0, WantedSection(volume, file, sectionType))
    ensures var first := First(volume.Sections(file, 0), WantedSection(volume, file, sectionType));
            if first.Some?
            then status == Success && sectionData == Some(volume.SectionAt(file, first.value) + SECTION_HEADER)
            else status == NotFound && sectionData == None
  {
    hide Volume.SectionsGetAhead, Volume.Sections, First, Occupied, Le24;
    var fileSize := Le24(volume.bytes, file + FILE_SIZE) - FILE_HEADER;
    sectionData := None;
    var parsedLength := 0;
    ghost var p := WantedSection(volume, file, sectionType);
    while parsedLength < fileSize
      invariant parsedLength % 4 == 0 && volume.SectionsGetAhead(file, parsedLength, p)
      invariant First(volume.Sections(file, 0), p) == First(volume.Sections(file, parsedLength), p)
      decreases fileSize - parsedLength
    {
      assert volume.HasSection(file, parsedLength);
      var section := file + FILE_HEADER + parsedLength;
      if volume.bytes[section + 3] == sectionType {
        SectionFound(volume, file, parsedLength, p);
        return Success, Some(section + SECTION_HEADER);
      }
      SectionSkipped(volume, file, parsedLength, p);
      var sectionLength := Occupied(Le24(volume.bytes, section), 4);
      parsedLength := parsedLength + sectionLength;
    }
    SectionFound(volume, file, parsedLength, p);
    return NotFound, None;
  }

  /** The image of the first PEI core file. The search does not go on to a second such file when the first has none. */
  method FindPeiCore(volume: Volume, oldData: Option<nat>) returns (status: Status, pe32Data: Option<nat>)
    requires volume.CanSearch(None, Wanted(volume, FILETYPE_PEI_CORE))
    requires var core := First(volume.Files(volume.headerLength), Wanted(volume, FILETYPE_PEI_CORE));
             core.Some? ==>
               && volume.HoldsFile(core.value)
               && volume.SectionsGetAhead(core.value, 0, WantedSection(volume, core.value, SECTION_PE32))
    ensures var core := First(volume.Files(volume.headerLength), Wanted(volume, FILETYPE_PEI_CORE));
            if core.None? then status == NotFound && pe32Data == oldData
            else
              var pe32 := First(volume.Sections(core.value, 0), WantedSection(volume, core.value, SECTION_PE32));
              if pe32.None? then status == NotFound && pe32Data == None
              else status == Success && pe32Data == Some(volume.SectionAt(core.value, pe32.value) + SECTION_HEADER)
  {
    var fileHeader: Option<nat> := None;
    status, fileHeader := FindNextFile(FILETYPE_PEI_CORE, volume, fileHeader);
    if status == Success {
      status, pe32Data := FindSectionData(SECTION_PE32, volume, fileHeader.value);
      return status, pe32Data;
    }
    return status, oldData;
  }
}
