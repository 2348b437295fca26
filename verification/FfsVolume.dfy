/** The firmware file system as it lies in a volume (section 3.2.3 of Volume 3 of the PI Specification). */
module FfsVolume {
  import opened Wrappers
  import opened Bytes
  import opened FvHeader
  import opened FvbAttributes

  /** sizeof (EFI_FFS_FILE_HEADER) */
  const FILE_HEADER: nat := 24

  /** sizeof (EFI_COMMON_SECTION_HEADER) */
  const SECTION_HEADER: nat := 4

  /** Offsets of fields in a file header. */
  const FILE_CHECKSUM: nat := 17
  const FILE_TYPE: nat := 18
  const FILE_SIZE: nat := 20
  const FILE_STATE: nat := 23

  const FILETYPE_ALL: byte := 0x00
  const FILETYPE_PEI_CORE: byte := 0x04
  const SECTION_PE32: byte := 0x10

  const FILE_DATA_VALID: bv8 := 0x04
  const FILE_MARKED_FOR_UPDATE: bv8 := 0x08
  const FILE_DELETED: bv8 := 0x10
  const FILE_HEADER_INVALID: bv8 := 0x20

  /** `size` rounded up to a multiple of four or eight bytes. */
  function Occupied(size: nat, alignment: nat): (r: nat)
    requires alignment == 4 || alignment == 8
    ensures r % alignment == 0 && size <= r < size + alignment
  {
    if alignment == 4 then (size + 3) / 4 * 4 else (size + 7) / 8 * 8
  }

  lemma {:induction false} NextMultiple(a: nat, b: nat)
    requires a % 4 == 0 && b % 8 == 0 && a < b
    ensures a + 4 <= b
  {
  }

  lemma {:induction false} AddMultiple(a: nat, b: nat)
    requires b % 8 == 0
    ensures (a + b) % 8 == a % 8
  {
  }

  function ByteSum(s: seq<byte>): nat {
    if s == [] then 0 else ByteSum(s[..|s| - 1]) + s[|s| - 1] as nat
  }

  lemma {:induction false} ByteSumAppend(a: seq<byte>, b: seq<byte>)
    ensures ByteSum(a + b) == ByteSum(a) + ByteSum(b)
  {
    if b == [] {
      assert a + b == a;
    } else {
      var n := |b| - 1;
      ByteSumAppend(a, b[..n]);
      assert (a + b)[..|a + b| - 1] == a + b[..n];
    }
  }

  /** The header checksum covers the header without its file checksum and its state. */
  function HeaderSum(volume: seq<byte>, file: nat): nat
    requires file + FILE_HEADER <= |volume|
  {
    (ByteSum(volume[file..file + FILE_CHECKSUM]) + ByteSum(volume[file + FILE_CHECKSUM + 1..file + FILE_STATE])) % 0x100
  }

  /** The bits of a state byte that count, under the erase polarity. */
  function StateBits(state: byte, erasePolarity: bool): bv8 {
    if erasePolarity then !(state as bv8) else state as bv8
  }

  /** `bit` is the highest bit of `bits`, or zero if there is none. */
  ghost predicate IsHighestBit(bits: bv8, bit: bv8) {
    if bits == 0 then bit == 0
    else bit in {0x01, 0x02, 0x04, 0x08, 0x10, 0x20, 0x40, 0x80} && bit <= bits && bits - bit < bit
  }

  function HighestBit(bits: bv8): bv8 {
    if bits >= 0x80 then 0x80 else if bits >= 0x40 then 0x40 else if bits >= 0x20 then 0x20
    else if bits >= 0x10 then 0x10
    else if bits >= 0x08 then 0x08 else if bits >= 0x04 then 0x04 else if bits >= 0x02 then 0x02 else bits
  }

  lemma {:induction false} HighestBitIsHighest(bits: bv8, bit: bv8)
    ensures IsHighestBit(bits, bit) <==> bit == HighestBit(bits)
  {
  }

  /** What stands at an offset of the volume: a file, something to skip, or an end of the search. */
  datatype Item = File | Deleted | InvalidHeader | End

  /** A firmware volume: its bytes, and the length and attributes of its header. */
  datatype Volume = Volume(bytes: seq<byte>, fvLength: nat, headerLength: nat, attributes: bv32) {
    /** The volume is readable, and offsets in it fit 32 bits. */
    predicate Readable() {
      && FILE_HEADER <= fvLength <= |bytes|
      && headerLength <= fvLength
      && fvLength + 0x100_0008 <= 0x1_0000_0000
    }

    function Polarity(): bool {
      Has(attributes, ERASE_POLARITY)
    }

    /** There is room for a file header before the end of the volume. */
    predicate InRange(offset: nat) {
      offset + FILE_HEADER < fvLength
    }

    function Size(file: nat): (size: nat)
      requires file + FILE_HEADER <= |bytes|
      ensures size < 0x100_0000
    {
      Le24(bytes, file + FILE_SIZE)
    }

    function Type(file: nat): byte
      requires file + FILE_HEADER <= |bytes|
    {
      bytes[file + FILE_TYPE]
    }

    function ItemAt(offset: nat): Item
      requires Readable() && InRange(offset)
    {
      var state := HighestBit(StateBits(bytes[offset + FILE_STATE], Polarity()));
      if state == FILE_HEADER_INVALID then InvalidHeader
      else if state == FILE_DATA_VALID || state == FILE_MARKED_FOR_UPDATE then
        if HeaderSum(bytes, offset) == 0 then File else End
      else if state == FILE_DELETED then Deleted
      else End
    }

    /** Where the item after the one at `offset` begins. */
    function Next(offset: nat): (next: nat)
      requires Readable() && InRange(offset)
      ensures next % 8 == offset % 8
    {
      AddMultiple(offset, Occupied(Size(offset), 8));
      if ItemAt(offset) == InvalidHeader then offset + FILE_HEADER else offset + Occupied(Size(offset), 8)
    }

    /** A search for `p` from `offset` on meets no file or deleted file of size zero before its first match, so every
        step gets ahead. */
    ghost predicate GetsAhead(offset: nat, p: nat -> bool)
      requires Readable()
      decreases fvLength - offset
    {
      InRange(offset) && ItemAt(offset) != End && !(ItemAt(offset) == File && p(offset)) ==>
        Next(offset) > offset && GetsAhead(Next(offset), p)
    }

    /** No file or deleted file from `offset` on has the size zero. */
    ghost predicate WellFormedFrom(offset: nat)
      requires Readable()
    {
      GetsAhead(offset, Nothing())
    }

    /** The offsets of all the files from `offset` on, up to free space, a bad header checksum, the end of the volume,
        or an item of size zero, which no walk gets past. */
    ghost function Files(offset: nat): (files: seq<nat>)
      requires Readable()
      ensures forall k :: 0 <= k < |files| ==> offset <= files[k] && InRange(files[k]) && ItemAt(files[k]) == File
      decreases fvLength - offset
    {
      if !InRange(offset) || ItemAt(offset) == End then []
      else (if ItemAt(offset) == File then [offset] else [])
           + (if Next(offset) > offset then Files(Next(offset)) else [])
    }

    predicate Matches(searchType: byte, file: nat)
      requires file + FILE_HEADER <= |bytes|
    {
      searchType == Type(file) || searchType == FILETYPE_ALL
    }

    /** Where a search begins: behind the file header of the volume, or behind the given file. */
    function SearchStart(file: Option<nat>): nat
      requires Readable() && (file.Some? ==> file.value + FILE_HEADER <= |bytes|)
    {
      match file
      case None => headerLength
      case Some(f) => f + Occupied(Size(f), 8)
    }

    ghost predicate StartsInside(file: Option<nat>) {
      Readable() && (file.Some? ==> file.value + FILE_HEADER <= |bytes| && file.value < fvLength)
    }

    /** A search for `p` comes to an end. */
    ghost predicate CanSearch(file: Option<nat>, p: nat -> bool) {
      StartsInside(file) && GetsAhead(SearchStart(file), p)
    }

    /** Repeated searches come to an end. */
    ghost predicate CanEnumerate(file: Option<nat>) {
      StartsInside(file) && WellFormedFrom(SearchStart(file))
    }

    // ---------------------------------------------------------------- Sections

    /** A file whose occupied bytes lie in the volume. */
    predicate HoldsFile(file: nat) {
      && file + FILE_HEADER <= |bytes| && Size(file) >= FILE_HEADER
      && file + Occupied(Size(file), 8) <= |bytes|
    }

    function SectionAt(file: nat, parsed: nat): nat {
      file + FILE_HEADER + parsed
    }

    /** There is a section header at this place in the file. */
    predicate HasSection(file: nat, parsed: nat): (r: bool)
      requires HoldsFile(file)
      ensures r ==> SectionAt(file, parsed) + SECTION_HEADER <= |bytes|
    {
      if parsed % 4 == 0 && parsed < Size(file) - FILE_HEADER then
        NextMultiple(FILE_HEADER + parsed, Occupied(Size(file), 8));
        true
      else false
    }

    function SectionLength(file: nat, parsed: nat): (length: nat)
      requires HoldsFile(file) && HasSection(file, parsed)
      ensures length % 4 == 0
    {
      Occupied(Le24(bytes, SectionAt(file, parsed)), 4)
    }

    function SectionType(file: nat, parsed: nat): byte
      requires HoldsFile(file) && HasSection(file, parsed)
    {
      bytes[SectionAt(file, parsed) + 3]
    }

    /** A search for `p` from `parsed` on meets no section of size zero before its first match. */
    ghost predicate SectionsGetAhead(file: nat, parsed: nat, p: nat -> bool)
      requires HoldsFile(file)
      decreases Size(file) - FILE_HEADER - parsed
    {
      HasSection(file, parsed) && !p(parsed) ==>
        SectionLength(file, parsed) > 0 && SectionsGetAhead(file, parsed + SectionLength(file, parsed), p)
    }

    /** All the sections of a file from `parsed` on, up to one of size zero. */
    ghost function Sections(file: nat, parsed: nat): (sections: seq<nat>)
      requires HoldsFile(file)
      ensures forall k :: 0 <= k < |sections| ==> parsed <= sections[k] && HasSection(file, sections[k])
      decreases Size(file) - FILE_HEADER - parsed
    {
      if !HasSection(file, parsed) then []
      else
        var length := SectionLength(file, parsed);
        [parsed] + (if length > 0 then Sections(file, parsed + length) else [])
    }
  }

  function Nothing(): nat -> bool {
    (f: nat) => false
  }

  /** The first element that satisfies `p`. */
  function First(s: seq<nat>, p: nat -> bool): (r: Option<nat>)
    ensures r.Some? ==> r.value in s && p(r.value)
    ensures r.None? <==> forall k :: 0 <= k < |s| ==> !p(s[k])
  {
    if s == [] then None else if p(s[0]) then Some(s[0]) else First(s[1..], p)
  }

  /** The elements that satisfy `p`, in order. */
  function Filter(s: seq<nat>, p: nat -> bool): seq<nat> {
    if s == [] then [] else (if p(s[0]) then [s[0]] else []) + Filter(s[1..], p)
  }

  /** What a search of type `searchType` looks for. */
  function Wanted(v: Volume, searchType: byte): nat -> bool {
    (f: nat) => f + FILE_HEADER <= |v.bytes| && v.Matches(searchType, f)
  }

  function WantedSection(v: Volume, file: nat, sectionType: byte): nat -> bool
    requires v.HoldsFile(file)
  {
    (parsed: nat) => v.HasSection(file, parsed) && v.SectionType(file, parsed) == sectionType
  }

  // ---------------------------------------------------------------- One step of a search

  lemma {:induction false} SearchEnds(v: Volume, offset: nat, p: nat -> bool)
    requires v.Readable()
    requires !v.InRange(offset) || v.ItemAt(offset) == End
    ensures First(v.Files(offset), p) == None
  {
  }

  lemma {:induction false} SearchFinds(v: Volume, offset: nat, p: nat -> bool)
    requires v.Readable()
    requires v.InRange(offset) && v.ItemAt(offset) == File && p(offset)
    ensures First(v.Files(offset), p) == Some(offset)
  {
  }

  lemma {:induction false} SearchSkips(v: Volume, offset: nat, p: nat -> bool)
    requires v.Readable() && v.GetsAhead(offset, p)
    requires v.InRange(offset) && v.ItemAt(offset) != End && (v.ItemAt(offset) == File ==> !p(offset))
    ensures v.Next(offset) > offset && v.GetsAhead(v.Next(offset), p)
    ensures First(v.Files(offset), p) == First(v.Files(v.Next(offset)), p)
  {
    hide Volume.ItemAt, Volume.Next;
    if v.ItemAt(offset) == File {
      assert v.Files(offset) == [offset] + v.Files(v.Next(offset));
      assert v.Files(offset)[1..] == v.Files(v.Next(offset));
    } else {
      assert v.Files(offset) == v.Files(v.Next(offset));
    }
  }

  lemma {:induction false} SectionFound(v: Volume, file: nat, parsed: nat, p: nat -> bool)
    requires v.HoldsFile(file)
    requires v.HasSection(file, parsed) ==> p(parsed)
    ensures First(v.Sections(file, parsed), p) == if v.HasSection(file, parsed) then Some(parsed) else None
  {
  }

  lemma {:induction false} SectionSkipped(v: Volume, file: nat, parsed: nat, p: nat -> bool)
    requires v.HoldsFile(file) && v.SectionsGetAhead(file, parsed, p)
    requires v.HasSection(file, parsed) && !p(parsed)
    ensures var next := parsed + v.SectionLength(file, parsed);
            && next > parsed && (parsed % 4 == 0 ==> next % 4 == 0) && v.SectionsGetAhead(file, next, p)
            && First(v.Sections(file, parsed), p) == First(v.Sections(file, next), p)
  {
    hide Volume.SectionLength, Volume.HasSection, Volume.HoldsFile;
    var next := parsed + v.SectionLength(file, parsed);
    assert v.Sections(file, parsed) == [parsed] + v.Sections(file, next);
    assert v.Sections(file, parsed)[1..] == v.Sections(file, next);
  }

  // ---------------------------------------------------------------- The end of a search

  /** A search for `p` from `offset` on is over within `steps` steps. */
  ghost predicate Stops(v: Volume, offset: nat, p: nat -> bool, steps: nat)
    requires v.Readable()
    decreases steps
  {
    || !v.InRange(offset) || v.ItemAt(offset) == End || (v.ItemAt(offset) == File && p(offset))
    || (steps > 0 && Stops(v, v.Next(offset), p, steps - 1))
  }

  ghost predicate Ends(v: Volume, offset: nat, p: nat -> bool)
    requires v.Readable()
  {
    exists steps: nat :: Stops(v, offset, p, steps)
  }

  /** A search comes to an end exactly when it meets no file and no deleted file of size zero before its first match. */
  lemma {:induction false} SearchEndsIff(v: Volume, offset: nat, p: nat -> bool)
    requires v.Readable()
    ensures v.GetsAhead(offset, p) <==> Ends(v, offset, p)
  {
    if v.GetsAhead(offset, p) {
      var steps := StepsToEnd(v, offset, p);
      assert Ends(v, offset, p);
    } else if Ends(v, offset, p) {
      var steps: nat :| Stops(v, offset, p, steps);
      EndMeansAhead(v, offset, p, steps);
      assert false;
    }
  }

  lemma {:induction false} StepsToEnd(v: Volume, offset: nat, p: nat -> bool) returns (steps: nat)
    requires v.Readable() && v.GetsAhead(offset, p)
    ensures Stops(v, offset, p, steps)
    decreases v.fvLength - offset
  {
    steps := 0;
    if !Stops(v, offset, p, 0) {
      steps := StepsToEnd(v, v.Next(offset), p);
      steps := steps + 1;
    }
  }

  lemma {:induction false} EndMeansAhead(v: Volume, offset: nat, p: nat -> bool, steps: nat)
    requires v.Readable() && Stops(v, offset, p, steps)
    ensures v.GetsAhead(offset, p)
    decreases steps
  {
    if !Stops(v, offset, p, 0) {
      EndMeansAhead(v, v.Next(offset), p, steps - 1);
      if v.Next(offset) == offset {
        NoEndInPlace(v, offset, p, steps);
      }
    }
  }

  /** A step that does not get ahead is taken for ever. */
  lemma {:induction false} NoEndInPlace(v: Volume, offset: nat, p: nat -> bool, steps: nat)
    requires v.Readable() && !Stops(v, offset, p, 0) && v.Next(offset) == offset
    ensures !Stops(v, offset, p, steps)
  {
    if steps > 0 {
      NoEndInPlace(v, offset, p, steps - 1);
    }
  }

  ghost predicate SectionStops(v: Volume, file: nat, parsed: nat, p: nat -> bool, steps: nat)
    requires v.HoldsFile(file)
    decreases steps
  {
    || !v.HasSection(file, parsed) || p(parsed)
    || (steps > 0 && SectionStops(v, file, parsed + v.SectionLength(file, parsed), p, steps - 1))
  }

  ghost predicate SectionsEnd(v: Volume, file: nat, parsed: nat, p: nat -> bool)
    requires v.HoldsFile(file)
  {
    exists steps: nat :: SectionStops(v, file, parsed, p, steps)
  }

  /** A search for a section comes to an end exactly when it meets no section of size zero before its first match. */
  lemma {:induction false} SectionSearchEndsIff(v: Volume, file: nat, parsed: nat, p: nat -> bool)
    requires v.HoldsFile(file)
    ensures v.SectionsGetAhead(file, parsed, p) <==> SectionsEnd(v, file, parsed, p)
  {
    if v.SectionsGetAhead(file, parsed, p) {
      var steps := SectionStepsToEnd(v, file, parsed, p);
      assert SectionsEnd(v, file, parsed, p);
    } else if SectionsEnd(v, file, parsed, p) {
      var steps: nat :| SectionStops(v, file, parsed, p, steps);
      SectionEndMeansAhead(v, file, parsed, p, steps);
      assert false;
    }
  }

  lemma {:induction false} SectionStepsToEnd(v: Volume, file: nat, parsed: nat, p: nat -> bool) returns (steps: nat)
    requires v.HoldsFile(file) && v.SectionsGetAhead(file, parsed, p)
    ensures SectionStops(v, file, parsed, p, steps)
    decreases v.Size(file) - FILE_HEADER - parsed
  {
    steps := 0;
    if !SectionStops(v, file, parsed, p, 0) {
      steps := SectionStepsToEnd(v, file, parsed + v.SectionLength(file, parsed), p);
      steps := steps + 1;
    }
  }

  lemma {:induction false} SectionEndMeansAhead(v: Volume, file: nat, parsed: nat, p: nat -> bool, steps: nat)
    requires v.HoldsFile(file) && SectionStops(v, file, parsed, p, steps)
    ensures v.SectionsGetAhead(file, parsed, p)
    decreases steps
  {
    hide Volume.HoldsFile, Volume.SectionLength, Volume.HasSection;
    if !SectionStops(v, file, parsed, p, 0) {
      SectionEndMeansAhead(v, file, parsed + v.SectionLength(file, parsed), p, steps - 1);
      if v.SectionLength(file, parsed) == 0 {
        NoSectionEndInPlace(v, file, parsed, p, steps);
      }
    }
  }

  lemma {:induction false} NoSectionEndInPlace(v: Volume, file: nat, parsed: nat, p: nat -> bool, steps: nat)
    requires v.HoldsFile(file) && v.HasSection(file, parsed) && !p(parsed) && v.SectionLength(file, parsed) == 0
    ensures !SectionStops(v, file, parsed, p, steps)
  {
    if steps > 0 {
      NoSectionEndInPlace(v, file, parsed, p, steps - 1);
    }
  }

  // ---------------------------------------------------------------- Enumeration

  lemma {:induction false} FileNext(v: Volume, offset: nat)
    requires v.Readable() && v.InRange(offset) && v.ItemAt(offset) == File
    ensures v.Next(offset) == offset + Occupied(v.Size(offset), 8) == v.SearchStart(Some(offset))
  {
  }

  lemma {:induction false} WellFormedGetsAhead(v: Volume, offset: nat, p: nat -> bool)
    requires v.Readable() && v.WellFormedFrom(offset)
    ensures v.GetsAhead(offset, p)
    decreases v.fvLength - offset
  {
    if v.InRange(offset) && v.ItemAt(offset) != End {
      WellFormedGetsAhead(v, v.Next(offset), p);
    }
  }

  /** A file leads on to the rest of the files behind it. */
  lemma {:induction false} FilesAfter(v: Volume, offset: nat, k: nat)
    requires v.Readable() && v.WellFormedFrom(offset)
    requires k < |v.Files(offset)|
    ensures var f := v.Files(offset)[k];
            && v.CanEnumerate(Some(f)) && v.SearchStart(Some(f)) > f
            && v.Files(v.SearchStart(Some(f))) == v.Files(offset)[k + 1..]
    decreases v.fvLength - offset
  {
    hide Volume.Next, Volume.ItemAt, Volume.SearchStart, Occupied;
    var isFile := v.ItemAt(offset) == File;
    if isFile && k == 0 {
      FileNext(v, offset);
      assert v.Files(offset)[1..] == v.Files(v.Next(offset));
    } else {
      FilesAfter(v, v.Next(offset), if isFile then k - 1 else k);
    }
  }

  /** The files that repeated calls of the search find, each starting from the one found before. */
  ghost function Enumerate(v: Volume, searchType: byte, file: Option<nat>): seq<nat>
    requires v.CanEnumerate(file)
    decreases v.fvLength - v.SearchStart(file)
  {
    var found := First(v.Files(v.SearchStart(file)), Wanted(v, searchType));
    if found.None? then []
    else
      var k :| 0 <= k < |v.Files(v.SearchStart(file))| && v.Files(v.SearchStart(file))[k] == found.value;
      FilesAfter(v, v.SearchStart(file), k);
      [found.value] + Enumerate(v, searchType, found)
  }

  /** Calling the search again and again from the start of the volume finds exactly the files of the wanted type,
      in order. With FILETYPE_ALL these are all the files. */
  lemma {:induction false} EnumerationIsFilter(v: Volume, searchType: byte, file: Option<nat>)
    requires v.CanEnumerate(file)
    ensures v.CanSearch(file, Wanted(v, searchType))
    ensures Enumerate(v, searchType, file) == Filter(v.Files(v.SearchStart(file)), Wanted(v, searchType))
    ensures searchType == FILETYPE_ALL ==> Enumerate(v, searchType, file) == v.Files(v.SearchStart(file))
    decreases v.fvLength - v.SearchStart(file)
  {
    var files, p := v.Files(v.SearchStart(file)), Wanted(v, searchType);
    WellFormedGetsAhead(v, v.SearchStart(file), p);
    FilterFirst(files, p);
    var found := First(files, p);
    AllTypes(v, files);
    if found.Some? {
      var k :| && 0 <= k < |files| && files[k] == found.value
               && Filter(files, p) == [files[k]] + Filter(files[k + 1..], p);
      FilesAfter(v, v.SearchStart(file), k);
      EnumerationIsFilter(v, searchType, found);
    }
  }

  /** The searches that follow one another from `file` end within `calls` more ones, each of them included. */
  ghost predicate Completes(v: Volume, searchType: byte, file: Option<nat>, calls: nat)
    decreases calls
  {
    && v.CanSearch(file, Wanted(v, searchType))
    && var found := First(v.Files(v.SearchStart(file)), Wanted(v, searchType));
       found.None? || (calls > 0 && Completes(v, searchType, found, calls - 1))
  }

  /** What is well formed behind the first match of a search that ends is well formed from its start. */
  lemma {:induction false} WellFormedBefore(v: Volume, offset: nat, p: nat -> bool)
    requires v.Readable() && v.GetsAhead(offset, p)
    requires var found := First(v.Files(offset), p);
             found.Some? ==> v.WellFormedFrom(v.SearchStart(found))
    ensures v.WellFormedFrom(offset)
    decreases v.fvLength - offset
  {
    hide Volume.Next, Volume.ItemAt, Volume.SearchStart, Occupied;
    if v.InRange(offset) && v.ItemAt(offset) != End {
      if v.ItemAt(offset) == File && p(offset) {
        SearchFinds(v, offset, p);
        FileNext(v, offset);
        NotInPlace(v, offset);
      } else {
        SearchSkips(v, offset, p);
        WellFormedBefore(v, v.Next(offset), p);
      }
    }
  }

  /** An item leads to a well-formed place only by getting ahead. */
  lemma {:induction false} NotInPlace(v: Volume, offset: nat)
    requires v.Readable() && v.InRange(offset) && v.ItemAt(offset) != End && v.WellFormedFrom(v.Next(offset))
    ensures v.Next(offset) > offset
  {
  }

  lemma {:induction false} CompletedMeansWellFormed(v: Volume, searchType: byte, file: Option<nat>, calls: nat)
    requires Completes(v, searchType, file, calls)
    ensures v.CanEnumerate(file)
    decreases calls
  {
    var p := Wanted(v, searchType);
    var found := First(v.Files(v.SearchStart(file)), p);
    if found.Some? {
      CompletedMeansWellFormed(v, searchType, found, calls - 1);
    }
    WellFormedBefore(v, v.SearchStart(file), p);
  }

  lemma {:induction false} CallsToEnd(v: Volume, searchType: byte, file: Option<nat>) returns (calls: nat)
    requires v.CanEnumerate(file)
    ensures Completes(v, searchType, file, calls)
    decreases v.fvLength - v.SearchStart(file)
  {
    var files, p := v.Files(v.SearchStart(file)), Wanted(v, searchType);
    WellFormedGetsAhead(v, v.SearchStart(file), p);
    var found := First(files, p);
    calls := 0;
    if found.Some? {
      var k :| 0 <= k < |files| && files[k] == found.value;
      FilesAfter(v, v.SearchStart(file), k);
      calls := CallsToEnd(v, searchType, found);
      calls := calls + 1;
    }
  }

  ghost predicate EnumerationEnds(v: Volume, searchType: byte, file: Option<nat>) {
    exists calls: nat :: Completes(v, searchType, file, calls)
  }

  /** Repeated searches end, for any type, exactly when they meet no file and no deleted file of size zero. */
  lemma {:induction false} EnumerationEndsIff(v: Volume, searchType: byte, file: Option<nat>)
    requires v.StartsInside(file)
    ensures v.CanEnumerate(file) <==> EnumerationEnds(v, searchType, file)
  {
    if v.CanEnumerate(file) {
      var calls := CallsToEnd(v, searchType, file);
      assert EnumerationEnds(v, searchType, file);
    } else if EnumerationEnds(v, searchType, file) {
      var calls: nat :| Completes(v, searchType, file, calls);
      CompletedMeansWellFormed(v, searchType, file, calls);
      assert false;
    }
  }

  /** A filtered list is its first match and the filtered rest. */
  lemma {:induction false} FilterFirst(s: seq<nat>, p: nat -> bool)
    ensures First(s, p).None? ==> Filter(s, p) == []
    ensures First(s, p).Some? ==>
              exists k :: 0 <= k < |s| && s[k] == First(s, p).value && Filter(s, p) == [s[k]] + Filter(s[k + 1..], p)
  {
    if s != [] {
      if p(s[0]) {
        assert s[0] == First(s, p).value && Filter(s, p) == [s[0]] + Filter(s[0 + 1..], p);
      } else {
        FilterFirst(s[1..], p);
        if First(s, p).Some? {
          var k :| 0 <= k < |s[1..]| && s[1..][k] == First(s, p).value
                && Filter(s[1..], p) == [s[1..][k]] + Filter(s[1..][k + 1..], p);
          assert s[1..][k + 1..] == s[k + 1 + 1..];
          assert s[k + 1] == First(s, p).value;
        }
      }
    }
  }

  /** A search for every type filters nothing out. */
  lemma {:induction false} AllTypes(v: Volume, files: seq<nat>)
    requires forall k :: 0 <= k < |files| ==> files[k] + FILE_HEADER <= |v.bytes|
    ensures Filter(files, Wanted(v, FILETYPE_ALL)) == files
  {
    if files != [] {
      AllTypes(v, files[1..]);
    }
  }

  /** The walk from `offset` comes to `target`. */
  ghost predicate Visits(v: Volume, offset: nat, target: nat): (r: bool)
    requires v.Readable()
    ensures r ==> v.InRange(target)
    decreases v.fvLength - offset
  {
    && v.InRange(offset)
    && (|| offset == target
        || (v.ItemAt(offset) != End && v.Next(offset) > offset && Visits(v, v.Next(offset), target)))
  }

  /** Exactly the places that the walk comes to and that hold a file are files. */
  lemma {:induction false} FilesAreVisited(v: Volume, offset: nat, target: nat)
    requires v.Readable()
    ensures target in v.Files(offset) <==> Visits(v, offset, target) && v.ItemAt(target) == File
    decreases v.fvLength - offset
  {
    if v.InRange(offset) && v.ItemAt(offset) != End && v.Next(offset) > offset {
      FilesAreVisited(v, v.Next(offset), target);
    }
  }

  /** Files keep the alignment of the first one, and they do not overlap. */
  lemma {:induction false} FilesAligned(v: Volume, offset: nat, k: nat)
    requires v.Readable()
    requires k < |v.Files(offset)|
    ensures v.Files(offset)[k] % 8 == offset % 8
    ensures k > 0 ==> v.Files(offset)[k - 1] + Occupied(v.Size(v.Files(offset)[k - 1]), 8) <= v.Files(offset)[k]
    decreases v.fvLength - offset
  {
    hide Volume.Next, Volume.ItemAt;
    var isFile := v.ItemAt(offset) == File;
    if isFile {
      FileNext(v, offset);
    }
    if !(isFile && k == 0) {
      FilesAligned(v, v.Next(offset), if isFile then k - 1 else k);
    }
  }
}
