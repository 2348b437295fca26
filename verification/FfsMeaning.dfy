/** What the file walk finds, in the bytes of the volume. */
module FfsMeaning {
  import opened Wrappers
  import opened Bytes
  import opened FvbAttributes
  import opened FfsVolume
  import Fvb

  lemma {:induction false} ComplementBits(x: bv8)
    ensures !x == 0xFF - x
  {
  }

  lemma {:induction false} StateValue(state: byte, polarity: bool)
    ensures StateBits(state, polarity) == if polarity then 0xFF - state as bv8 else state as bv8
  {
    ComplementBits(state as bv8);
  }

  lemma {:induction false} HighestValue(bits: bv8)
    ensures HighestBit(bits) == 0x20 <==> 32 <= bits < 64
    ensures HighestBit(bits) == 0x10 <==> 16 <= bits < 32
    ensures HighestBit(bits) == 0x08 <==> 8 <= bits < 16
    ensures HighestBit(bits) == 0x04 <==> 4 <= bits < 8
  {
  }

  /** The state of the file header at an offset as a number, in a volume whose erased bits are zero. */
  function StateAt(v: Volume, offset: nat): bv8
    requires offset + FILE_HEADER <= |v.bytes|
  {
    if v.attributes & 0x800 != 0 then 0xFF - v.bytes[offset + 23] as bv8 else v.bytes[offset + 23] as bv8
  }

  /** What stands at an offset: the highest bit of its state decides, and for a file the checksum. Deleted files and
      files are skipped by their rounded size, and an invalid header by the 24 bytes that it has. */
  lemma {:induction false} ItemMeaning(v: Volume, offset: nat)
    requires v.Readable() && v.InRange(offset)
    ensures v.ItemAt(offset) == File <==> 4 <= StateAt(v, offset) < 16 && HeaderSum(v.bytes, offset) == 0
    ensures v.ItemAt(offset) == Deleted <==> 16 <= StateAt(v, offset) < 32
    ensures v.ItemAt(offset) == InvalidHeader <==> 32 <= StateAt(v, offset) < 64
    ensures v.Next(offset) == if 32 <= StateAt(v, offset) < 64 then offset + 24 else offset + RoundedSize(v, offset)
  {
    var bits := StateBits(v.bytes[offset + 23], v.Polarity());
    StateValue(v.bytes[offset + 23], v.Polarity());
    HighestValue(bits);
    RoundedUp(v, offset);
    hide HighestBit, StateBits, HeaderSum, Occupied, RoundedSize, Le24;
  }

  /** The size in a file header, rounded up to a multiple of eight. */
  function RoundedSize(v: Volume, file: nat): nat
    requires file + FILE_HEADER <= |v.bytes|
  {
    var low, middle, high := v.bytes[file + 20] as nat, v.bytes[file + 21] as nat, v.bytes[file + 22] as nat;
    (low + 0x100 * middle + 0x1_0000 * high + 7) / 8 * 8
  }

  lemma {:induction false} RoundedUp(v: Volume, file: nat)
    requires file + FILE_HEADER <= |v.bytes|
    ensures Occupied(v.Size(file), 8) == RoundedSize(v, file)
  {
  }

  /** A search goes on behind the given file, and wants a type or, for type zero, any file. */
  lemma {:induction false} SearchMeaning(v: Volume, file: nat, searchType: byte)
    requires v.Readable() && file + FILE_HEADER <= |v.bytes|
    ensures v.SearchStart(None) == v.headerLength
    ensures v.SearchStart(Some(file)) == file + RoundedSize(v, file)
    ensures Wanted(v, searchType)(file) <==> searchType == v.bytes[file + 18] || searchType == 0
  {
    RoundedUp(v, file);
    hide RoundedSize, Occupied;
  }

  // ---------------------------------------------------------------- The checksum

  lemma {:induction false} SumUpdate(s: seq<byte>, i: nat, b: byte)
    requires i < |s|
    ensures ByteSum(s[i := b]) == ByteSum(s) - s[i] as nat + b as nat
  {
    assert s == s[..i] + [s[i]] + s[i + 1..];
    assert s[i := b] == s[..i] + [b] + s[i + 1..];
    ByteSumAppend(s[..i] + [s[i]], s[i + 1..]);
    ByteSumAppend(s[..i] + [b], s[i + 1..]);
    ByteSumAppend(s[..i], [s[i]]);
    ByteSumAppend(s[..i], [b]);
    assert ByteSum([s[i]]) == s[i] as nat && ByteSum([b]) == b as nat by {
      assert [s[i]][..0] == [] && [b][..0] == [];
    }
  }

  /** The header checksum does not depend on the file checksum (byte 17) and the state (byte 23). */
  lemma {:induction false} ChecksumIgnores(volume: seq<byte>, file: nat, i: nat, b: byte)
    requires file + FILE_HEADER <= |volume| && i < |volume|
    requires i < file || file + 24 <= i || i == file + 17 || i == file + 23
    ensures HeaderSum(volume[i := b], file) == HeaderSum(volume, file)
  {
    var after := volume[i := b];
    assert after[file..file + 17] == volume[file..file + 17];
    assert after[file + 18..file + 23] == volume[file + 18..file + 23];
  }

  lemma {:induction false} ChangeOfSum(sum: int, x: int, y: int)
    ensures (sum - x + y) % 0x100 == (sum % 0x100 - x + y) % 0x100
  {
  }

  lemma {:induction false} SumOfSlices(volume: seq<byte>, file: nat, j: nat, b: byte)
    requires file + FILE_HEADER <= |volume| && j < 24 && j != 17 && j != 23
    ensures var after := volume[file + j := b];
            ByteSum(after[file..file + 17]) + ByteSum(after[file + 18..file + 23])
            == ByteSum(volume[file..file + 17]) + ByteSum(volume[file + 18..file + 23])
               - volume[file + j] as int + b as int
  {
    var after := volume[file + j := b];
    var low, high := volume[file..file + 17], volume[file + 18..file + 23];
    hide ByteSum;
    if j < 17 {
      assert after[file..file + 17] == low[j := b];
      assert after[file + 18..file + 23] == high;
      SumUpdate(low, j, b);
    } else {
      assert after[file..file + 17] == low;
      assert after[file + 18..file + 23] == high[j - 18 := b];
      SumUpdate(high, j - 18, b);
    }
  }

  /** Every other byte of the header counts. */
  lemma {:induction false} ChecksumCounts(volume: seq<byte>, file: nat, j: nat, b: byte)
    requires file + FILE_HEADER <= |volume| && j < 24 && j != 17 && j != 23
    ensures HeaderSum(volume[file + j := b], file)
         == (HeaderSum(volume, file) - volume[file + j] as int + b as int) % 0x100
  {
    SumOfSlices(volume, file, j, b);
    ChangeOfSum(ByteSum(volume[file..file + 17]) + ByteSum(volume[file + 18..file + 23]),
                volume[file + j] as int, b as int);
    hide ByteSum;
  }

  lemma {:induction false} SameChecksum(a: seq<byte>, b: seq<byte>, file: nat)
    requires file + FILE_HEADER <= |a| && file + FILE_HEADER <= |b|
    requires a[file..file + 23] == b[file..file + 23]
    ensures HeaderSum(a, file) == HeaderSum(b, file)
  {
    assert a[file..file + 17] == a[file..file + 23][..17] == b[file..file + 23][..17] == b[file..file + 17];
    assert a[file + 18..file + 23] == a[file..file + 23][18..] == b[file..file + 23][18..] == b[file + 18..file + 23];
  }

  // ---------------------------------------------------------------- The erase polarity

  /** The header at an offset with its state byte complemented. */
  predicate FlippedAt(v: Volume, w: Volume, offset: nat)
    requires offset + FILE_HEADER <= |v.bytes| && offset + FILE_HEADER <= |w.bytes|
  {
    && w.bytes[offset..offset + 23] == v.bytes[offset..offset + 23]
    && w.bytes[offset + 23] as bv8 == 0xFF - v.bytes[offset + 23] as bv8
  }

  /** The other erase polarity, with the state byte complemented wherever the walk from `start` comes. */
  ghost predicate Flipped(v: Volume, w: Volume, start: nat) {
    && v.Readable() && w.Readable()
    && w.fvLength == v.fvLength && w.headerLength == v.headerLength
    && (w.attributes & 0x800 != 0 <==> v.attributes & 0x800 == 0)
    && (forall offset: nat :: Visits(v, start, offset) ==> FlippedAt(v, w, offset))
  }

  lemma {:induction false} SameByte(a: seq<byte>, b: seq<byte>, file: nat, j: nat)
    requires file + FILE_HEADER <= |a| && file + FILE_HEADER <= |b|
    requires a[file..file + 23] == b[file..file + 23] && j < 23
    ensures a[file + j] == b[file + j]
  {
    assert a[file..file + 23][j] == b[file..file + 23][j];
  }

  lemma {:induction false} SameSize(v: Volume, w: Volume, offset: nat)
    requires offset + FILE_HEADER <= |v.bytes| && offset + FILE_HEADER <= |w.bytes|
    requires w.bytes[offset..offset + 23] == v.bytes[offset..offset + 23]
    ensures RoundedSize(w, offset) == RoundedSize(v, offset)
  {
    SameByte(v.bytes, w.bytes, offset, 20);
    SameByte(v.bytes, w.bytes, offset, 21);
    SameByte(v.bytes, w.bytes, offset, 22);
  }

  lemma {:induction false} FlippedItem(v: Volume, w: Volume, offset: nat)
    requires v.Readable() && w.Readable() && w.fvLength == v.fvLength
    requires w.attributes & 0x800 != 0 <==> v.attributes & 0x800 == 0
    requires v.InRange(offset) && FlippedAt(v, w, offset)
    ensures w.ItemAt(offset) == v.ItemAt(offset) && w.Next(offset) == v.Next(offset)
    ensures w.Type(offset) == v.Type(offset)
  {
    SameSize(v, w, offset);
    hide Volume.ItemAt, Volume.Next, HeaderSum, RoundedSize, Le24;
    ItemMeaning(v, offset);
    ItemMeaning(w, offset);
    SameChecksum(v.bytes, w.bytes, offset);
    SameByte(v.bytes, w.bytes, offset, 18);
  }

  lemma {:induction false} FlippedNext(v: Volume, w: Volume, start: nat)
    requires Flipped(v, w, start) && v.InRange(start) && v.ItemAt(start) != End && v.Next(start) > start
    ensures Flipped(v, w, v.Next(start))
  {
    forall offset: nat | Visits(v, v.Next(start), offset)
      ensures FlippedAt(v, w, offset)
    {
      assert Visits(v, start, offset);
    }
  }

  lemma {:induction false} FlippedFiles(v: Volume, w: Volume, start: nat)
    requires Flipped(v, w, start)
    ensures v.Readable() && w.Readable() && w.Files(start) == v.Files(start)
    decreases v.fvLength - start
  {
    BothReadable(v, w, start);
    hide Volume.ItemAt, Volume.Next, FlippedAt, Flipped, Volume.Readable;
    if v.InRange(start) {
      FlippedItem(v, w, start);
      if v.ItemAt(start) != End && v.Next(start) > start {
        FlippedNext(v, w, start);
        FlippedFiles(v, w, v.Next(start));
      }
    }
  }

  lemma {:induction false} FlippedSearch(v: Volume, w: Volume, start: nat, searchType: byte)
    requires Flipped(v, w, start)
    ensures v.Readable() && w.Readable()
    ensures w.GetsAhead(start, Wanted(w, searchType)) <==> v.GetsAhead(start, Wanted(v, searchType))
    decreases v.fvLength - start
  {
    BothReadable(v, w, start);
    hide Volume.ItemAt, Volume.Next, FlippedAt, Flipped;
    if v.InRange(start) {
      FlippedItem(v, w, start);
      if v.ItemAt(start) != End && v.Next(start) > start {
        FlippedNext(v, w, start);
        FlippedSearch(v, w, v.Next(start), searchType);
      }
    }
  }

  lemma {:induction false} FirstSame(s: seq<nat>, p: nat -> bool, q: nat -> bool)
    requires forall k :: 0 <= k < |s| ==> p(s[k]) == q(s[k])
    ensures First(s, p) == First(s, q)
  {
    if s != [] {
      FirstSame(s[1..], p, q);
    }
  }

  /** Flipping the erase polarity and complementing the states keeps the files, every search and whether it ends. */
  lemma {:induction false} PolarityIsRelative(v: Volume, w: Volume, start: nat, searchType: byte)
    requires Flipped(v, w, start)
    ensures v.Readable() && w.Readable() && w.Files(start) == v.Files(start)
    ensures w.GetsAhead(start, Wanted(w, searchType)) <==> v.GetsAhead(start, Wanted(v, searchType))
    ensures First(w.Files(start), Wanted(w, searchType)) == First(v.Files(start), Wanted(v, searchType))
  {
    FlippedFiles(v, w, start);
    FlippedSearch(v, w, start, searchType);
    var files := v.Files(start);
    forall k | 0 <= k < |files|
      ensures Wanted(w, searchType)(files[k]) == Wanted(v, searchType)(files[k])
    {
      FilesAreVisited(v, start, files[k]);
      FlippedItem(v, w, files[k]);
    }
    FirstSame(files, Wanted(w, searchType), Wanted(v, searchType));
  }

  lemma {:induction false} BothReadable(v: Volume, w: Volume, start: nat)
    requires Flipped(v, w, start)
    ensures v.Readable() && w.Readable() && w.fvLength == v.fvLength
    ensures w.attributes & 0x800 != 0 <==> v.attributes & 0x800 == 0
    ensures v.InRange(start) ==> FlippedAt(v, w, start)
  {
    assert v.InRange(start) ==> Visits(v, start, start);
  }

  /** A header whose bytes have all been erased ends the walk, for both polarities. */
  lemma {:induction false} ErasedEndsWalk(v: Volume, offset: nat, p: nat -> bool)
    requires v.Readable() && offset + FILE_HEADER <= |v.bytes|
    requires forall i :: offset <= i < offset + 24 ==> v.bytes[i] == if v.attributes & 0x800 != 0 then 0xFF else 0x00
    ensures v.Files(offset) == [] && First(v.Files(offset), p) == None && v.GetsAhead(offset, p)
  {
    if v.InRange(offset) {
      assert v.bytes[offset + 23] == if v.attributes & 0x800 != 0 then 0xFF else 0x00;
      ItemMeaning(v, offset);
      hide Volume.ItemAt, Volume.Next;
      assert StateAt(v, offset) == 0;
    }
  }

  /** Bytes that the block service has erased end the walk. */
  lemma {:induction false} ErasedBlockEndsWalk(v: Volume, r: Fvb.Record, offset: nat, p: nat -> bool)
    requires v.Readable() && offset + FILE_HEADER <= |v.bytes| && v.attributes == r.header.attributes
    requires forall i :: offset <= i < offset + 24 ==> v.bytes[i] == r.EraseByte()
    ensures v.Files(offset) == [] && First(v.Files(offset), p) == None
  {
    ErasedEndsWalk(v, offset, p);
  }

  // ---------------------------------------------------------------- Sections

  /** Sections begin behind the 24 bytes of the file header, at multiples of four below the size in it; a section has
      its size in three bytes, its type in the fourth, and then its data. */
  lemma {:induction false} SectionMeaning(v: Volume, file: nat, parsed: nat)
    requires v.HoldsFile(file)
    ensures v.HasSection(file, parsed)
       <==> && parsed % 4 == 0
            && parsed + 24
               < v.bytes[file + 20] as int + 0x100 * v.bytes[file + 21] as int + 0x1_0000 * v.bytes[file + 22] as int
    ensures v.HasSection(file, parsed)
            ==> var at := file + 24 + parsed;
                && at + 4 <= |v.bytes| && at == v.SectionAt(file, parsed)
                && v.SectionType(file, parsed) == v.bytes[at + 3]
                && v.SectionLength(file, parsed)
                == (v.bytes[at] as int + 0x100 * v.bytes[at + 1] as int + 0x1_0000 * v.bytes[at + 2] as int + 3) / 4 * 4
  {
  }

  /** The first section is at the start, and each one begins where the one before ends. */
  lemma {:induction false} SectionsChain(v: Volume, file: nat, parsed: nat, k: nat)
    requires v.HoldsFile(file) && k < |v.Sections(file, parsed)|
    ensures v.HasSection(file, v.Sections(file, parsed)[k])
    ensures v.Sections(file, parsed)[k]
         == if k == 0 then parsed
            else v.Sections(file, parsed)[k - 1] + v.SectionLength(file, v.Sections(file, parsed)[k - 1])
    decreases k
  {
    hide Volume.SectionLength, Volume.HasSection, Volume.HoldsFile;
    if k > 0 {
      SectionsChain(v, file, parsed + v.SectionLength(file, parsed), k - 1);
    }
  }
}
