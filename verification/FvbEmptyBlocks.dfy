/** A volume header that initialisation accepts and whose block map has blocks of size zero. */
module FvbEmptyBlocks {
  import opened Wrappers
  import opened Bytes
  import opened EfiStatus
  import opened FvHeader
  import opened BlockMap
  import opened FvbAttributes
  import opened Fvb
  import opened FvbInit

  const VOLUME_SIZE: nat := 96
  const HEADER_SIZE: nat := 80

  /** One block of 64 bytes, one block of no bytes, and the terminator. */
  function VolumeByte(i: nat): byte {
    if i == 32 then 0x60
    else if i == 40 then 0x5F else if i == 41 then 0x46 else if i == 42 then 0x56 else if i == 43 then 0x48
    else if i == 44 then 0x36 else if i == 45 then 0x0C else if i == 46 then 0x04
    else if i == 48 then 0x50
    else if i == 50 then 0x1F else if i == 51 then 0x62
    else if i == 55 then 0x02
    else if i == 56 then 0x01 else if i == 60 then 0x40
    else if i == 64 then 0x01
    else 0
  }

  const VOLUME: seq<byte> := seq(VOLUME_SIZE, i requires 0 <= i => VolumeByte(i))

  const BLOCK_MAP: seq<BlockMapEntry> := [BlockMapEntry(1, 64), BlockMapEntry(1, 0), BlockMapEntry(0, 0)]

  lemma {:induction false} WordSumNext(view: seq<byte>, n: nat)
    requires n + 2 <= |view|
    ensures WordSum(view, n + 2) == (WordSum(view, n) + Le16(view, n)) % 0x1_0000
  {
  }

  lemma {:induction false} WordSumZeros(view: seq<byte>, n: nat, m: nat)
    requires n <= m <= |view| && (m - n) % 2 == 0
    requires forall i :: n <= i < m ==> view[i] == 0
    requires WordSum(view, n) < 0x1_0000
    ensures WordSum(view, m) == WordSum(view, n)
    decreases m - n
  {
    if n < m {
      WordSumZeros(view, n, m - 2);
      WordSumNext(view, m - 2);
    }
  }

  lemma {:induction false} WordSumZero(view: seq<byte>)
    ensures WordSum(view, 0) == 0
  {
  }

  lemma {:induction false} AddWord(n: nat, before: nat, word: nat)
    requires n + 2 <= HEADER_SIZE && WordSum(VOLUME, n) == before
    requires word == VolumeByte(n) as nat + 0x100 * (VolumeByte(n + 1) as nat)
    ensures WordSum(VOLUME, n + 2) == (before + word) % 0x1_0000
  {
    WordSumNext(VOLUME, n);
  }

  lemma {:induction false} FixedWords()
    ensures WordSum(VOLUME, 50) == 0x9B9F
  {
    hide WordSum;
    WordSumZero(VOLUME);
    WordSumZeros(VOLUME, 0, 32);
    AddWord(32, 0, 0x60);
    WordSumZeros(VOLUME, 34, 40);
    AddWord(40, 0x60, 0x465F);
    AddWord(42, 0x46BF, 0x4856);
    AddWord(44, 0x8F15, 0x0C36);
    AddWord(46, 0x9B4B, 0x0004);
    AddWord(48, 0x9B4F, 0x0050);
  }

  lemma {:induction false} ChecksumIsRight()
    ensures WordSum(VOLUME, HEADER_SIZE) == 0
  {
    hide WordSum;
    FixedWords();
    AddWord(50, 0x9B9F, 0x621F);
    WordSumZeros(VOLUME, 52, 54);
    AddWord(54, 0xFDBE, 0x0200);
    AddWord(56, 0xFFBE, 0x0001);
    WordSumZeros(VOLUME, 58, 60);
    AddWord(60, 0xFFBF, 0x0040);
    WordSumZeros(VOLUME, 62, 64);
    AddWord(64, 0xFFFF, 0x0001);
    WordSumZeros(VOLUME, 66, HEADER_SIZE);
  }

  lemma {:induction false} HeaderIsValid()
    ensures Readable(VOLUME) && ValidHeader(VOLUME) && HeaderLength(VOLUME) == HEADER_SIZE
  {
    hide WordSum;
    ChecksumIsRight();
  }

  lemma {:induction false} DecodedMap()
    ensures DecodeBlockMap(VOLUME[..HEADER_SIZE], FIXED_HEADER) == BLOCK_MAP
  {
    var header := VOLUME[..HEADER_SIZE];
    assert DecodeBlockMap(header, 80) == [];
    assert DecodeBlockMap(header, 72) == [BlockMapEntry(0, 0)];
    assert DecodeBlockMap(header, 64) == [BlockMapEntry(1, 0)] + DecodeBlockMap(header, 72);
    assert DecodeBlockMap(header, 56) == [BlockMapEntry(1, 64)] + DecodeBlockMap(header, 64);
  }

  lemma {:induction false} MapSizes()
    ensures WellFormed(BLOCK_MAP) && Counted(BLOCK_MAP) == 2
    ensures Expand(BLOCK_MAP) == [64] && Sum(Expand(BLOCK_MAP)) == 64
  {
    assert BLOCK_MAP[2].numBlocks == 0;
    assert BLOCK_MAP[1..] == [BlockMapEntry(1, 0), BlockMapEntry(0, 0)];
    assert BLOCK_MAP[1..][1..] == [BlockMapEntry(0, 0)];
    assert Expand(BLOCK_MAP[1..]) == [];
    assert Run(BLOCK_MAP[0]) == [64];
    assert [64][1..] == [];
  }

  lemma {:induction false} Writable()
    ensures Has(Bits32(VOLUME[..HEADER_SIZE], 44), WRITE_STATUS)
  {
    assert Bits32(VOLUME[..HEADER_SIZE], 44) == 0x0004_0C36;
  }

  /** Initialisation accepts this volume, and an erase of its two blocks that the first pass accepts fails after the
      first one is gone. */
  lemma {:induction false} AcceptedVolumeErasesPartly()
    ensures var hob := Hob(0, VOLUME_SIZE, MemoryMappedIo);
            && HobReadable(VOLUME, hob)
            && var a := Accept(VOLUME, [], hob);
               && a.Some? && Sound(a.value)
               && var r, ranges := RecordOf(a.value), [LbaRange(0, 1), LbaRange(1, 1)];
                  && r.Valid(VOLUME_SIZE) && RangesAccepted(r, ranges)
                  && exists flash :: |flash| == VOLUME_SIZE && !AllOrNothing(r, flash, ranges)
                                  && EraseBlocks(r, flash, ranges).0 == InvalidParameter
  {
    HeaderIsValid();
    DecodedMap();
    MapSizes();
    Writable();
    hide DecodeBlockMap, WellFormed, Counted, Expand, Sum, Bits32, EraseBlocks, AllOrNothing, ValidHeader, Readable;
    hide VolumeByte;
    var hob := Hob(0, VOLUME_SIZE, MemoryMappedIo);
    assert View(VOLUME, hob) == VOLUME;
    var a := Acceptance(hob, VOLUME[..HEADER_SIZE], false);
    assert Accept(VOLUME, [], hob) == Some(a);
    assert HeaderLength(a.header) == HEADER_SIZE;
    var r, ranges := RecordOf(a), [LbaRange(0, 1), LbaRange(1, 1)];
    assert !Reached(r, ranges) by { assert ranges[1].lba + ranges[1].count > |r.Sizes()|; }
    var flash := PartialErase(r, VOLUME_SIZE, ranges);
  }
}
