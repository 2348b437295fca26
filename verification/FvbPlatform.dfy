/** The platform table of volume headers, and the volumes that get their header from it. */
module FvbPlatform {
  import opened Wrappers
  import opened Bytes
  import opened EfiStatus
  import opened FvHeader
  import opened BlockMap
  import opened FvbAttributes
  import opened Fvb
  import opened FvbInit

  /** PcdWinNtFirmwareBlockSize. */
  const BLOCK_SIZE: nat := 0x1_0000

  /** A table header: one run of blocks of the firmware block size over the whole volume, and a terminator. */
  predicate IsPlatformImage(info: MediaInfo) {
    && 0 < info.fvLength < 0x1_0000_0000 && info.fvLength % BLOCK_SIZE == 0
    && |info.image| == 72
    && DecodeHeader(info.image) == Header(
         info.fvLength, PLATFORM_ATTRIBUTES, 72,
         [BlockMapEntry(info.fvLength / BLOCK_SIZE, BLOCK_SIZE), BlockMapEntry(0, 0)])
  }

  predicate IsPlatformTable(table: seq<MediaInfo>) {
    forall k :: 0 <= k < |table| ==> IsPlatformImage(table[k])
  }

  lemma {:induction false} FoundInTable(table: seq<MediaInfo>, fvLength: nat)
    requires IsPlatformTable(table) && FindInfo(table, fvLength).Some?
    ensures IsPlatformImage(MediaInfo(fvLength, FindInfo(table, fvLength).value))
  {
    if table[0].fvLength == fvLength {
      assert IsPlatformImage(table[0]);
    } else {
      FoundInTable(table[1..], fvLength);
    }
  }

  /** A header from the table is sound, and its blocks fill its volume exactly, without empty blocks. */
  lemma {:induction false} PlatformVolume(a: Acceptance)
    requires IsPlatformImage(MediaInfo(a.hob.length, a.header))
    ensures Sound(a)
    ensures RecordOf(a).Extent() == a.hob.length
    ensures NoEmptyBlocks(RecordOf(a).header.blockMap)
    ensures RecordOf(a).header.attributes == PLATFORM_ATTRIBUTES
  {
    var n := a.hob.length / BLOCK_SIZE;
    var m := DecodeHeader(a.header).blockMap;
    assert n * BLOCK_SIZE == a.hob.length;
    assert m[1].numBlocks == 0;
    assert m[1..] == [BlockMapEntry(0, 0)];
    assert Expand(m) == Run(m[0]);
    SumRun(Expand(m), BLOCK_SIZE);
    assert Counted(m[1..]) == 0;
    assert WellFormed(m);
  }

  lemma {:induction false} TableImage(flash: seq<byte>, table: seq<MediaInfo>, hobs: seq<Hob>, v: nat)
    requires forall i :: 0 <= i < |hobs| ==> HobReadable(flash, hobs[i])
    requires IsPlatformTable(table)
    requires v < |Accepted(flash, table, hobs)| && Accepted(flash, table, hobs)[v].fromTable
    ensures var a := Accepted(flash, table, hobs)[v];
            IsPlatformImage(MediaInfo(a.hob.length, a.header))
  {
    hide IsPlatformImage;
    var first := Accept(flash, table, hobs[0]);
    if first.Some? && v == 0 {
      FoundInTable(table, hobs[0].length);
    } else {
      TableImage(flash, table, hobs[1..], if first.Some? then v - 1 else v);
    }
  }

  /** No run of calls ever changes the attributes of a volume whose header comes from the platform table. */
  lemma {:induction false} PlatformVolumesFixed(
    flash: seq<byte>, table: seq<MediaInfo>, hobs: seq<Hob>, v: nat, ops: seq<Op>)
    requires Environment(flash, table, hobs) && IsPlatformTable(table)
    requires v < |Accepted(flash, table, hobs)| && Accepted(flash, table, hobs)[v].fromTable
    ensures var s := FvbState(InitialFlash(flash, table, hobs), Records(Accepted(flash, table, hobs)));
            && s.Valid()
            && s.volumes[v].header.attributes == PLATFORM_ATTRIBUTES
            && RunAll(s, ops).volumes[v] == s.volumes[v]
  {
    hide IsPlatformImage, Accepted;
    InitialStateValid(flash, table, hobs, InitialFlash(flash, table, hobs));
    var s := FvbState(InitialFlash(flash, table, hobs), Records(Accepted(flash, table, hobs)));
    TableImage(flash, table, hobs, v);
    PlatformVolume(Accepted(flash, table, hobs)[v]);
    RunKeepsGeometry(s, ops, v);
    PlatformIsFixed(Requests(ops, v));
  }
}
