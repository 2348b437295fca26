/** What the Firmware Volume Block protocol does to a flash image and its volumes
    (section 3.4.2 of Volume 3 of the PI Specification), and its properties over whole runs of calls. */
module Fvb {
  import opened Bytes
  import opened EfiStatus
  import opened FvHeader
  import opened BlockMap
  import opened FvbAttributes

  /** The private data of one volume. The header is a copy, so writes to the flash do not reach it. */
  datatype Record = Record(base: nat, numOfBlocks: nat, header: Header) {
    function Sizes(): seq<nat> {
      Expand(header.blockMap)
    }

    function Extent(): nat {
      Sum(Sizes())
    }

    predicate Contains(i: int) {
      base <= i < base + Extent()
    }

    predicate Valid(flashSize: nat) {
      && WellFormed(header.blockMap)
      && numOfBlocks == Counted(header.blockMap)
      && base + Extent() <= flashSize
    }

    function BlockBase(lba: nat): (a: nat)
      requires lba <= |Sizes()|
      ensures base <= a <= base + Extent()
    {
      AddressMonotone(Sizes(), lba, |Sizes()|);
      assert Sizes()[..|Sizes()|] == Sizes();
      base + Address(Sizes(), lba)
    }

    function EraseByte(): byte {
      if Has(header.attributes, ERASE_POLARITY) then 0xFF else 0x00
    }

    predicate CanWrite() {
      Has(header.attributes, WRITE_STATUS)
    }
  }

  datatype FvbState = FvbState(flash: seq<byte>, volumes: seq<Record>) {
    ghost predicate Valid() {
      && (forall v :: 0 <= v < |volumes| ==> volumes[v].Valid(|flash|))
      && (forall v, w :: 0 <= v < w < |volumes| ==> Apart(volumes[v], volumes[w]))
    }
  }

  predicate Apart(a: Record, b: Record) {
    a.base + a.Extent() <= b.base || b.base + b.Extent() <= a.base
  }

  // ---------------------------------------------------------------- Read and Write

  /** The status of a transfer and how many bytes it moves. */
  datatype Transfer = Transfer(status: Status, numBytes: nat) {
    predicate Moves() {
      status == Success || status == BadBufferSize
    }
  }

  /** A transfer stops at the end of its block. `enable` is the status bit it needs. */
  function TransferOutcome(r: Record, enable: bv32, lba: nat, offset: nat, numBytes: nat): (t: Transfer)
    ensures t.Moves() ==> lba < |r.Sizes()| && t.numBytes <= numBytes
    ensures t.Moves() ==> r.BlockBase(lba) + offset + t.numBytes <= r.BlockBase(lba + 1)
  {
    if numBytes == 0 || lba >= |r.Sizes()| then Transfer(InvalidParameter, numBytes)
    else if !Has(r.header.attributes, enable) then Transfer(AccessDenied, numBytes)
    else if offset > r.Sizes()[lba] then Transfer(InvalidParameter, numBytes)
    else
      AddressNext(r.Sizes(), lba);
      if numBytes + offset > r.Sizes()[lba] then Transfer(BadBufferSize, r.Sizes()[lba] - offset)
      else Transfer(Success, numBytes)
  }

  function ReadData(r: Record, flash: seq<byte>, lba: nat, offset: nat, numBytes: nat): (data: seq<byte>)
    requires r.Valid(|flash|)
    requires TransferOutcome(r, READ_STATUS, lba, offset, numBytes).Moves()
    ensures |data| == TransferOutcome(r, READ_STATUS, lba, offset, numBytes).numBytes
  {
    var at := r.BlockBase(lba) + offset;
    flash[at..at + TransferOutcome(r, READ_STATUS, lba, offset, numBytes).numBytes]
  }

  function WriteData(r: Record, flash: seq<byte>, lba: nat, offset: nat, data: seq<byte>): (flash': seq<byte>)
    requires r.Valid(|flash|)
    ensures |flash'| == |flash|
    ensures forall i :: 0 <= i < |flash| && !r.Contains(i) ==> flash'[i] == flash[i]
    ensures !r.CanWrite() ==> flash' == flash
  {
    var t := TransferOutcome(r, WRITE_STATUS, lba, offset, |data|);
    if t.Moves() then Store(flash, r.BlockBase(lba) + offset, data[..t.numBytes]) else flash
  }

  /** A transfer that moves bytes delivers all of them, or ends exactly at the end of its block and says so. */
  lemma {:induction false} TransferIsFull(r: Record, enable: bv32, lba: nat, offset: nat, numBytes: nat)
    ensures var t := TransferOutcome(r, enable, lba, offset, numBytes);
            && (t.status == Success ==> t.numBytes == numBytes > 0)
            && (t.status == BadBufferSize ==>
                  t.numBytes < numBytes && r.BlockBase(lba) + offset + t.numBytes == r.BlockBase(lba + 1))
            && (!t.Moves() ==> t.numBytes == numBytes)
  {
    if lba < |r.Sizes()| {
      AddressNext(r.Sizes(), lba);
    }
  }

  /** The status of a transfer: an empty one and a block that is not there are errors before access is tested, and a
      start behind the end of the block is one afterwards. */
  lemma {:induction false} TransferStatus(r: Record, enable: bv32, lba: nat, offset: nat, numBytes: nat)
    ensures var status := TransferOutcome(r, enable, lba, offset, numBytes).status;
            var named := numBytes > 0 && lba < |r.Sizes()|;
            var enabled := Has(r.header.attributes, enable);
            && (status == AccessDenied <==> named && !enabled)
            && (status == InvalidParameter <==> !named || (enabled && offset > r.Sizes()[lba]))
            && (status == Success <==> named && enabled && offset + numBytes <= r.Sizes()[lba])
            && (status == BadBufferSize <==>
                  named && enabled && offset <= r.Sizes()[lba] < offset + numBytes)
  {
    hide Has;
    if lba < |r.Sizes()| {
      AddressNext(r.Sizes(), lba);
    }
  }

  // ---------------------------------------------------------------- EraseBlocks

  datatype LbaRange = LbaRange(lba: nat, count: nat)

  function EraseBlock(r: Record, flash: seq<byte>, lba: nat): (flash': seq<byte>)
    requires r.Valid(|flash|) && lba < |r.Sizes()|
    ensures |flash'| == |flash|
    ensures forall i :: 0 <= i < |flash| ==>
              flash'[i] == if r.BlockBase(lba) <= i < r.BlockBase(lba + 1) then r.EraseByte() else flash[i]
  {
    AddressNext(r.Sizes(), lba);
    assert r.BlockBase(lba + 1) == r.BlockBase(lba) + r.Sizes()[lba];
    Store(flash, r.BlockBase(lba), seq(r.Sizes()[lba], _ => r.EraseByte()))
  }

  /** The second pass over one range: block after block, until the first that cannot be erased. */
  function EraseRange(r: Record, flash: seq<byte>, lba: nat, count: nat): (result: (Status, seq<byte>))
    requires r.Valid(|flash|)
    ensures |result.1| == |flash|
    ensures forall i :: 0 <= i < |flash| && !r.Contains(i) ==> result.1[i] == flash[i]
    ensures !r.CanWrite() ==> result.1 == flash
    decreases count
  {
    if count == 0 then (Success, flash)
    else if !r.CanWrite() then (AccessDenied, flash)
    else if lba >= |r.Sizes()| then (InvalidParameter, flash)
    else EraseRange(r, EraseBlock(r, flash, lba), lba + 1, count - 1)
  }

  /** A range is its first block and then the rest. */
  lemma {:induction false} EraseRangeFirst(r: Record, flash: seq<byte>, lba: nat, count: nat)
    requires r.Valid(|flash|) && count > 0
    ensures var first := EraseRange(r, flash, lba, 1);
            EraseRange(r, flash, lba, count) ==
            if first.0 != Success then first else EraseRange(r, first.1, lba + 1, count - 1)
  {
  }

  function EraseRanges(r: Record, flash: seq<byte>, ranges: seq<LbaRange>): (result: (Status, seq<byte>))
    requires r.Valid(|flash|)
    ensures |result.1| == |flash|
    ensures forall i :: 0 <= i < |flash| && !r.Contains(i) ==> result.1[i] == flash[i]
    ensures !r.CanWrite() ==> result.1 == flash
    decreases |ranges|
  {
    if ranges == [] then (Success, flash)
    else
      var first := EraseRange(r, flash, ranges[0].lba, ranges[0].count);
      if first.0 != Success then first else EraseRanges(r, first.1, ranges[1..])
  }

  lemma {:induction false} EraseRangesNext(r: Record, flash: seq<byte>, ranges: seq<LbaRange>, k: nat)
    requires r.Valid(|flash|) && k <= |ranges|
    ensures EraseRanges(r, flash, ranges[k..]) ==
            if k == |ranges| then (Success, flash)
            else var first := EraseRange(r, flash, ranges[k].lba, ranges[k].count);
                 if first.0 != Success then first else EraseRanges(r, first.1, ranges[k + 1..])
  {
    if k < |ranges| {
      assert ranges[k..][1..] == ranges[k + 1..];
    }
  }

  /** The first pass: every range is checked before any block is touched. */
  predicate RangesAccepted(r: Record, ranges: seq<LbaRange>) {
    forall k :: 0 <= k < |ranges| ==> ranges[k].count != 0 && ranges[k].lba + ranges[k].count <= r.numOfBlocks
  }

  function EraseBlocks(r: Record, flash: seq<byte>, ranges: seq<LbaRange>): (result: (Status, seq<byte>))
    requires r.Valid(|flash|)
    ensures |result.1| == |flash|
    ensures forall i :: 0 <= i < |flash| && !r.Contains(i) ==> result.1[i] == flash[i]
    ensures !r.CanWrite() ==> result.1 == flash
  {
    if RangesAccepted(r, ranges) then EraseRanges(r, flash, ranges) else (InvalidParameter, flash)
  }

  /** Byte `i` of the flash lies in a block of the range. */
  predicate InRange(r: Record, range: LbaRange, i: int) {
    && range.lba + range.count <= |r.Sizes()|
    && r.BlockBase(range.lba) <= i < r.BlockBase(range.lba + range.count)
  }

  predicate InRanges(r: Record, ranges: seq<LbaRange>, i: int) {
    exists k :: 0 <= k < |ranges| && InRange(r, ranges[k], i)
  }

  lemma {:induction false} BlockBaseMonotone(r: Record, a: nat, b: nat)
    requires a <= b <= |r.Sizes()|
    ensures r.BlockBase(a) <= r.BlockBase(b)
  {
    AddressMonotone(r.Sizes(), a, b);
  }

  lemma {:induction false} EraseRangeEffect(r: Record, flash: seq<byte>, range: LbaRange)
    requires r.Valid(|flash|) && r.CanWrite()
    requires range.lba + range.count <= |r.Sizes()|
    ensures EraseRange(r, flash, range.lba, range.count).0 == Success
    ensures forall i :: 0 <= i < |flash| ==>
              EraseRange(r, flash, range.lba, range.count).1[i]
              == if InRange(r, range, i) then r.EraseByte() else flash[i]
    decreases range.count
  {
    hide Record.Valid, Record.BlockBase, Record.Sizes, Record.CanWrite, Record.EraseByte;
    if range.count != 0 {
      var next := LbaRange(range.lba + 1, range.count - 1);
      EraseRangeEffect(r, EraseBlock(r, flash, range.lba), next);
      BlockBaseMonotone(r, range.lba, range.lba + 1);
      BlockBaseMonotone(r, range.lba + 1, range.lba + range.count);
    }
  }

  /** Every bit of an erased byte is the polarity bit of the volume. */
  lemma {:induction false} ErasedBits(r: Record, mask: bv8)
    ensures (r.EraseByte() as bv8) & mask == if r.header.attributes & ERASE_POLARITY != 0 then mask else 0
  {
  }

  /** The status of an erase where no entry has empty blocks: every range has blocks, all of them counted, and writing
      is on. An empty list succeeds. */
  lemma {:induction false} EraseStatus(r: Record, flash: seq<byte>, ranges: seq<LbaRange>)
    requires r.Valid(|flash|) && NoEmptyBlocks(r.header.blockMap)
    ensures var status := EraseBlocks(r, flash, ranges).0;
            && (status == InvalidParameter <==>
                  exists k :: 0 <= k < |ranges|
                              && (ranges[k].count == 0 || ranges[k].lba + ranges[k].count > |r.Sizes()|))
            && (status == AccessDenied <==>
                  && ranges != [] && r.header.attributes & WRITE_STATUS == 0
                  && forall k :: 0 <= k < |ranges| ==>
                       ranges[k].count > 0 && ranges[k].lba + ranges[k].count <= |r.Sizes()|)
            && (status in {Success, InvalidParameter, AccessDenied})
  {
    WalkWithinCount(r.header.blockMap);
    EraseIsAtomic(r, flash, ranges);
    hide EraseBlocks;
    if !RangesAccepted(r, ranges) {
      var k :| 0 <= k < |ranges| && !(ranges[k].count != 0 && ranges[k].lba + ranges[k].count <= r.numOfBlocks);
    }
  }

  /** The walk reaches every block of the ranges. */
  predicate Reached(r: Record, ranges: seq<LbaRange>) {
    forall k :: 0 <= k < |ranges| ==> ranges[k].lba + ranges[k].count <= |r.Sizes()|
  }

  lemma {:induction false} EraseRangesEffect(r: Record, flash: seq<byte>, ranges: seq<LbaRange>)
    requires r.Valid(|flash|) && r.CanWrite()
    requires Reached(r, ranges)
    ensures EraseRanges(r, flash, ranges).0 == Success
    ensures forall i :: 0 <= i < |flash| ==>
              EraseRanges(r, flash, ranges).1[i] == if InRanges(r, ranges, i) then r.EraseByte() else flash[i]
    decreases |ranges|
  {
    if ranges != [] {
      EraseRangeEffect(r, flash, ranges[0]);
      var first := EraseRange(r, flash, ranges[0].lba, ranges[0].count).1;
      EraseRangesEffect(r, first, ranges[1..]);
      forall i | 0 <= i < |flash|
        ensures InRanges(r, ranges, i) <==> InRange(r, ranges[0], i) || InRanges(r, ranges[1..], i)
      {
        if InRanges(r, ranges[1..], i) {
          var k :| 0 <= k < |ranges[1..]| && InRange(r, ranges[1..][k], i);
          assert InRange(r, ranges[k + 1], i);
        }
        if InRanges(r, ranges, i) && !InRange(r, ranges[0], i) {
          var k :| 0 <= k < |ranges| && InRange(r, ranges[k], i);
          assert InRange(r, ranges[1..][k - 1], i);
        }
      }
    }
  }

  /** An error leaves the flash as it was; success sets exactly the union of the ranges to the polarity byte. */
  predicate AllOrNothing(r: Record, flash: seq<byte>, ranges: seq<LbaRange>)
    requires r.Valid(|flash|)
  {
    var (status, flash') := EraseBlocks(r, flash, ranges);
    if status != Success then flash' == flash
    else forall i :: 0 <= i < |flash| ==> flash'[i] == if InRanges(r, ranges, i) then r.EraseByte() else flash[i]
  }

  /** Where no map entry has empty blocks, the erase is all or nothing, and its status is decided by the first pass. */
  lemma {:induction false} EraseIsAtomic(r: Record, flash: seq<byte>, ranges: seq<LbaRange>)
    requires r.Valid(|flash|)
    requires NoEmptyBlocks(r.header.blockMap) || !r.CanWrite() || r.Sizes() == []
    ensures AllOrNothing(r, flash, ranges)
    ensures NoEmptyBlocks(r.header.blockMap) ==>
              EraseBlocks(r, flash, ranges).0 ==
              if !RangesAccepted(r, ranges) then InvalidParameter
              else if ranges == [] || r.CanWrite() then Success
              else AccessDenied
  {
    WalkWithinCount(r.header.blockMap);
    if RangesAccepted(r, ranges) && ranges != [] && r.CanWrite() && NoEmptyBlocks(r.header.blockMap) {
      EraseRangesEffect(r, flash, ranges);
    }
  }

  /** Erasing takes no byte away from the polarity value. */
  lemma {:induction false} EraseRangeKeepsErased(r: Record, flash: seq<byte>, lba: nat, count: nat, i: nat)
    requires r.Valid(|flash|) && i < |flash| && flash[i] == r.EraseByte()
    ensures EraseRange(r, flash, lba, count).1[i] == r.EraseByte()
    decreases count
  {
    hide Record.Valid, Record.BlockBase, Record.EraseByte, Record.CanWrite, Record.Sizes;
    if count > 0 && r.CanWrite() && lba < |r.Sizes()| {
      EraseRangeKeepsErased(r, EraseBlock(r, flash, lba), lba + 1, count - 1, i);
    }
  }

  lemma {:induction false} EraseRangesKeepErased(r: Record, flash: seq<byte>, ranges: seq<LbaRange>, i: nat)
    requires r.Valid(|flash|) && i < |flash| && flash[i] == r.EraseByte()
    ensures EraseRanges(r, flash, ranges).1[i] == r.EraseByte()
    decreases |ranges|
  {
    if ranges != [] {
      EraseRangeKeepsErased(r, flash, ranges[0].lba, ranges[0].count, i);
      EraseRangesKeepErased(r, EraseRange(r, flash, ranges[0].lba, ranges[0].count).1, ranges[1..], i);
    }
  }

  lemma {:induction false} EraseRangeFails(r: Record, flash: seq<byte>, lba: nat, count: nat)
    requires r.Valid(|flash|) && r.CanWrite() && count > 0 && lba + count > |r.Sizes()|
    ensures EraseRange(r, flash, lba, count).0 == InvalidParameter
    ensures lba >= |r.Sizes()| ==> EraseRange(r, flash, lba, count).1 == flash
    decreases count
  {
    hide Record.Valid, Record.BlockBase, Record.EraseByte, Record.Sizes;
    if lba < |r.Sizes()| {
      EraseRangeFails(r, EraseBlock(r, flash, lba), lba + 1, count - 1);
    }
  }

  lemma {:induction false} EraseRangesFail(r: Record, flash: seq<byte>, ranges: seq<LbaRange>)
    requires r.Valid(|flash|) && r.CanWrite() && !Reached(r, ranges)
    requires forall k :: 0 <= k < |ranges| ==> ranges[k].count > 0
    ensures EraseRanges(r, flash, ranges).0 == InvalidParameter
    decreases |ranges|
  {
    var first := ranges[0];
    if first.lba + first.count > |r.Sizes()| {
      EraseRangeFails(r, flash, first.lba, first.count);
    } else {
      EraseRangeEffect(r, flash, first);
      var k :| 0 <= k < |ranges| && ranges[k].lba + ranges[k].count > |r.Sizes()|;
      assert ranges[1..][k - 1] == ranges[k];
      EraseRangesFail(r, EraseRange(r, flash, first.lba, first.count).1, ranges[1..]);
    }
  }

  lemma {:induction false} FirstBlockErased(r: Record, flash: seq<byte>, lba: nat, count: nat)
    requires r.Valid(|flash|) && r.CanWrite() && count > 0 && lba < |r.Sizes()|
    ensures r.BlockBase(lba) < |flash| && EraseRange(r, flash, lba, count).1[r.BlockBase(lba)] == r.EraseByte()
  {
    SizesPositive(r.header.blockMap, lba);
    AddressNext(r.Sizes(), lba);
    assert r.BlockBase(lba) < r.BlockBase(lba + 1);
    EraseRangeKeepsErased(r, EraseBlock(r, flash, lba), lba + 1, count - 1, r.BlockBase(lba));
  }

  /** An accepted list of ranges that begins in reach of the walk and leaves it fails after it has erased a block. */
  lemma {:induction false} PartialErase(r: Record, flashSize: nat, ranges: seq<LbaRange>) returns (flash: seq<byte>)
    requires r.Valid(flashSize) && r.CanWrite()
    requires RangesAccepted(r, ranges) && ranges != []
    requires ranges[0].lba < |r.Sizes()| && !Reached(r, ranges)
    ensures |flash| == flashSize && !AllOrNothing(r, flash, ranges)
    ensures EraseBlocks(r, flash, ranges).0 == InvalidParameter
  {
    flash := seq(flashSize, _ => if r.EraseByte() == 0 then 0xFF as byte else 0x00);
    var i, first := r.BlockBase(ranges[0].lba), ranges[0];
    FirstBlockErased(r, flash, first.lba, first.count);
    EraseRangesKeepErased(r, EraseRange(r, flash, first.lba, first.count).1, ranges[1..], i);
    EraseRangesFail(r, flash, ranges);
    assert EraseBlocks(r, flash, ranges).1[i] == r.EraseByte() != flash[i];
  }

  /** For a list that the first pass accepts: the erase is all or nothing for every flash content if and only if the
      walk reaches all blocks of the ranges, or not even the first one. */
  lemma {:induction false} EraseListIsAtomicIff(r: Record, flashSize: nat, ranges: seq<LbaRange>)
    requires r.Valid(flashSize) && r.CanWrite()
    requires RangesAccepted(r, ranges) && ranges != []
    ensures (forall flash :: |flash| == flashSize ==> AllOrNothing(r, flash, ranges)) <==>
            ranges[0].lba >= |r.Sizes()| || Reached(r, ranges)
  {
    if ranges[0].lba >= |r.Sizes()| || Reached(r, ranges) {
      forall flash | |flash| == flashSize
        ensures AllOrNothing(r, flash, ranges)
      {
        if Reached(r, ranges) {
          EraseRangesEffect(r, flash, ranges);
        } else {
          EraseRangeFails(r, flash, ranges[0].lba, ranges[0].count);
        }
      }
    } else {
      var flash := PartialErase(r, flashSize, ranges);
    }
  }

  /** Exactly when the erase is all or nothing for every flash content and every list of ranges: otherwise a block
      that initialisation counted is out of the reach of the address walk, and erasing [0, 1) first and then
      the first unreachable block fails after block 0 is gone. */
  lemma {:induction false} EraseIsAtomicIff(r: Record, flashSize: nat)
    requires r.Valid(flashSize)
    ensures (forall flash, ranges :: |flash| == flashSize ==> AllOrNothing(r, flash, ranges)) <==>
            NoEmptyBlocks(r.header.blockMap) || !r.CanWrite() || r.Sizes() == []
  {
    if NoEmptyBlocks(r.header.blockMap) || !r.CanWrite() || r.Sizes() == [] {
      forall flash, ranges | |flash| == flashSize
        ensures AllOrNothing(r, flash, ranges)
      {
        EraseIsAtomic(r, flash, ranges);
      }
    } else {
      WalkWithinCount(r.header.blockMap);
      var ranges := [LbaRange(0, 1), LbaRange(|r.Sizes()|, 1)];
      assert !Reached(r, ranges) by { assert ranges[1].lba + ranges[1].count > |r.Sizes()|; }
      var flash := PartialErase(r, flashSize, ranges);
    }
  }

  // ---------------------------------------------------------------- Runs of calls

  datatype Op =
    | SetAttributes(volume: nat, request: bv32)
    | Write(volume: nat, lba: nat, offset: nat, data: seq<byte>)
    | Erase(volume: nat, ranges: seq<LbaRange>)
    | Read(volume: nat, lba: nat, offset: nat, numBytes: nat)

  function WithAttributes(r: Record, attributes: bv32): Record {
    r.(header := r.header.(attributes := attributes))
  }

  /** The effect of one call on the whole state. A protocol instance always names an existing volume. */
  function Step(s: FvbState, op: Op): (s': FvbState)
    requires s.Valid()
    ensures s'.Valid()
    ensures |s'.flash| == |s.flash| && |s'.volumes| == |s.volumes|
  {
    if op.volume >= |s.volumes| then s
    else
      var r := s.volumes[op.volume];
      match op
      case SetAttributes(v, request) =>
        var r' := WithAttributes(r, SetResult(r.header.attributes, request));
        s.(volumes := s.volumes[v := r'])
      case Write(_, lba, offset, data) => s.(flash := WriteData(r, s.flash, lba, offset, data))
      case Erase(_, ranges) => s.(flash := EraseBlocks(r, s.flash, ranges).1)
      case Read(_, _, _, _) => s
  }

  function RunAll(s: FvbState, ops: seq<Op>): (s': FvbState)
    requires s.Valid()
    ensures s'.Valid()
    ensures |s'.flash| == |s.flash| && |s'.volumes| == |s.volumes|
    decreases |ops|
  {
    if ops == [] then s else RunAll(Step(s, ops[0]), ops[1..])
  }

  /** The bytes of volume `v`. */
  function VolumeBytes(s: FvbState, v: nat): seq<byte>
    requires s.Valid() && v < |s.volumes|
  {
    s.flash[s.volumes[v].base..s.volumes[v].base + s.volumes[v].Extent()]
  }

  /** The SetAttributes requests that a run makes to volume `v`, in order. */
  function Requests(ops: seq<Op>, v: nat): seq<bv32> {
    if ops == [] then []
    else (if ops[0].SetAttributes? && ops[0].volume == v then [ops[0].request] else []) + Requests(ops[1..], v)
  }

  /** Over every run the geometry of a volume stays, and its attributes are those that its own requests make. */
  lemma {:induction false} RunKeepsGeometry(s: FvbState, ops: seq<Op>, v: nat)
    requires s.Valid() && v < |s.volumes|
    ensures RunAll(s, ops).volumes[v]
         == WithAttributes(s.volumes[v], SetAll(s.volumes[v].header.attributes, Requests(ops, v)))
    decreases |ops|
  {
    if ops != [] {
      RunKeepsGeometry(Step(s, ops[0]), ops[1..], v);
      if ops[0].SetAttributes? && ops[0].volume == v {
        assert Requests(ops, v)[1..] == Requests(ops[1..], v);
      } else {
        assert Requests(ops, v) == Requests(ops[1..], v);
      }
    }
  }

  lemma {:induction false} OnlyOneVolume(s: FvbState, v: nat, w: nat, i: int)
    requires s.Valid() && v < |s.volumes| && w < |s.volumes| && v != w
    requires s.volumes[v].Contains(i)
    ensures !s.volumes[w].Contains(i)
  {
    hide Record.Valid;
    var a, b := if v < w then v else w, if v < w then w else v;
    assert Apart(s.volumes[a], s.volumes[b]);
  }

  /** A call changes the bytes of a volume only if it writes or erases that volume while it is write-enabled. */
  lemma {:induction false} StepKeepsBytes(s: FvbState, op: Op, v: nat)
    requires s.Valid() && v < |s.volumes|
    requires op.volume != v || op.SetAttributes? || op.Read? || !s.volumes[v].CanWrite()
    ensures VolumeBytes(Step(s, op), v) == VolumeBytes(s, v)
  {
    hide WellFormed, Counted, EraseBlocks, WriteData, Apart;
    var r := s.volumes[v];
    forall i | r.Contains(i)
      ensures Step(s, op).flash[i] == s.flash[i]
    {
      if op.volume < |s.volumes| && op.volume != v {
        OnlyOneVolume(s, v, op.volume, i);
      }
    }
    assert Step(s, op).volumes[v].base == r.base && Step(s, op).volumes[v].Extent() == r.Extent();
  }

  /** Volumes are isolated: a run that never writes or erases volume `v` keeps all its bytes. */
  lemma {:induction false} RunKeepsBytes(s: FvbState, ops: seq<Op>, v: nat)
    requires s.Valid() && v < |s.volumes|
    requires forall k :: 0 <= k < |ops| ==> ops[k].volume != v || ops[k].SetAttributes? || ops[k].Read?
    ensures VolumeBytes(RunAll(s, ops), v) == VolumeBytes(s, v)
    decreases |ops|
  {
    if ops != [] {
      StepKeepsBytes(s, ops[0], v);
      RunKeepsBytes(Step(s, ops[0]), ops[1..], v);
    }
  }

  /** A volume that is locked with writing off is frozen: no run of calls on any volumes changes its attributes,
      its geometry or any of its bytes. */
  lemma {:induction false} FrozenVolume(s: FvbState, ops: seq<Op>, v: nat)
    requires s.Valid() && v < |s.volumes|
    requires Has(s.volumes[v].header.attributes, LOCK_STATUS) && !s.volumes[v].CanWrite()
    ensures RunAll(s, ops).volumes[v] == s.volumes[v]
    ensures VolumeBytes(RunAll(s, ops), v) == VolumeBytes(s, v)
    decreases |ops|
  {
    if ops != [] {
      StepKeepsBytes(s, ops[0], v);
      assert Step(s, ops[0]).volumes[v] == s.volumes[v];
      FrozenVolume(Step(s, ops[0]), ops[1..], v);
    }
  }

  /** A write changes no byte but the ones that it moves, inside its volume too, and moves just those of its data. */
  lemma {:induction false} WriteTouchesOnly(s: FvbState, v: nat, lba: nat, offset: nat, data: seq<byte>, i: nat)
    requires s.Valid() && v < |s.volumes| && i < |s.flash|
    ensures var t := TransferOutcome(s.volumes[v], WRITE_STATUS, lba, offset, |data|);
            var after := Step(s, Write(v, lba, offset, data)).flash;
            if t.Moves()
               && s.volumes[v].BlockBase(lba) + offset <= i < s.volumes[v].BlockBase(lba) + offset + t.numBytes
            then after[i] == data[i - s.volumes[v].BlockBase(lba) - offset]
            else after[i] == s.flash[i]
  {
  }

  /** A read whose bytes are not among the written ones returns what it returned before. */
  lemma {:induction false} OtherReadsKept(
    s: FvbState, v: nat, lba: nat, offset: nat, data: seq<byte>, w: nat, lba': nat, offset': nat, numBytes: nat)
    requires s.Valid() && v < |s.volumes| && w < |s.volumes|
    requires var r := TransferOutcome(s.volumes[w], READ_STATUS, lba', offset', numBytes);
             var t := TransferOutcome(s.volumes[v], WRITE_STATUS, lba, offset, |data|);
             && r.Moves()
             && (t.Moves() ==>
                   || s.volumes[w].BlockBase(lba') + offset' + r.numBytes <= s.volumes[v].BlockBase(lba) + offset
                   || s.volumes[v].BlockBase(lba) + offset + t.numBytes <= s.volumes[w].BlockBase(lba') + offset')
    ensures ReadData(s.volumes[w], Step(s, Write(v, lba, offset, data)).flash, lba', offset', numBytes)
         == ReadData(s.volumes[w], s.flash, lba', offset', numBytes)
  {
    var after := Step(s, Write(v, lba, offset, data)).flash;
    var at := s.volumes[w].BlockBase(lba') + offset';
    var n := TransferOutcome(s.volumes[w], READ_STATUS, lba', offset', numBytes).numBytes;
    AllInRange(s, w, lba', offset', numBytes);
    hide Step, TransferOutcome, Record.BlockBase;
    forall i | at <= i < at + n
      ensures after[i] == s.flash[i]
    {
      WriteTouchesOnly(s, v, lba, offset, data, i);
    }
    assert after[at..at + n] == s.flash[at..at + n];
  }

  lemma {:induction false} AllInRange(s: FvbState, w: nat, lba: nat, offset: nat, numBytes: nat)
    requires s.Valid() && w < |s.volumes|
    ensures var t := TransferOutcome(s.volumes[w], READ_STATUS, lba, offset, numBytes);
            t.Moves() ==> s.volumes[w].BlockBase(lba) + offset + t.numBytes <= |s.flash|
  {
  }

  /** What an allowed write accepted is what the same read returns, byte for byte and with the same truncation,
      even after any run of calls that does not write, erase or re-attribute the volume. */
  lemma {:induction false} WriteThenRead(s: FvbState, v: nat, lba: nat, offset: nat, data: seq<byte>, ops: seq<Op>)
    requires s.Valid() && v < |s.volumes|
    requires Has(s.volumes[v].header.attributes, READ_STATUS)
    requires TransferOutcome(s.volumes[v], WRITE_STATUS, lba, offset, |data|).Moves()
    requires forall k :: 0 <= k < |ops| ==> ops[k].volume != v || ops[k].Read?
    ensures var t := TransferOutcome(s.volumes[v], WRITE_STATUS, lba, offset, |data|);
            var s' := RunAll(Step(s, Write(v, lba, offset, data)), ops);
            && s'.volumes[v] == s.volumes[v]
            && TransferOutcome(s'.volumes[v], READ_STATUS, lba, offset, |data|) == t
            && ReadData(s'.volumes[v], s'.flash, lba, offset, |data|) == data[..t.numBytes]
  {
    var s1 := Step(s, Write(v, lba, offset, data));
    NoRequests(ops, v);
    RunKeepsGeometry(s1, ops, v);
    RunKeepsBytes(s1, ops, v);
    ReadBack(s.volumes[v], s.flash, lba, offset, data);
    SameBytesSameRead(s1, RunAll(s1, ops), v, lba, offset, |data|);
  }

  lemma {:induction false} ReadBack(r: Record, flash: seq<byte>, lba: nat, offset: nat, data: seq<byte>)
    requires r.Valid(|flash|) && Has(r.header.attributes, READ_STATUS)
    requires TransferOutcome(r, WRITE_STATUS, lba, offset, |data|).Moves()
    ensures var t := TransferOutcome(r, WRITE_STATUS, lba, offset, |data|);
            && TransferOutcome(r, READ_STATUS, lba, offset, |data|) == t
            && ReadData(r, WriteData(r, flash, lba, offset, data), lba, offset, |data|) == data[..t.numBytes]
  {
  }

  /** A read depends only on the record and the bytes of its volume. */
  lemma {:induction false} SameBytesSameRead(s: FvbState, s': FvbState, v: nat, lba: nat, offset: nat, numBytes: nat)
    requires s.Valid() && s'.Valid() && v < |s.volumes| == |s'.volumes|
    requires s.volumes[v] == s'.volumes[v] && VolumeBytes(s, v) == VolumeBytes(s', v)
    requires TransferOutcome(s.volumes[v], READ_STATUS, lba, offset, numBytes).Moves()
    ensures ReadData(s.volumes[v], s.flash, lba, offset, numBytes)
         == ReadData(s.volumes[v], s'.flash, lba, offset, numBytes)
  {
    var r := s.volumes[v];
    var from := r.BlockBase(lba) + offset - r.base;
    var to := from + TransferOutcome(r, READ_STATUS, lba, offset, numBytes).numBytes;
    SliceOfSlice(s.flash, r.base, r.base + r.Extent(), from, to);
    SliceOfSlice(s'.flash, r.base, r.base + r.Extent(), from, to);
  }

  lemma {:induction false} NoRequests(ops: seq<Op>, v: nat)
    requires forall k :: 0 <= k < |ops| ==> ops[k].volume != v || ops[k].Read?
    ensures Requests(ops, v) == []
  {
    if ops != [] {
      NoRequests(ops[1..], v);
    }
  }
}
