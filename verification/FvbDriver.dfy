/** The Firmware Volume Block driver itself: a flash image and a pool of volume records, both updated in place. */
module FvbDriver {
  import opened Wrappers
  import opened Bytes
  import opened EfiStatus
  import opened FvHeader
  import opened BlockMap
  import opened FvbAttributes
  import opened Fvb
  import opened FvbLayout
  import opened FvbInit

  /** CopyMem from the start of `source`; it tolerates any overlap. */
  method CopyMem(target: array<byte>, at: nat, source: array<byte>, from: nat, size: nat)
    requires at + size <= target.Length && from + size <= source.Length
    modifies target
    ensures target[..] == Store(old(target[..]), at, old(source[from..from + size]))
  {
    forall k | 0 <= k < size {
      target[at + k] := source[from + k];
    }
  }

  method SetMem(target: array<byte>, at: nat, size: nat, value: byte)
    requires at + size <= target.Length
    modifies target
    ensures target[..] == Store(old(target[..]), at, seq(size, _ => value))
  {
    forall k | 0 <= k < size {
      target[at + k] := value;
    }
  }

  /** The walk over the run-length map agrees with the flat list of block sizes: it finds a block exactly when the
      list has one, its address is the sum of all the sizes before it, and the count is what is left of its run. */
  method WalkBlockMap(base: nat, blockMap: seq<BlockMapEntry>, lba: nat)
    returns (status: Status, lbaAddress: nat, lbaLength: nat, numOfBlocks: nat)
    requires WellFormed(blockMap)
    ensures status == if lba < |Expand(blockMap)| then Success else InvalidParameter
    ensures status == Success ==>
              && lbaAddress == base + Address(Expand(blockMap), lba)
              && lbaLength == Expand(blockMap)[lba]
              && numOfBlocks == RunLeft(blockMap, lba)
  {
    ghost var before: seq<nat> := [];
    var startLba, offset, i := 0, 0, 0;
    lbaAddress, lbaLength, numOfBlocks := 0, 0, 0;
    assert blockMap[0..] == blockMap;
    while true
      invariant Walked(blockMap, before, i, lba)
      invariant exists k :: i <= k < |blockMap| && blockMap[k].numBlocks == 0
      invariant startLba == |before| && offset == Sum(before)
      decreases |blockMap| - i
    {
      var numBlocks, blockLength := blockMap[i].numBlocks, blockMap[i].length;
      if numBlocks == 0 || blockLength == 0 {
        return InvalidParameter, lbaAddress, lbaLength, numOfBlocks;
      }
      var nextLba := startLba + numBlocks;
      if startLba <= lba < nextLba {
        WalkFound(blockMap, before, i, lba);
        return Success, base + (offset + (lba - startLba) * blockLength), blockLength, nextLba - lba;
      }
      WalkStep(blockMap, before, i, lba);
      before := before + Run(blockMap[i]);
      startLba, offset, i := nextLba, offset + numBlocks * blockLength, i + 1;
    }
  }

  /** The two assignments that replace the status bits of the attribute word. */
  method ReplaceStatus(oldAttributes: bv32, request: bv32) returns (attributes: bv32)
    ensures attributes & STATUS_BITS == request & STATUS_BITS
    ensures attributes & !STATUS_BITS == oldAttributes & !STATUS_BITS
  {
    var newStatus := request & STATUS_BITS;
    attributes := oldAttributes & (0xFFFF_FFFF & !STATUS_BITS);
    attributes := attributes | newStatus;
  }

  /** The tests of a SetAttributes request against the current attributes, in the order of the driver. */
  method CheckRequest(oldAttributes: bv32, request: bv32) returns (status: Status)
    ensures status == SetStatus(oldAttributes, request)
  {
    var capabilities := oldAttributes
      & (READ_DISABLED_CAP | READ_ENABLED_CAP | WRITE_DISABLED_CAP | WRITE_ENABLED_CAP | LOCK_CAP);
    var oldStatus, newStatus := oldAttributes & STATUS_BITS, request & STATUS_BITS;
    if (oldAttributes & UNCHANGED_BITS) ^ (request & UNCHANGED_BITS) != 0 {
      return InvalidParameter;
    }
    if oldAttributes & LOCK_STATUS != 0 {
      if oldStatus ^ newStatus != 0 {
        return AccessDenied;
      }
    }
    if capabilities & READ_DISABLED_CAP == 0 {
      if newStatus & READ_STATUS == 0 {
        return InvalidParameter;
      }
    }
    if capabilities & READ_ENABLED_CAP == 0 {
      if newStatus & READ_STATUS != 0 {
        return InvalidParameter;
      }
    }
    if capabilities & WRITE_DISABLED_CAP == 0 {
      if newStatus & WRITE_STATUS == 0 {
        return InvalidParameter;
      }
    }
    if capabilities & WRITE_ENABLED_CAP == 0 {
      if newStatus & WRITE_STATUS != 0 {
        return InvalidParameter;
      }
    }
    if capabilities & LOCK_CAP == 0 {
      if newStatus & LOCK_STATUS != 0 {
        return InvalidParameter;
      }
    }
    return Success;
  }

  /** The word after a request, which stays if the request fails. */
  method ChangeAttributes(oldAttributes: bv32, request: bv32) returns (status: Status, attributes: bv32)
    ensures status == SetStatus(oldAttributes, request)
    ensures attributes == SetResult(oldAttributes, request)
  {
    status := CheckRequest(oldAttributes, request);
    if status != Success {
      return status, oldAttributes;
    }
    attributes := ReplaceStatus(oldAttributes, request);
    UpdatedUnique(oldAttributes, request, attributes);
  }

  /** The first pass of EraseBlocks. */
  method CheckRanges(ranges: seq<LbaRange>, numOfBlocks: nat) returns (accepted: bool)
    ensures accepted <==>
            forall k :: 0 <= k < |ranges| ==> ranges[k].count != 0 && ranges[k].lba + ranges[k].count <= numOfBlocks
  {
    for k := 0 to |ranges|
      invariant forall j :: 0 <= j < k ==> ranges[j].count != 0 && ranges[j].lba + ranges[j].count <= numOfBlocks
    {
      if ranges[k].count == 0 || ranges[k].lba + ranges[k].count > numOfBlocks {
        return false;
      }
    }
    return true;
  }

  class Driver {
    var flash: array<byte>
    /** The record at each byte offset of the pool that holds one. */
    var pool: map<nat, Record>
    var poolSize: nat
    var numFv: nat
    /** The records in the order of their instance numbers. */
    ghost var volumes: seq<Record>

    ghost function State(): FvbState
      reads this, flash
    {
      FvbState(flash[..], volumes)
    }

    ghost predicate Valid()
      reads this, flash
    {
      numFv == |volumes| && Laid(pool, poolSize, volumes) && State().Valid()
    }

    method ValidateFvHeader(hob: Hob) returns (status: Status)
      requires HobReadable(flash[..], hob) && hob.gcd == MemoryMappedIo
      ensures status == if ValidHeader(View(flash[..], hob)) then Success else NotFound
    {
      var view := flash[hob.base..hob.base + hob.length];
      assert view == View(flash[..], hob);
      if view[55] != REVISION || Le32(view, 40) != SIGNATURE || Le64(view, 32) == MAX_UINTN || Le16(view, 48) % 2 != 0 {
        return NotFound;
      }
      if WordSum(view, Le16(view, 48)) != 0 {
        return NotFound;
      }
      return Success;
    }

    /** The header that a pass uses for a HOB: the one in the flash, or else one from the platform table. */
    method FindHeader(table: seq<MediaInfo>, hob: Hob) returns (found: Option<Acceptance>)
      requires HobReadable(flash[..], hob)
      ensures found == Accept(flash[..], table, hob)
    {
      if hob.gcd != MemoryMappedIo {
        return None;
      }
      var status := ValidateFvHeader(hob);
      if status == Success {
        var view := flash[hob.base..hob.base + hob.length];
        assert view == View(flash[..], hob);
        return Some(Acceptance(hob, view[..HeaderLength(view)], false));
      }
      var image;
      status, image := GetFvbInfo(table, hob.length);
      if status != Success {
        return None;
      }
      return Some(Acceptance(hob, image, true));
    }

    /** Pass one: the size of the pool for all the records. */
    method MeasureRecords(table: seq<MediaInfo>, hobs: seq<Hob>) returns (bufferSize: nat)
      requires Environment(flash[..], table, hobs)
      ensures var records := Records(Accepted(flash[..], table, hobs));
              bufferSize == RecordOffset(records, |records|)
    {
      hide Accepted, WellFormed, Accept, View, DecodeHeader, RecordOf;
      ghost var done: seq<Acceptance> := [];
      ghost var image := flash[..];
      ProgressStart(image, table, hobs);
      bufferSize := 0;
      var k := 0;
      while k < |hobs|
        invariant Progress(image, table, hobs, done, k)
        invariant bufferSize == RecordOffset(Records(done), |done|)
      {
        if hobs[k].gcd == LookupFailed {
          break;
        }
        ProgressStep(image, table, hobs, done, k);
        var found := FindHeader(table, hobs[k]);
        if found.Some? {
          assert Sound(found.value);
          PoolGrows(done, found.value);
          bufferSize := bufferSize + (RECORD_PREFIX + HeaderLength(found.value.header));
          done := done + [found.value];
        } else {
          assert done + [] == done;
        }
        k := k + 1;
      }
      ProgressEnd(image, table, hobs, done, k);
    }

    /** Pass two for one accepted volume: write its header back if it comes from the table, and fill its record. */
    method InstallVolume(a: Acceptance, offset: nat) returns (next: nat)
      requires Fits(a, flash.Length)
      requires Laid(pool, offset, volumes) && numFv == |volumes|
      modifies this, flash
      ensures flash == old(flash) && poolSize == old(poolSize)
      ensures flash[..] == if a.fromTable then Store(old(flash[..]), a.hob.base, a.header) else old(flash[..])
      ensures volumes == old(volumes) + [RecordOf(a)]
      ensures Laid(pool, next, volumes) && numFv == |volumes|
    {
      if a.fromTable {
        StoreHeader(a.hob.base, a.header);
      }
      var header := DecodeHeader(a.header);
      var numOfBlocks := CountBlocks(header.blockMap);
      var record := Record(a.hob.base, numOfBlocks, header);
      LaidAppend(pool, offset, volumes, record);
      pool := pool[offset := record];
      volumes := volumes + [record];
      numFv := numFv + 1;
      next := offset + (header.headerLength + RECORD_PREFIX);
    }

    /** Both passes. The pool that pass one measured is exactly filled by pass two (see Valid), with one record for
        each accepted HOB in order, and the flash changes only where table headers are written back. */
    method Initialize(table: seq<MediaInfo>, hobs: seq<Hob>)
      requires Environment(flash[..], table, hobs)
      modifies this, flash
      ensures Valid() && flash == old(flash)
      ensures volumes == Records(Accepted(old(flash[..]), table, hobs))
      ensures flash[..] == InitialFlash(old(flash[..]), table, hobs)
    {
      hide Accepted, Accept, FvbState.Valid, RecordOf, Sound, Laid, RecordOffset, View;
      ghost var image := flash[..];
      poolSize := MeasureRecords(table, hobs);
      pool, numFv, volumes := map[], 0, [];
      ghost var done: seq<Acceptance> := [];
      ProgressStart(image, table, hobs);
      LaidEmpty();
      assert flash[..] == WriteBack(image, done);
      var offset, k := 0, 0;
      while k < |hobs|
        invariant Progress(image, table, hobs, done, k)
        invariant Laid(pool, offset, volumes) && volumes == Records(done) && numFv == |done|
        invariant poolSize == RecordOffset(Records(Accepted(image, table, hobs)), |Accepted(image, table, hobs)|)
        invariant flash == old(flash) && flash.Length == |image| && flash[..] == WriteBack(image, done)
        invariant forall i :: k <= i < |hobs| ==> View(flash[..], hobs[i]) == View(image, hobs[i])
      {
        if hobs[k].gcd == LookupFailed {
          break;
        }
        ProgressStep(image, table, hobs, done, k);
        SameViewSameAcceptance(image, flash[..], table, hobs[k]);
        var found := FindHeader(table, hobs[k]);
        if found.Some? {
          AcceptedHob(image, table, hobs[k]);
          WriteBackStep(image, done, found.value);
          ViewsKept(flash[..], hobs, k, found.value);
          RecordsAppend(done, found.value);
          offset := InstallVolume(found.value, offset);
          done := done + [found.value];
        } else {
          assert done + [] == done;
        }
        k := k + 1;
      }
      ProgressEnd(image, table, hobs, done, k);
      InitialStateValid(image, table, hobs, flash[..]);
      LaidEnd(pool, offset, volumes);
      assert |volumes| == |done|;
    }

    method StoreHeader(base: nat, header: seq<byte>)
      requires base + |header| <= flash.Length
      modifies flash
      ensures flash[..] == Store(old(flash[..]), base, header)
    {
      forall i | 0 <= i < |header| {
        flash[base + i] := header[i];
      }
    }

    method GetFvbInstance(instance: nat) returns (status: Status, offset: nat)
      requires Valid()
      ensures status == if instance < numFv then Success else InvalidParameter
      ensures status == Success ==>
                offset == RecordOffset(volumes, instance) && offset in pool && pool[offset] == volumes[instance]
    {
      hide FvbState.Valid;
      offset := 0;
      if instance >= numFv {
        return InvalidParameter, 0;
      }
      var remaining := instance;
      while remaining > 0
        invariant 0 <= remaining <= instance
        invariant offset == RecordOffset(volumes, instance - remaining)
      {
        assert RecordAt(pool, volumes, instance - remaining);
        offset := offset + pool[offset].header.headerLength + RECORD_PREFIX;
        remaining := remaining - 1;
      }
      assert RecordAt(pool, volumes, instance);
      return Success, offset;
    }

    method GetVolumeAttributes(instance: nat) returns (attributes: bv32)
      requires Valid() && instance < numFv
      ensures attributes == volumes[instance].header.attributes
    {
      var _, offset := GetFvbInstance(instance);
      attributes := pool[offset].header.attributes;
    }

    method GetLbaAddress(instance: nat, lba: nat)
      returns (status: Status, lbaAddress: nat, lbaLength: nat, numOfBlocks: nat)
      requires Valid() && instance < numFv
      ensures var r := volumes[instance];
              if lba < |r.Sizes()| then
                && status == Success
                && lbaAddress == r.BlockBase(lba)
                && lbaLength == r.Sizes()[lba]
                && numOfBlocks == RunLeft(r.header.blockMap, lba)
              else status == InvalidParameter
    {
      var _, offset := GetFvbInstance(instance);
      var record := pool[offset];
      assert record.Valid(flash.Length);
      status, lbaAddress, lbaLength, numOfBlocks := WalkBlockMap(record.base, record.header.blockMap, lba);
    }

    /** NULL pointers are `None` and `null`. What `numBytes` points to is returned as `moved`. */
    method ReadBlock(instance: nat, lba: nat, blockOffset: nat, numBytes: Option<nat>, buffer: array?<byte>)
      returns (status: Status, moved: Option<nat>)
      requires Valid() && instance < numFv
      requires buffer != null ==> buffer != flash && (numBytes.Some? ==> numBytes.value <= buffer.Length)
      modifies if buffer == null then {} else {buffer}
      ensures Valid() && State() == old(State())
      ensures if numBytes.None? || buffer == null then status == InvalidParameter && moved == numBytes
              else var t := TransferOutcome(volumes[instance], READ_STATUS, lba, blockOffset, numBytes.value);
                   status == t.status && moved == Some(t.numBytes)
      ensures buffer != null ==>
                var read := if moved.Some? && (status == Success || status == BadBufferSize)
                            then ReadData(volumes[instance], flash[..], lba, blockOffset, numBytes.value) else [];
                buffer[..] == Store(old(buffer[..]), 0, read)
    {
      hide Laid, Apart;
      moved := numBytes;
      if numBytes.None? || buffer == null || numBytes.value == 0 {
        return InvalidParameter, moved;
      }
      var size := numBytes.value;
      var located, lbaAddress, lbaLength, _ := GetLbaAddress(instance, lba);
      status := located;
      if status != Success {
        return status, moved;
      }
      var attributes := GetVolumeAttributes(instance);
      if attributes & READ_STATUS == 0 {
        return AccessDenied, moved;
      }
      if blockOffset > lbaLength {
        return InvalidParameter, moved;
      }
      if lbaLength < size + blockOffset {
        size := lbaLength - blockOffset;
        status := BadBufferSize;
      }
      ghost var t := TransferOutcome(volumes[instance], READ_STATUS, lba, blockOffset, numBytes.value);
      assert t == Transfer(status, size);
      CopyMem(buffer, 0, flash, lbaAddress + blockOffset, size);
      return status, Some(size);
    }

    method WriteBlock(instance: nat, lba: nat, blockOffset: nat, numBytes: Option<nat>, buffer: array?<byte>)
      returns (status: Status, moved: Option<nat>)
      requires Valid() && instance < numFv
      requires buffer != null ==> buffer != flash && (numBytes.Some? ==> numBytes.value <= buffer.Length)
      modifies flash
      ensures Valid()
      ensures if numBytes.None? || buffer == null then
                status == InvalidParameter && moved == numBytes && State() == old(State())
              else
                var t := TransferOutcome(volumes[instance], WRITE_STATUS, lba, blockOffset, numBytes.value);
                && status == t.status && moved == Some(t.numBytes)
                && State() == Step(old(State()), Write(instance, lba, blockOffset, buffer[..numBytes.value]))
    {
      hide Laid, Apart;
      moved := numBytes;
      if numBytes.None? || buffer == null || numBytes.value == 0 {
        return InvalidParameter, moved;
      }
      var size := numBytes.value;
      var located, lbaAddress, lbaLength, _ := GetLbaAddress(instance, lba);
      status := located;
      if status != Success {
        return status, moved;
      }
      var attributes := GetVolumeAttributes(instance);
      if attributes & WRITE_STATUS == 0 {
        return AccessDenied, moved;
      }
      if blockOffset > lbaLength {
        return InvalidParameter, moved;
      }
      if lbaLength < size + blockOffset {
        size := lbaLength - blockOffset;
        status := BadBufferSize;
      }
      ghost var t := TransferOutcome(volumes[instance], WRITE_STATUS, lba, blockOffset, numBytes.value);
      assert t == Transfer(status, size);
      CopyMem(flash, lbaAddress + blockOffset, buffer, 0, size);
      assert buffer[0..size] == buffer[..numBytes.value][..size];
      return status, Some(size);
    }

    method EraseOneBlock(instance: nat, lba: nat) returns (status: Status)
      requires Valid() && instance < numFv
      modifies flash
      ensures Valid()
      ensures (status, flash[..]) == EraseRange(volumes[instance], old(flash[..]), lba, 1)
    {
      var attributes := GetVolumeAttributes(instance);
      if attributes & WRITE_STATUS == 0 {
        return AccessDenied;
      }
      var located, lbaAddress, lbaLength, _ := GetLbaAddress(instance, lba);
      status := located;
      if status != Success {
        return status;
      }
      AddressNext(volumes[instance].Sizes(), lba);
      assert volumes[instance].BlockBase(lba + 1) == lbaAddress + lbaLength;
      var data: byte := if attributes & ERASE_POLARITY != 0 then 0xFF else 0x0;
      SetMem(flash, lbaAddress, lbaLength, data);
      return Success;
    }

    method SetVolumeAttributes(instance: nat, request: bv32) returns (status: Status, attributes: bv32)
      requires Valid() && instance < numFv
      modifies this
      ensures Valid() && flash == old(flash)
      ensures State() == Step(old(State()), SetAttributes(instance, request))
      ensures status == SetStatus(old(volumes[instance].header.attributes), request)
      ensures attributes == if status == Success then volumes[instance].header.attributes else request
    {
      hide SetStatus, SetResult;
      var _, offset := GetFvbInstance(instance);
      var record := pool[offset];
      status, attributes := ChangeAttributes(record.header.attributes, request);
      if status != Success {
        FailedRequest(record.header.attributes, request);
        assert volumes[instance := record] == volumes;
        return status, request;
      }
      record := WithAttributes(record, attributes);
      LaidUpdate(pool, poolSize, volumes, instance, record);
      pool := pool[offset := record];
      volumes := volumes[instance := record];
      assert State() == Step(old(State()), SetAttributes(instance, request));
    }

    /** Erases the blocks of one range one after another. */
    method EraseLbas(instance: nat, lba: nat, count: nat) returns (status: Status)
      requires Valid() && instance < numFv
      modifies flash
      ensures Valid()
      ensures (status, flash[..]) == EraseRange(volumes[instance], old(flash[..]), lba, count)
    {
      hide Record.Valid, Laid, Apart;
      var startingLba, numOfLba := lba, count;
      while numOfLba > 0
        invariant Valid()
        invariant EraseRange(volumes[instance], flash[..], startingLba, numOfLba)
               == EraseRange(volumes[instance], old(flash[..]), lba, count)
      {
        EraseRangeFirst(volumes[instance], flash[..], startingLba, numOfLba);
        status := EraseOneBlock(instance, startingLba);
        if status != Success {
          return status;
        }
        startingLba := startingLba + 1;
        numOfLba := numOfLba - 1;
      }
      return Success;
    }

    /** The argument list of the call, without its terminator, is `ranges`. */
    method EraseBlocks(instance: nat, ranges: seq<LbaRange>) returns (status: Status)
      requires Valid() && instance < numFv
      modifies flash
      ensures Valid()
      ensures status == Fvb.EraseBlocks(volumes[instance], old(flash[..]), ranges).0
      ensures State() == Step(old(State()), Erase(instance, ranges))
    {
      var _, offset := GetFvbInstance(instance);
      var numOfBlocks := pool[offset].numOfBlocks;
      ghost var r := volumes[instance];
      assert r.Valid(flash.Length) && numOfBlocks == r.numOfBlocks;
      hide Laid, FvbState.Valid, Record.Valid, EraseRange, EraseRanges;
      var accepted := CheckRanges(ranges, numOfBlocks);
      if !accepted {
        return InvalidParameter;
      }
      var k := 0;
      assert ranges[0..] == ranges;
      while k < |ranges|
        invariant 0 <= k <= |ranges|
        invariant Valid()
        invariant EraseRanges(r, flash[..], ranges[k..]) == EraseRanges(r, old(flash[..]), ranges)
      {
        EraseRangesNext(r, flash[..], ranges, k);
        status := EraseLbas(instance, ranges[k].lba, ranges[k].count);
        if status != Success {
          return status;
        }
        k := k + 1;
      }
      EraseRangesNext(r, flash[..], ranges, k);
      return Success;
    }
  }
}
