/** How the private records of the volumes are laid out one after another in one pool. */
module FvbLayout {
  import opened FvHeader
  import opened Fvb

  /** sizeof (EFI_FW_VOL_INSTANCE) - sizeof (EFI_FIRMWARE_VOLUME_HEADER) of the IA32 build:
      the lock, the two base addresses and the block count that stand before the header copy. */
  const RECORD_PREFIX: nat := 24

  /** A record grows with its header. */
  function RecordSize(r: Record): (size: nat)
    ensures size > 0
  {
    r.header.headerLength + RECORD_PREFIX
  }

  /** Offset of record `i` in the pool: the sizes of all the records before it. */
  function RecordOffset(volumes: seq<Record>, i: nat): nat
    requires i <= |volumes|
  {
    if i == 0 then 0 else RecordOffset(volumes, i - 1) + RecordSize(volumes[i - 1])
  }

  ghost predicate RecordAt(pool: map<nat, Record>, volumes: seq<Record>, i: nat) {
    i < |volumes| ==> RecordOffset(volumes, i) in pool && pool[RecordOffset(volumes, i)] == volumes[i]
  }

  /** Every record lies at its offset, and the pool ends where the last record ends. */
  ghost predicate Laid(pool: map<nat, Record>, poolSize: nat, volumes: seq<Record>) {
    && poolSize == RecordOffset(volumes, |volumes|)
    && (forall i: nat :: RecordAt(pool, volumes, i))
  }

  /** Records do not overlap and stay inside the pool. */
  lemma {:induction false} RecordsApart(volumes: seq<Record>, i: nat, j: nat)
    requires i < j <= |volumes|
    ensures RecordOffset(volumes, i) + RecordSize(volumes[i]) <= RecordOffset(volumes, j)
    ensures RecordOffset(volumes, j) <= RecordOffset(volumes, |volumes|)
    decreases |volumes| - i, |volumes| - j
  {
    if j < |volumes| {
      RecordsApart(volumes, j, |volumes|);
    }
    OffsetsGrow(volumes, i + 1, j);
  }

  lemma {:induction false} OffsetsGrow(volumes: seq<Record>, i: nat, j: nat)
    requires i <= j <= |volumes|
    ensures RecordOffset(volumes, i) <= RecordOffset(volumes, j)
    decreases j - i
  {
    if i < j {
      OffsetsGrow(volumes, i, j - 1);
    }
  }

  /** A record lies behind the headers and the 24 bytes before each header of all the records before it. */
  lemma {:induction false} OffsetIsSum(volumes: seq<Record>, i: nat)
    requires i <= |volumes|
    ensures RecordOffset(volumes, i) == HeaderBytes(volumes[..i]) + 24 * i
  {
    if i > 0 {
      OffsetIsSum(volumes, i - 1);
      assert volumes[..i][..i - 1] == volumes[..i - 1];
    }
  }

  function HeaderBytes(volumes: seq<Record>): nat {
    if volumes == [] then 0 else HeaderBytes(volumes[..|volumes| - 1]) + volumes[|volumes| - 1].header.headerLength
  }

  /** Offsets depend only on the sizes of the records before. */
  lemma {:induction false} SameOffsets(a: seq<Record>, b: seq<Record>, i: nat)
    requires i <= |a| && i <= |b|
    requires forall k :: 0 <= k < i ==> RecordSize(a[k]) == RecordSize(b[k])
    ensures RecordOffset(a, i) == RecordOffset(b, i)
  {
    if i > 0 {
      SameOffsets(a, b, i - 1);
    }
  }

  /** Changing one record to another of the same size keeps the layout. */
  lemma {:induction false} LaidUpdate(pool: map<nat, Record>, poolSize: nat, volumes: seq<Record>, v: nat, r: Record)
    requires Laid(pool, poolSize, volumes) && v < |volumes|
    requires RecordSize(r) == RecordSize(volumes[v])
    ensures Laid(pool[RecordOffset(volumes, v) := r], poolSize, volumes[v := r])
  {
    var pool', volumes' := pool[RecordOffset(volumes, v) := r], volumes[v := r];
    SameOffsets(volumes', volumes, |volumes|);
    forall i: nat
      ensures RecordAt(pool', volumes', i)
    {
      if i < |volumes| {
        SameOffsets(volumes', volumes, i);
        assert RecordAt(pool, volumes, i);
        if i < v { RecordsApart(volumes, i, v); } else if v < i { RecordsApart(volumes, v, i); }
      }
    }
  }

  /** Appending a record at the end of the pool keeps the layout. */
  lemma {:induction false} LaidAppend(pool: map<nat, Record>, poolSize: nat, volumes: seq<Record>, r: Record)
    requires Laid(pool, poolSize, volumes)
    ensures Laid(pool[poolSize := r], poolSize + RecordSize(r), volumes + [r])
  {
    var pool', volumes' := pool[poolSize := r], volumes + [r];
    SameOffsets(volumes', volumes, |volumes|);
    forall i: nat
      ensures RecordAt(pool', volumes', i)
    {
      if i < |volumes| {
        SameOffsets(volumes', volumes, i);
        assert RecordAt(pool, volumes, i);
        RecordsApart(volumes, i, |volumes|);
      }
    }
  }

  lemma {:induction false} LaidEmpty()
    ensures Laid(map[], 0, [])
  {
  }

  lemma {:induction false} LaidEnd(pool: map<nat, Record>, poolSize: nat, volumes: seq<Record>)
    requires Laid(pool, poolSize, volumes)
    ensures poolSize == RecordOffset(volumes, |volumes|)
  {
  }
}
