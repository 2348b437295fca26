/** The attribute word of a firmware volume and the rules for changing it
    (section 3.4.2 of Volume 3 of the PI Specification). */
module FvbAttributes {
  import opened EfiStatus

  const READ_DISABLED_CAP: bv32 := 0x0000_0001
  const READ_ENABLED_CAP: bv32 := 0x0000_0002
  const READ_STATUS: bv32 := 0x0000_0004
  const WRITE_DISABLED_CAP: bv32 := 0x0000_0008
  const WRITE_ENABLED_CAP: bv32 := 0x0000_0010
  const WRITE_STATUS: bv32 := 0x0000_0020
  const LOCK_CAP: bv32 := 0x0000_0040
  const LOCK_STATUS: bv32 := 0x0000_0080
  const STICKY_WRITE: bv32 := 0x0000_0200
  const MEMORY_MAPPED: bv32 := 0x0000_0400
  const ERASE_POLARITY: bv32 := 0x0000_0800
  const READ_LOCK_CAP: bv32 := 0x0000_1000
  const WRITE_LOCK_CAP: bv32 := 0x0000_4000
  const ALIGNMENT: bv32 := 0x001F_0000
  const ALIGNMENT_16: bv32 := 0x0004_0000

  const STATUS_BITS: bv32 := READ_STATUS | WRITE_STATUS | LOCK_STATUS

  const UNCHANGED_BITS: bv32 :=
    READ_DISABLED_CAP | READ_ENABLED_CAP | WRITE_DISABLED_CAP | WRITE_ENABLED_CAP | LOCK_CAP | STICKY_WRITE
    | MEMORY_MAPPED | ERASE_POLARITY | READ_LOCK_CAP | WRITE_LOCK_CAP | ALIGNMENT

  /** The attributes of every header in the platform table. */
  const PLATFORM_ATTRIBUTES: bv32 :=
    MEMORY_MAPPED | READ_ENABLED_CAP | READ_STATUS | WRITE_ENABLED_CAP | WRITE_STATUS | ERASE_POLARITY | ALIGNMENT_16

  predicate Has(attributes: bv32, bit: bv32) {
    attributes & bit != 0
  }

  /** Every status bit of the word has a value that the capability bits of the same word allow. */
  predicate Supported(a: bv32) {
    && (if Has(a, READ_STATUS) then Has(a, READ_ENABLED_CAP) else Has(a, READ_DISABLED_CAP))
    && (if Has(a, WRITE_STATUS) then Has(a, WRITE_ENABLED_CAP) else Has(a, WRITE_DISABLED_CAP))
    && (Has(a, LOCK_STATUS) ==> Has(a, LOCK_CAP))
  }

  /** `current` with the status bits of `request`. */
  function Updated(current: bv32, request: bv32): bv32 {
    (current & !STATUS_BITS) | (request & STATUS_BITS)
  }

  lemma {:induction false} SplitStatus(a: bv32)
    ensures (a & !STATUS_BITS) | (a & STATUS_BITS) == a
  {
  }

  /** The status bits of the request and the other bits of the word determine the updated word. */
  lemma {:induction false} UpdatedUnique(current: bv32, request: bv32, attributes: bv32)
    requires attributes & STATUS_BITS == request & STATUS_BITS
    requires attributes & !STATUS_BITS == current & !STATUS_BITS
    ensures attributes == Updated(current, request)
  {
    SplitStatus(attributes);
  }

  function SetStatus(current: bv32, request: bv32): Status {
    if current & UNCHANGED_BITS != request & UNCHANGED_BITS then InvalidParameter
    else if Has(current, LOCK_STATUS) && current & STATUS_BITS != request & STATUS_BITS then AccessDenied
    else if !Supported(Updated(current, request)) then InvalidParameter
    else Success
  }

  /** The attribute word after a request: a failed request leaves it alone. */
  function SetResult(current: bv32, request: bv32): bv32 {
    if SetStatus(current, request) == Success then Updated(current, request) else current
  }

  lemma {:induction false} FailedRequest(current: bv32, request: bv32)
    requires SetStatus(current, request) != Success
    ensures SetResult(current, request) == current
  {
  }

  /** The attribute word after a run of requests. */
  function SetAll(current: bv32, requests: seq<bv32>): bv32
    decreases |requests|
  {
    if requests == [] then current else SetAll(SetResult(current, requests[0]), requests[1..])
  }

  /** Only the three status bits can ever change, and agreement with the capabilities is kept. */
  lemma {:induction false} RunKeepsCapabilities(current: bv32, requests: seq<bv32>)
    ensures SetAll(current, requests) & !STATUS_BITS == current & !STATUS_BITS
    ensures Supported(current) ==> Supported(SetAll(current, requests))
    decreases |requests|
  {
    if requests != [] {
      RunKeepsCapabilities(SetResult(current, requests[0]), requests[1..]);
    }
  }

  /** A word that no request can change stays as it is over every run. */
  lemma {:induction false} RunKeepsFixed(current: bv32, requests: seq<bv32>)
    requires forall request: bv32 :: SetResult(current, request) == current
    ensures SetAll(current, requests) == current
  {
    if requests != [] {
      RunKeepsFixed(current, requests[1..]);
    }
  }

  /** A set lock bit is permanent, and with it the whole word. */
  lemma {:induction false} LockIsPermanent(current: bv32, requests: seq<bv32>)
    requires Has(current, LOCK_STATUS)
    ensures SetAll(current, requests) == current
  {
    RunKeepsFixed(current, requests);
  }

  /** No run changes the attributes of a volume whose header came from the platform table. */
  lemma {:induction false} PlatformIsFixed(requests: seq<bv32>)
    ensures SetAll(PLATFORM_ATTRIBUTES, requests) == PLATFORM_ATTRIBUTES
  {
    RunKeepsFixed(PLATFORM_ATTRIBUTES, requests);
  }

  /** A request is accepted exactly when it is itself a supported word with the same fixed bits, and has the same
      status bits if the volume is locked. Then its status bits are the new ones and no other bit moves. */
  lemma {:induction false} AcceptedRequests(current: bv32, request: bv32)
    ensures SetStatus(current, request) == Success <==>
            (&& request & UNCHANGED_BITS == current & UNCHANGED_BITS
             && (Has(current, LOCK_STATUS) ==> request & STATUS_BITS == current & STATUS_BITS)
             && Supported(request))
    ensures SetStatus(current, request) == Success ==>
              && SetResult(current, request) & STATUS_BITS == request & STATUS_BITS
              && Supported(SetResult(current, request))
  {
    if current & UNCHANGED_BITS == request & UNCHANGED_BITS {
      var updated := Updated(current, request);
      assert updated & STATUS_BITS == request & STATUS_BITS;
      assert updated & UNCHANGED_BITS == current & UNCHANGED_BITS;
      SameCapabilities(updated, request);
    }
  }

  /** Reading off (bit 2) needs bit 0 and reading on bit 1, writing off (bit 5) needs bit 3 and writing on bit 4, and
      the lock (bit 7) needs bit 6. */
  predicate BitsAgree(a: bv32) {
    && (if a & 0x04 != 0 then a & 0x02 != 0 else a & 0x01 != 0)
    && (if a & 0x20 != 0 then a & 0x10 != 0 else a & 0x08 != 0)
    && (a & 0x80 != 0 ==> a & 0x40 != 0)
  }

  lemma {:induction false} SupportedBits(a: bv32)
    ensures Supported(a) <==> BitsAgree(a)
  {
  }

  lemma {:induction false} LockBit(a: bv32)
    ensures Has(a, LOCK_STATUS) <==> a & 0x80 != 0
  {
  }

  lemma {:induction false} SameFixedBits(a: bv32, b: bv32)
    ensures b & UNCHANGED_BITS == a & UNCHANGED_BITS <==> b & 0x001F_5E5B == a & 0x001F_5E5B
  {
  }

  lemma {:induction false} SameStatusBits(a: bv32, b: bv32)
    ensures b & STATUS_BITS == a & STATUS_BITS <==> b & 0xA4 == a & 0xA4
  {
  }

  /** The requests that succeed, bit by bit: the status bits agree with the bits beside them, they stay on a locked
      volume, and all other bits that have a meaning stay. */
  lemma {:induction false} AcceptedBits(current: bv32, request: bv32)
    ensures SetStatus(current, request) == Success <==>
            && request & 0x001F_5E5B == current & 0x001F_5E5B
            && (current & 0x80 != 0 ==> request & 0xA4 == current & 0xA4)
            && BitsAgree(request)
  {
    hide SetStatus, SetResult, Supported, BitsAgree, Has;
    AcceptedRequests(current, request);
    SupportedBits(request);
    LockBit(current);
    SameFixedBits(current, request);
    SameStatusBits(current, request);
  }

  /** Supported looks only at status bits and fixed bits. */
  lemma {:induction false} SupportedMask(a: bv32)
    ensures Supported(a) == Supported(a & (STATUS_BITS | UNCHANGED_BITS))
  {
  }

  lemma {:induction false} SplitMask(a: bv32)
    ensures a & (STATUS_BITS | UNCHANGED_BITS) == (a & STATUS_BITS) | (a & UNCHANGED_BITS)
  {
  }

  lemma {:induction false} SameCapabilities(a: bv32, b: bv32)
    requires a & STATUS_BITS == b & STATUS_BITS
    requires a & UNCHANGED_BITS == b & UNCHANGED_BITS
    ensures Supported(a) == Supported(b)
  {
    SupportedMask(a);
    SupportedMask(b);
    SplitMask(a);
    SplitMask(b);
  }
}
