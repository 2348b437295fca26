/** Which firmware volumes initialisation accepts, with which headers, and what it writes back to the flash. */
module FvbInit {
  import opened Wrappers
  import opened Bytes
  import opened EfiStatus
  import opened FvHeader
  import opened BlockMap
  import opened FvbAttributes
  import opened Fvb
  import opened FvbLayout

  /** What the memory space map says about the base address of a volume. */
  datatype GcdType = LookupFailed | MemoryMappedIo | OtherMemory

  datatype Hob = Hob(base: nat, length: nat, gcd: GcdType)

  /** An entry of the platform table: a header for volumes of one length. */
  datatype MediaInfo = MediaInfo(fvLength: nat, image: seq<byte>)

  /** An accepted volume, its header, and whether the header comes from the platform table. */
  datatype Acceptance = Acceptance(hob: Hob, header: seq<byte>, fromTable: bool)

  function View(flash: seq<byte>, hob: Hob): seq<byte>
    requires hob.base + hob.length <= |flash|
  {
    flash[hob.base..hob.base + hob.length]
  }

  /** The first table entry for a length. */
  function FindInfo(table: seq<MediaInfo>, fvLength: nat): Option<seq<byte>> {
    if table == [] then None
    else if table[0].fvLength == fvLength then Some(table[0].image)
    else FindInfo(table[1..], fvLength)
  }

  predicate HobReadable(flash: seq<byte>, hob: Hob) {
    && hob.base + hob.length <= |flash|
    && (hob.gcd == MemoryMappedIo ==> Readable(View(flash, hob)))
  }

  function Accept(flash: seq<byte>, table: seq<MediaInfo>, hob: Hob): Option<Acceptance>
    requires HobReadable(flash, hob)
  {
    if hob.gcd != MemoryMappedIo then None
    else if ValidHeader(View(flash, hob)) then
      Some(Acceptance(hob, View(flash, hob)[..HeaderLength(View(flash, hob))], false))
    else match FindInfo(table, hob.length)
      case None => None
      case Some(image) => Some(Acceptance(hob, image, true))
  }

  /** The accepted volumes in order. A failed lookup ends the search. */
  function Accepted(flash: seq<byte>, table: seq<MediaInfo>, hobs: seq<Hob>): seq<Acceptance>
    requires forall i :: 0 <= i < |hobs| ==> HobReadable(flash, hobs[i])
  {
    if hobs == [] || hobs[0].gcd == LookupFailed then []
    else match Accept(flash, table, hobs[0])
      case None => Accepted(flash, table, hobs[1..])
      case Some(a) => [a] + Accepted(flash, table, hobs[1..])
  }

  /** A header that describes a volume inside its HOB: complete, with a terminated block map. */
  predicate Sound(a: Acceptance) {
    && MIN_HEADER <= |a.header| <= a.hob.length
    && HeaderLength(a.header) == |a.header|
    && WellFormed(DecodeHeader(a.header).blockMap)
    && Sum(Expand(DecodeHeader(a.header).blockMap)) <= a.hob.length
  }

  predicate HobsApart(a: Hob, b: Hob) {
    a.base + a.length <= b.base || b.base + b.length <= a.base
  }

  /** What initialisation takes for granted about its environment. */
  ghost predicate Environment(flash: seq<byte>, table: seq<MediaInfo>, hobs: seq<Hob>) {
    && (forall i :: 0 <= i < |hobs| ==> HobReadable(flash, hobs[i]))
    && (forall i, j :: 0 <= i < j < |hobs| ==> HobsApart(hobs[i], hobs[j]))
    && (forall k :: 0 <= k < |Accepted(flash, table, hobs)| ==> Sound(Accepted(flash, table, hobs)[k]))
  }

  function RecordOf(a: Acceptance): Record
    requires Sound(a)
  {
    var header := DecodeHeader(a.header);
    Record(a.hob.base, Counted(header.blockMap), header)
  }

  function Records(accepted: seq<Acceptance>): (r: seq<Record>)
    requires forall k :: 0 <= k < |accepted| ==> Sound(accepted[k])
    ensures |r| == |accepted| && forall k :: 0 <= k < |r| ==> r[k] == RecordOf(accepted[k])
  {
    seq(|accepted|, k requires 0 <= k < |accepted| => RecordOf(accepted[k]))
  }

  /** A sound acceptance whose HOB lies in the flash. */
  predicate Fits(a: Acceptance, flashSize: nat) {
    Sound(a) && a.hob.base + a.hob.length <= flashSize
  }

  /** The flash after the healthy headers have been written back. */
  function WriteBack(flash: seq<byte>, accepted: seq<Acceptance>): (flash': seq<byte>)
    requires forall k :: 0 <= k < |accepted| ==> Fits(accepted[k], |flash|)
    ensures |flash'| == |flash|
  {
    if accepted == [] then flash
    else
      var n := |accepted| - 1;
      assert Fits(accepted[n], |flash|);
      var before := WriteBack(flash, accepted[..n]);
      if accepted[n].fromTable then Store(before, accepted[n].hob.base, accepted[n].header) else before
  }

  /** Every accepted volume comes from a HOB of the list. */
  lemma {:induction false} AcceptedIsHob(flash: seq<byte>, table: seq<MediaInfo>, hobs: seq<Hob>, k: nat)
    requires forall i :: 0 <= i < |hobs| ==> HobReadable(flash, hobs[i])
    requires k < |Accepted(flash, table, hobs)|
    ensures exists i :: 0 <= i < |hobs| && hobs[i] == Accepted(flash, table, hobs)[k].hob
  {
    var first := Accept(flash, table, hobs[0]);
    if first.Some? && k == 0 {
      assert hobs[0] == Accepted(flash, table, hobs)[k].hob;
    } else {
      var j := if first.Some? then k - 1 else k;
      AcceptedIsHob(flash, table, hobs[1..], j);
      var i :| 0 <= i < |hobs[1..]| && hobs[1..][i] == Accepted(flash, table, hobs[1..])[j].hob;
      assert hobs[i + 1] == Accepted(flash, table, hobs)[k].hob;
    }
  }

  /** Different accepted volumes come from disjoint HOBs. */
  lemma {:induction false} AcceptedApart(flash: seq<byte>, table: seq<MediaInfo>, hobs: seq<Hob>, k: nat, m: nat)
    requires forall i :: 0 <= i < |hobs| ==> HobReadable(flash, hobs[i])
    requires forall i, j :: 0 <= i < j < |hobs| ==> HobsApart(hobs[i], hobs[j])
    requires k < m < |Accepted(flash, table, hobs)|
    ensures HobsApart(Accepted(flash, table, hobs)[k].hob, Accepted(flash, table, hobs)[m].hob)
  {
    var first := Accept(flash, table, hobs[0]);
    if first.Some? && k == 0 {
      AcceptedIsHob(flash, table, hobs[1..], m - 1);
      var i :| 0 <= i < |hobs[1..]| && hobs[1..][i] == Accepted(flash, table, hobs[1..])[m - 1].hob;
      assert HobsApart(hobs[0], hobs[i + 1]);
    } else {
      var d := if first.Some? then 1 else 0;
      AcceptedApart(flash, table, hobs[1..], k - d, m - d);
    }
  }

  lemma {:induction false} AcceptedFits(flash: seq<byte>, table: seq<MediaInfo>, hobs: seq<Hob>)
    requires Environment(flash, table, hobs)
    ensures forall k :: 0 <= k < |Accepted(flash, table, hobs)| ==> Fits(Accepted(flash, table, hobs)[k], |flash|)
  {
    forall k | 0 <= k < |Accepted(flash, table, hobs)|
      ensures Fits(Accepted(flash, table, hobs)[k], |flash|)
    {
      AcceptedIsHob(flash, table, hobs, k);
      var i :| 0 <= i < |hobs| && hobs[i] == Accepted(flash, table, hobs)[k].hob;
      assert HobReadable(flash, hobs[i]);
    }
  }

  /** The records of the accepted volumes make a valid state. */
  lemma {:induction false} InitialStateValid(flash: seq<byte>, table: seq<MediaInfo>, hobs: seq<Hob>, flash': seq<byte>)
    requires Environment(flash, table, hobs) && |flash'| == |flash|
    ensures FvbState(flash', Records(Accepted(flash, table, hobs))).Valid()
  {
    AcceptedFits(flash, table, hobs);
    var accepted := Accepted(flash, table, hobs);
    var volumes := Records(accepted);
    forall v | 0 <= v < |volumes|
      ensures volumes[v].Valid(|flash'|)
    {
      assert Fits(accepted[v], |flash|);
    }
    forall v, w | 0 <= v < w < |volumes|
      ensures Apart(volumes[v], volumes[w])
    {
      AcceptedApart(flash, table, hobs, v, w);
      assert Sound(accepted[v]) && Sound(accepted[w]);
    }
  }

  /** Byte `i` lies under a header that is written back. */
  predicate Healed(a: Acceptance, i: int) {
    a.fromTable && a.hob.base <= i < a.hob.base + |a.header|
  }

  /** Writing back touches only bytes under table headers. */
  lemma {:induction false} WriteBackFrame(flash: seq<byte>, accepted: seq<Acceptance>, i: nat)
    requires forall k :: 0 <= k < |accepted| ==> Fits(accepted[k], |flash|)
    requires i < |flash| && forall k :: 0 <= k < |accepted| ==> !Healed(accepted[k], i)
    ensures WriteBack(flash, accepted)[i] == flash[i]
  {
    hide Sound;
    if accepted != [] {
      var n := |accepted| - 1;
      WriteBackFrame(flash, accepted[..n], i);
      assert Fits(accepted[n], |flash|) && !Healed(accepted[n], i);
    }
  }

  /** After the write-back every table header stands in the flash as it is in the table. */
  lemma {:induction false} WriteBackHeals(flash: seq<byte>, accepted: seq<Acceptance>, k: nat, i: nat)
    requires forall m :: 0 <= m < |accepted| ==> Fits(accepted[m], |flash|)
    requires forall m, j :: 0 <= m < j < |accepted| ==> HobsApart(accepted[m].hob, accepted[j].hob)
    requires k < |accepted| && Healed(accepted[k], i)
    ensures i < |flash| && WriteBack(flash, accepted)[i] == accepted[k].header[i - accepted[k].hob.base]
  {
    hide DecodeHeader, WellFormed, Expand, Sum;
    var n := |accepted| - 1;
    assert Fits(accepted[k], |flash|) && Fits(accepted[n], |flash|);
    if k < n {
      WriteBackHeals(flash, accepted[..n], k, i);
      assert HobsApart(accepted[k].hob, accepted[n].hob);
      assert !Healed(accepted[n], i);
    }
  }

  /** A pass has looked at the first `k` HOBs and accepted `done`. */
  ghost predicate Progress(flash: seq<byte>, table: seq<MediaInfo>, hobs: seq<Hob>, done: seq<Acceptance>, k: nat)
    requires forall i :: 0 <= i < |hobs| ==> HobReadable(flash, hobs[i])
  {
    && k <= |hobs|
    && Accepted(flash, table, hobs) == done + Accepted(flash, table, hobs[k..])
    && (forall j :: 0 <= j < |done| ==> Fits(done[j], |flash|))
  }

  lemma {:induction false} ProgressStart(flash: seq<byte>, table: seq<MediaInfo>, hobs: seq<Hob>)
    requires Environment(flash, table, hobs)
    ensures Progress(flash, table, hobs, [], 0)
  {
    assert hobs[0..] == hobs;
  }

  lemma {:induction false} ProgressStep(
    flash: seq<byte>, table: seq<MediaInfo>, hobs: seq<Hob>, done: seq<Acceptance>, k: nat)
    requires Environment(flash, table, hobs) && Progress(flash, table, hobs, done, k)
    requires k < |hobs| && hobs[k].gcd != LookupFailed
    ensures HobReadable(flash, hobs[k])
    ensures var one := Accept(flash, table, hobs[k]);
            && Progress(flash, table, hobs, done + (if one.Some? then [one.value] else []), k + 1)
            && (one.Some? ==> Fits(one.value, |flash|))
  {
    assert hobs[k..][1..] == hobs[k + 1..];
    AcceptedFits(flash, table, hobs);
    var one := Accept(flash, table, hobs[k]);
    if one.Some? {
      assert Accepted(flash, table, hobs)[|done|] == one.value;
      assert done + ([one.value] + Accepted(flash, table, hobs[k + 1..]))
          == done + [one.value] + Accepted(flash, table, hobs[k + 1..]);
    } else {
      assert done + [] == done;
    }
  }

  lemma {:induction false} ProgressEnd(
    flash: seq<byte>, table: seq<MediaInfo>, hobs: seq<Hob>, done: seq<Acceptance>, k: nat)
    requires Environment(flash, table, hobs) && Progress(flash, table, hobs, done, k)
    requires k == |hobs| || hobs[k].gcd == LookupFailed
    ensures done == Accepted(flash, table, hobs)
  {
  }

  lemma {:induction false} RecordsAppend(accepted: seq<Acceptance>, a: Acceptance)
    requires forall k :: 0 <= k < |accepted| ==> Sound(accepted[k])
    requires Sound(a)
    ensures Records(accepted + [a]) == Records(accepted) + [RecordOf(a)]
  {
  }

  /** The pool grows by the size of the record of the volume that is accepted next. */
  lemma {:induction false} PoolGrows(accepted: seq<Acceptance>, a: Acceptance)
    requires Sound(a) && forall k :: 0 <= k < |accepted| ==> Sound(accepted[k])
    ensures var all := accepted + [a];
            && Records(all) == Records(accepted) + [RecordOf(a)]
            && RecordOffset(Records(all), |all|)
            == RecordOffset(Records(accepted), |accepted|) + HeaderLength(a.header) + RECORD_PREFIX
  {
    var all := accepted + [a];
    assert Records(all) == Records(accepted) + [RecordOf(a)];
    hide WellFormed, Expand, Sum, Counted;
    SameOffsets(Records(all), Records(accepted), |accepted|);
  }

  /** Whether a HOB is accepted, and with which header, depends only on its own bytes. */
  lemma {:induction false} SameViewSameAcceptance(flash: seq<byte>, flash': seq<byte>, table: seq<MediaInfo>, hob: Hob)
    requires HobReadable(flash, hob) && |flash'| == |flash|
    requires View(flash', hob) == View(flash, hob)
    ensures HobReadable(flash', hob) && Accept(flash', table, hob) == Accept(flash, table, hob)
  {
  }

  lemma {:induction false} AcceptedHob(flash: seq<byte>, table: seq<MediaInfo>, hob: Hob)
    requires HobReadable(flash, hob)
    ensures Accept(flash, table, hob).Some? ==> Accept(flash, table, hob).value.hob == hob
  {
  }

  /** The flash when initialisation is done. */
  ghost function InitialFlash(flash: seq<byte>, table: seq<MediaInfo>, hobs: seq<Hob>): (flash': seq<byte>)
    requires Environment(flash, table, hobs)
    ensures |flash'| == |flash|
  {
    AcceptedFits(flash, table, hobs);
    WriteBack(flash, Accepted(flash, table, hobs))
  }

  lemma {:induction false} WriteBackStep(flash: seq<byte>, accepted: seq<Acceptance>, a: Acceptance)
    requires Fits(a, |flash|) && forall k :: 0 <= k < |accepted| ==> Fits(accepted[k], |flash|)
    ensures var before := WriteBack(flash, accepted);
            WriteBack(flash, accepted + [a]) == if a.fromTable then Store(before, a.hob.base, a.header) else before
  {
    assert (accepted + [a])[..|accepted|] == accepted;
  }

  /** Writing one header back does not touch the HOBs that come later. */
  lemma {:induction false} ViewsKept(flash: seq<byte>, hobs: seq<Hob>, k: nat, a: Acceptance)
    requires forall i :: 0 <= i < |hobs| ==> hobs[i].base + hobs[i].length <= |flash|
    requires forall i, j :: 0 <= i < j < |hobs| ==> HobsApart(hobs[i], hobs[j])
    requires k < |hobs| && a.hob == hobs[k] && Fits(a, |flash|)
    ensures forall i :: k < i < |hobs| ==> View(Store(flash, a.hob.base, a.header), hobs[i]) == View(flash, hobs[i])
  {
    var stored := Store(flash, a.hob.base, a.header);
    forall i | k < i < |hobs|
      ensures View(stored, hobs[i]) == View(flash, hobs[i])
    {
      assert HobsApart(hobs[k], hobs[i]);
    }
  }

  /** The search of the platform table. */
  method GetFvbInfo(table: seq<MediaInfo>, fvLength: nat) returns (status: Status, image: seq<byte>)
    ensures status == Success <==> exists k :: 0 <= k < |table| && table[k].fvLength == fvLength
    ensures if status == Success then FindInfo(table, fvLength) == Some(image)
            else status == NotFound && FindInfo(table, fvLength) == None
  {
    var index := 0;
    assert table[0..] == table;
    while index < |table|
      invariant 0 <= index <= |table|
      invariant forall k :: 0 <= k < index ==> table[k].fvLength != fvLength
      invariant FindInfo(table, fvLength) == FindInfo(table[index..], fvLength)
    {
      if table[index].fvLength == fvLength {
        return Success, table[index].image;
      }
      assert table[index..][1..] == table[index + 1..];
      index := index + 1;
    }
    return NotFound, [];
  }

  /** The number of blocks of a volume, counted entry by entry. */
  method CountBlocks(blockMap: seq<BlockMapEntry>) returns (numOfBlocks: nat)
    requires WellFormed(blockMap)
    ensures numOfBlocks == Counted(blockMap)
  {
    numOfBlocks := 0;
    var i := 0;
    assert blockMap[0..] == blockMap;
    while blockMap[i].numBlocks != 0
      invariant 0 <= i < |blockMap|
      invariant exists k :: i <= k < |blockMap| && blockMap[k].numBlocks == 0
      invariant Counted(blockMap) == numOfBlocks + Counted(blockMap[i..])
      decreases |blockMap| - i
    {
      assert blockMap[i..][1..] == blockMap[i + 1..];
      numOfBlocks := numOfBlocks + blockMap[i].numBlocks;
      i := i + 1;
    }
  }
}
