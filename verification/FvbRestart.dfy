/** Initialisation after a restart: the flash that it leaves gives the same volumes again. */
module FvbRestart {
  import opened Wrappers
  import opened Bytes
  import opened FvHeader
  import opened BlockMap
  import opened Fvb
  import opened FvbInit

  /** The search of the HOBs comes to number `m`. */
  predicate HobReached(hobs: seq<Hob>, m: nat) {
    m < |hobs| && forall j :: 0 <= j <= m ==> hobs[j].gcd != LookupFailed
  }

  ghost predicate AllReadable(flash: seq<byte>, hobs: seq<Hob>) {
    forall i :: 0 <= i < |hobs| ==> HobReadable(flash, hobs[i])
  }

  /** Every accepted volume is the acceptance of a HOB that was reached. */
  lemma {:induction false} AcceptedFrom(flash: seq<byte>, table: seq<MediaInfo>, hobs: seq<Hob>, k: nat)
    returns (m: nat)
    requires AllReadable(flash, hobs)
    requires k < |Accepted(flash, table, hobs)|
    ensures HobReached(hobs, m) && Accept(flash, table, hobs[m]) == Some(Accepted(flash, table, hobs)[k])
  {
    hide Accept;
    var first := Accept(flash, table, hobs[0]);
    if first.Some? && k == 0 {
      m := 0;
    } else {
      m := AcceptedFrom(flash, table, hobs[1..], if first.Some? then k - 1 else k);
      m := m + 1;
    }
  }

  /** Every HOB that is reached and acceptable is accepted. */
  lemma {:induction false} AcceptedAt(flash: seq<byte>, table: seq<MediaInfo>, hobs: seq<Hob>, m: nat)
    returns (k: nat)
    requires AllReadable(flash, hobs)
    requires HobReached(hobs, m) && Accept(flash, table, hobs[m]).Some?
    ensures k < |Accepted(flash, table, hobs)|
    ensures Accept(flash, table, hobs[m]) == Some(Accepted(flash, table, hobs)[k])
  {
    hide Accept;
    var first := Accept(flash, table, hobs[0]);
    if m == 0 {
      k := 0;
    } else {
      assert hobs[0].gcd != LookupFailed;
      k := AcceptedAt(flash, table, hobs[1..], m - 1);
      k := if first.Some? then k + 1 else k;
    }
  }

  /** The same volume with the same header, wherever the header comes from. */
  predicate SameVolume(a: Option<Acceptance>, b: Option<Acceptance>) {
    if a.None? then b.None? else b.Some? && b.value.hob == a.value.hob && b.value.header == a.value.header
  }

  lemma {:induction false} SameAccepted(flash: seq<byte>, flash': seq<byte>, table: seq<MediaInfo>, hobs: seq<Hob>)
    requires AllReadable(flash, hobs) && AllReadable(flash', hobs)
    requires forall m: nat :: HobReached(hobs, m) ==>
               SameVolume(Accept(flash, table, hobs[m]), Accept(flash', table, hobs[m]))
    ensures |Accepted(flash', table, hobs)| == |Accepted(flash, table, hobs)|
    ensures forall k :: 0 <= k < |Accepted(flash, table, hobs)| ==>
              SameVolume(Some(Accepted(flash, table, hobs)[k]), Some(Accepted(flash', table, hobs)[k]))
  {
    hide Accept;
    if hobs != [] && hobs[0].gcd != LookupFailed {
      assert HobReached(hobs, 0);
      forall m: nat | HobReached(hobs[1..], m)
        ensures SameVolume(Accept(flash, table, hobs[1..][m]), Accept(flash', table, hobs[1..][m]))
      {
        assert HobReached(hobs, m + 1);
      }
      SameAccepted(flash, flash', table, hobs[1..]);
    }
  }

  // ---------------------------------------------------------------- One HOB

  /** A HOB whose volume got no header from the table is left alone. */
  lemma {:induction false} OthersKeepView(flash: seq<byte>, table: seq<MediaInfo>, hobs: seq<Hob>, m: nat)
    requires Environment(flash, table, hobs) && m < |hobs|
    requires HobReached(hobs, m) ==>
               var a := Accept(flash, table, hobs[m]);
               a.None? || !a.value.fromTable
    ensures View(InitialFlash(flash, table, hobs), hobs[m]) == View(flash, hobs[m])
  {
    hide Accept, Accepted, WriteBack, Sound;
    var accepted, after := Accepted(flash, table, hobs), InitialFlash(flash, table, hobs);
    AcceptedFits(flash, table, hobs);
    forall i: nat | hobs[m].base <= i < hobs[m].base + hobs[m].length
      ensures after[i] == flash[i]
    {
      forall k | 0 <= k < |accepted|
        ensures !Healed(accepted[k], i)
      {
        NotHealed(flash, table, hobs, m, k, i);
      }
      WriteBackFrame(flash, accepted, i);
    }
  }

  lemma {:induction false} NotHealed(
    flash: seq<byte>, table: seq<MediaInfo>, hobs: seq<Hob>, m: nat, k: nat, i: nat)
    requires Environment(flash, table, hobs) && m < |hobs| && k < |Accepted(flash, table, hobs)|
    requires HobReached(hobs, m) ==>
               var a := Accept(flash, table, hobs[m]);
               a.None? || !a.value.fromTable
    requires hobs[m].base <= i < hobs[m].base + hobs[m].length
    ensures !Healed(Accepted(flash, table, hobs)[k], i)
  {
    var a := Accepted(flash, table, hobs)[k];
    var n := AcceptedFrom(flash, table, hobs, k);
    assert Sound(a);
    AcceptedHob(flash, table, hobs[n]);
    hide Accept, Accepted;
    if n < m {
      assert HobsApart(hobs[n], hobs[m]);
    } else if m < n {
      assert HobsApart(hobs[m], hobs[n]);
    }
  }

  lemma {:induction false} AllApart(flash: seq<byte>, table: seq<MediaInfo>, hobs: seq<Hob>)
    requires Environment(flash, table, hobs)
    ensures var accepted := Accepted(flash, table, hobs);
            forall j, n :: 0 <= j < n < |accepted| ==> HobsApart(accepted[j].hob, accepted[n].hob)
  {
    var accepted := Accepted(flash, table, hobs);
    hide HobsApart, Sound;
    forall j, n | 0 <= j < n < |accepted|
      ensures HobsApart(accepted[j].hob, accepted[n].hob)
    {
      AcceptedApart(flash, table, hobs, j, n);
    }
  }

  lemma {:induction false} TableHeadersStand(
    flash: seq<byte>, table: seq<MediaInfo>, hobs: seq<Hob>, k: nat, i: nat)
    requires Environment(flash, table, hobs)
    requires k < |Accepted(flash, table, hobs)| && Healed(Accepted(flash, table, hobs)[k], i)
    ensures var a, after := Accepted(flash, table, hobs)[k], InitialFlash(flash, table, hobs);
            i < |after| && after[i] == a.header[i - a.hob.base]
  {
    hide Accepted, WriteBack, Fits, HobsApart, Sound, HobReadable;
    AllApart(flash, table, hobs);
    AcceptedFits(flash, table, hobs);
    WriteBackHeals(flash, Accepted(flash, table, hobs), k, i);
  }

  /** A header from the table stands in the flash. */
  lemma {:induction false} HeaderStands(flash: seq<byte>, table: seq<MediaInfo>, hobs: seq<Hob>, m: nat)
    requires Environment(flash, table, hobs) && HobReached(hobs, m)
    requires Accept(flash, table, hobs[m]).Some? && Accept(flash, table, hobs[m]).value.fromTable
    ensures var a := Accept(flash, table, hobs[m]).value;
            && a.hob == hobs[m] && Sound(a)
            && a.header <= View(InitialFlash(flash, table, hobs), hobs[m])
  {
    AcceptedHob(flash, table, hobs[m]);
    hide Accept, InitialFlash;
    var after := InitialFlash(flash, table, hobs);
    var k := AcceptedAt(flash, table, hobs, m);
    var a := Accepted(flash, table, hobs)[k];
    assert Sound(a);
    hide Accepted;
    forall j: nat | j < |a.header|
      ensures View(after, hobs[m])[j] == a.header[j]
    {
      TableHeadersStand(flash, table, hobs, k, a.hob.base + j);
    }
  }

  /** A view that begins with the header that the table has for it is accepted with this header, valid or not. */
  lemma {:induction false} TableHeaderAgain(flash: seq<byte>, table: seq<MediaInfo>, hob: Hob, a: Acceptance)
    requires hob.base + hob.length <= |flash| && hob.gcd == MemoryMappedIo
    requires a.hob == hob && Sound(a) && FindInfo(table, hob.length) == Some(a.header)
    requires a.header <= View(flash, hob)
    ensures HobReadable(flash, hob)
    ensures SameVolume(Some(a), Accept(flash, table, hob))
  {
    hide WellFormed, Expand, Sum, DecodeHeader, WordSum;
    var view := View(flash, hob);
    assert view[48] == a.header[48] && view[49] == a.header[49];
    assert HeaderLength(view) == |a.header|;
    assert view[..|a.header|] == a.header;
  }

  lemma {:induction false} FromTable(flash: seq<byte>, table: seq<MediaInfo>, hob: Hob)
    requires HobReadable(flash, hob)
    ensures var a := Accept(flash, table, hob);
            a.Some? && a.value.fromTable
            ==> hob.gcd == MemoryMappedIo && FindInfo(table, hob.length) == Some(a.value.header)
  {
  }

  lemma {:induction false} HobAgain(flash: seq<byte>, table: seq<MediaInfo>, hobs: seq<Hob>, m: nat)
    requires Environment(flash, table, hobs) && m < |hobs|
    ensures var after := InitialFlash(flash, table, hobs);
            && HobReadable(after, hobs[m])
            && (HobReached(hobs, m) ==>
                  SameVolume(Accept(flash, table, hobs[m]), Accept(after, table, hobs[m])))
  {
    var after := InitialFlash(flash, table, hobs);
    var a := Accept(flash, table, hobs[m]);
    if HobReached(hobs, m) && a.Some? && a.value.fromTable {
      HeaderStands(flash, table, hobs, m);
      FromTable(flash, table, hobs[m]);
      TableHeaderAgain(after, table, hobs[m], a.value);
    } else {
      OthersKeepView(flash, table, hobs, m);
      SameViewSameAcceptance(flash, after, table, hobs[m]);
    }
  }

  // ---------------------------------------------------------------- All HOBs

  lemma {:induction false} AcceptedAgain(flash: seq<byte>, table: seq<MediaInfo>, hobs: seq<Hob>)
    requires Environment(flash, table, hobs)
    ensures var after := InitialFlash(flash, table, hobs);
            && AllReadable(after, hobs)
            && |Accepted(after, table, hobs)| == |Accepted(flash, table, hobs)|
            && forall k :: 0 <= k < |Accepted(flash, table, hobs)| ==>
                 SameVolume(Some(Accepted(flash, table, hobs)[k]), Some(Accepted(after, table, hobs)[k]))
  {
    hide Accept, Accepted, InitialFlash;
    var after := InitialFlash(flash, table, hobs);
    forall m: nat | m < |hobs|
      ensures HobReadable(after, hobs[m])
      ensures HobReached(hobs, m) ==> SameVolume(Accept(flash, table, hobs[m]), Accept(after, table, hobs[m]))
    {
      HobAgain(flash, table, hobs, m);
    }
    SameAccepted(flash, after, table, hobs);
  }

  lemma {:induction false} EnvironmentAgain(flash: seq<byte>, table: seq<MediaInfo>, hobs: seq<Hob>)
    requires Environment(flash, table, hobs)
    ensures var after := InitialFlash(flash, table, hobs);
            && Environment(after, table, hobs)
            && Records(Accepted(after, table, hobs)) == Records(Accepted(flash, table, hobs))
  {
    AcceptedAgain(flash, table, hobs);
    hide Accepted, InitialFlash;
    var after := InitialFlash(flash, table, hobs);
    var first, second := Accepted(flash, table, hobs), Accepted(after, table, hobs);
    forall k | 0 <= k < |second|
      ensures Sound(second[k]) && RecordOf(second[k]) == RecordOf(first[k])
    {
      assert Sound(first[k]) && SameVolume(Some(first[k]), Some(second[k]));
    }
    assert Environment(after, table, hobs);
  }

  /** Every accepted header stands in the flash, whether it came from there or from the table. */
  lemma {:induction false} EveryHeaderStands(flash: seq<byte>, table: seq<MediaInfo>, hobs: seq<Hob>, m: nat)
    requires Environment(flash, table, hobs) && HobReached(hobs, m) && Accept(flash, table, hobs[m]).Some?
    ensures var a := Accept(flash, table, hobs[m]).value;
            a.hob == hobs[m] && a.header <= View(InitialFlash(flash, table, hobs), hobs[m])
  {
    AcceptedHob(flash, table, hobs[m]);
    if Accept(flash, table, hobs[m]).value.fromTable {
      HeaderStands(flash, table, hobs, m);
    } else {
      OthersKeepView(flash, table, hobs, m);
    }
  }

  /** The accepted volumes of an environment. */
  ghost function Volumes(flash: seq<byte>, table: seq<MediaInfo>, hobs: seq<Hob>): seq<Acceptance>
    requires Environment(flash, table, hobs)
  {
    Accepted(flash, table, hobs)
  }

  predicate Under(a: Acceptance, i: nat) {
    a.hob.base <= i < a.hob.base + |a.header|
  }

  lemma {:induction false} AcceptedHeaderStands(
    flash: seq<byte>, table: seq<MediaInfo>, hobs: seq<Hob>, k: nat, i: nat)
    requires Environment(flash, table, hobs)
    requires k < |Volumes(flash, table, hobs)| && Under(Volumes(flash, table, hobs)[k], i)
    ensures var a, after := Volumes(flash, table, hobs)[k], InitialFlash(flash, table, hobs);
            i < |after| && after[i] == a.header[i - a.hob.base]
  {
    hide Environment, Volumes, InitialFlash;
    var m := VolumeFrom(flash, table, hobs, k);
    HeaderByte(InitialFlash(flash, table, hobs), hobs[m], Volumes(flash, table, hobs)[k], i);
  }

  lemma {:induction false} VolumeFrom(flash: seq<byte>, table: seq<MediaInfo>, hobs: seq<Hob>, k: nat)
    returns (m: nat)
    requires Environment(flash, table, hobs) && k < |Volumes(flash, table, hobs)|
    ensures m < |hobs| && hobs[m].base + hobs[m].length <= |flash|
    ensures Volumes(flash, table, hobs)[k].hob == hobs[m]
    ensures Volumes(flash, table, hobs)[k].header <= View(InitialFlash(flash, table, hobs), hobs[m])
  {
    m := AcceptedFrom(flash, table, hobs, k);
    EveryHeaderStands(flash, table, hobs, m);
    hide Accept, Accepted, InitialFlash;
  }

  lemma {:induction false} TableByteStands(
    flash: seq<byte>, table: seq<MediaInfo>, hobs: seq<Hob>, k: nat, i: nat)
    requires Environment(flash, table, hobs)
    requires k < |Volumes(flash, table, hobs)| && Healed(Volumes(flash, table, hobs)[k], i)
    ensures var a, after := Volumes(flash, table, hobs)[k], InitialFlash(flash, table, hobs);
            i < |after| && after[i] == a.header[i - a.hob.base]
  {
    TableHeadersStand(flash, table, hobs, k, i);
    hide Accepted, InitialFlash;
  }

  lemma {:induction false} HeaderByte(flash: seq<byte>, hob: Hob, a: Acceptance, i: nat)
    requires hob.base + hob.length <= |flash| && a.hob == hob && a.header <= View(flash, hob) && Under(a, i)
    ensures i < |flash| && flash[i] == a.header[i - hob.base]
  {
    assert View(flash, hob)[i - hob.base] == a.header[i - hob.base];
  }

  lemma {:induction false} VolumesAgain(flash: seq<byte>, table: seq<MediaInfo>, hobs: seq<Hob>, k: nat)
    requires Environment(flash, table, hobs) && Environment(InitialFlash(flash, table, hobs), table, hobs)
    requires k < |Volumes(InitialFlash(flash, table, hobs), table, hobs)|
    ensures k < |Volumes(flash, table, hobs)|
    ensures var a, b := Volumes(flash, table, hobs)[k], Volumes(InitialFlash(flash, table, hobs), table, hobs)[k];
            a.hob == b.hob && a.header == b.header
  {
    AcceptedAgain(flash, table, hobs);
    hide Accepted, InitialFlash;
    var after := InitialFlash(flash, table, hobs);
    assert SameVolume(Some(Accepted(flash, table, hobs)[k]), Some(Accepted(after, table, hobs)[k]));
  }

  lemma {:induction false} ByteAgain(flash: seq<byte>, table: seq<MediaInfo>, hobs: seq<Hob>, k: nat, i: nat)
    requires Environment(flash, table, hobs) && Environment(InitialFlash(flash, table, hobs), table, hobs)
    requires var volumes := Volumes(InitialFlash(flash, table, hobs), table, hobs);
             k < |volumes| && Healed(volumes[k], i)
    ensures var after := InitialFlash(flash, table, hobs);
            i < |after| && InitialFlash(after, table, hobs)[i] == after[i]
  {
    hide Volumes, Environment, InitialFlash;
    TableByteStands(InitialFlash(flash, table, hobs), table, hobs, k, i);
    VolumesAgain(flash, table, hobs, k);
    AcceptedHeaderStands(flash, table, hobs, k, i);
  }

  lemma {:induction false} FlashAgain(flash: seq<byte>, table: seq<MediaInfo>, hobs: seq<Hob>)
    requires Environment(flash, table, hobs) && Environment(InitialFlash(flash, table, hobs), table, hobs)
    ensures InitialFlash(InitialFlash(flash, table, hobs), table, hobs) == InitialFlash(flash, table, hobs)
  {
    var after := InitialFlash(flash, table, hobs);
    AcceptedFits(after, table, hobs);
    var second, again := Accepted(after, table, hobs), InitialFlash(after, table, hobs);
    hide Accepted, WriteBack, Fits, Environment;
    forall i: nat | i < |after|
      ensures again[i] == after[i]
    {
      if k: nat :| k < |second| && Healed(second[k], i) {
        ByteAgain(flash, table, hobs, k, i);
      } else {
        WriteBackFrame(after, second, i);
      }
    }
  }

  /** Initialising again gives the same records and changes no byte, whether or not the table headers are valid
      volume headers. */
  lemma {:induction false} RestartIsStable(flash: seq<byte>, table: seq<MediaInfo>, hobs: seq<Hob>)
    requires Environment(flash, table, hobs)
    ensures var after := InitialFlash(flash, table, hobs);
            && Environment(after, table, hobs)
            && Records(Accepted(after, table, hobs)) == Records(Accepted(flash, table, hobs))
            && InitialFlash(after, table, hobs) == after
  {
    EnvironmentAgain(flash, table, hobs);
    FlashAgain(flash, table, hobs);
  }
}
