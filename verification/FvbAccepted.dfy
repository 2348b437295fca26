/** Which HOBs become volumes, with which headers, and under which instance numbers. */
module FvbAccepted {
  import opened Wrappers
  import opened Bytes
  import opened FvHeader
  import opened BlockMap
  import opened Fvb
  import opened FvbInit
  import opened FvbRestart

  /** A HOB is a volume if and only if it is flash and its header is valid or the table has one for its length. */
  lemma {:induction false} AcceptedIff(flash: seq<byte>, table: seq<MediaInfo>, hob: Hob)
    requires HobReadable(flash, hob)
    ensures Accept(flash, table, hob).Some?
       <==> && hob.gcd == MemoryMappedIo
            && (ValidHeader(View(flash, hob)) || exists k :: 0 <= k < |table| && table[k].fvLength == hob.length)
  {
    FoundIff(table, hob.length);
    hide ValidHeader;
  }

  lemma {:induction false} FoundIff(table: seq<MediaInfo>, fvLength: nat)
    ensures FindInfo(table, fvLength).Some? <==> exists k :: 0 <= k < |table| && table[k].fvLength == fvLength
  {
    if table != [] {
      FoundIff(table[1..], fvLength);
      if k :| 0 <= k < |table| && table[k].fvLength == fvLength {
        assert k > 0 ==> table[1..][k - 1] == table[k];
      }
      if k :| 0 <= k < |table[1..]| && table[1..][k].fvLength == fvLength {
        assert table[k + 1] == table[1..][k];
      }
    }
  }

  /** The table gives the header of its first entry for a length. */
  lemma {:induction false} FirstEntryFound(table: seq<MediaInfo>, k: nat)
    requires k < |table| && forall j :: 0 <= j < k ==> table[j].fvLength != table[k].fvLength
    ensures FindInfo(table, table[k].fvLength) == Some(table[k].image)
  {
    if k > 0 {
      assert table[1..][k - 1] == table[k];
      assert forall j :: 0 <= j < k - 1 ==> table[1..][j] == table[j + 1];
      FirstEntryFound(table[1..], k - 1);
    }
  }

  /** The instance number of an accepted HOB is the number of accepted HOBs before it. */
  lemma {:induction false} AcceptedInOrder(flash: seq<byte>, table: seq<MediaInfo>, hobs: seq<Hob>, m: nat)
    requires AllReadable(flash, hobs) && HobReached(hobs, m) && Accept(flash, table, hobs[m]).Some?
    ensures AllReadable(flash, hobs[..m])
    ensures var k := |Accepted(flash, table, hobs[..m])|;
            && k < |Accepted(flash, table, hobs)|
            && Accepted(flash, table, hobs)[k] == Accept(flash, table, hobs[m]).value
  {
    hide Accept;
    if m > 0 {
      assert hobs[0].gcd != LookupFailed;
      AcceptedInOrder(flash, table, hobs[1..], m - 1);
      assert hobs[..m][1..] == hobs[1..][..m - 1];
      assert hobs[..m][0] == hobs[0];
    }
  }

  /** A HOB whose bytes begin with a valid header keeps all its bytes, and its record is decoded from them, whatever
      the table holds. */
  lemma {:induction false} ValidVolumeKept(flash: seq<byte>, table: seq<MediaInfo>, hobs: seq<Hob>, m: nat)
    requires Environment(flash, table, hobs) && HobReached(hobs, m)
    requires hobs[m].gcd == MemoryMappedIo && ValidHeader(View(flash, hobs[m]))
    ensures View(InitialFlash(flash, table, hobs), hobs[m]) == View(flash, hobs[m])
    ensures var view := View(flash, hobs[m]);
            && HeaderLength(view) >= FIXED_HEADER
            && var header := DecodeHeader(view[..HeaderLength(view)]);
               Record(hobs[m].base, Counted(header.blockMap), header) in Records(Accepted(flash, table, hobs))
  {
    OthersKeepView(flash, table, hobs, m);
    var k := AcceptedAt(flash, table, hobs, m);
    var view := View(flash, hobs[m]);
    assert Accept(flash, table, hobs[m]) == Some(Acceptance(hobs[m], view[..HeaderLength(view)], false));
    assert Sound(Accepted(flash, table, hobs)[k]);
    hide Accept, Accepted, DecodeHeader, Counted, WellFormed;
    assert Records(Accepted(flash, table, hobs))[k] == RecordOf(Accepted(flash, table, hobs)[k]);
  }

  /** A HOB without a valid header gets the one of the table, in the flash and in its record. */
  lemma {:induction false} InvalidVolumeHealed(flash: seq<byte>, table: seq<MediaInfo>, hobs: seq<Hob>, m: nat)
    requires Environment(flash, table, hobs) && HobReached(hobs, m)
    requires hobs[m].gcd == MemoryMappedIo && !ValidHeader(View(flash, hobs[m]))
    requires FindInfo(table, hobs[m].length).Some?
    ensures var image := FindInfo(table, hobs[m].length).value;
            && |image| >= FIXED_HEADER
            && image <= View(InitialFlash(flash, table, hobs), hobs[m])
            && var header := DecodeHeader(image);
               Record(hobs[m].base, Counted(header.blockMap), header) in Records(Accepted(flash, table, hobs))
  {
    HeaderStands(flash, table, hobs, m);
    var k := AcceptedAt(flash, table, hobs, m);
    assert Accept(flash, table, hobs[m]) == Some(Acceptance(hobs[m], FindInfo(table, hobs[m].length).value, true));
    assert Sound(Accepted(flash, table, hobs)[k]);
    hide Accept, Accepted, DecodeHeader, Counted, WellFormed;
    assert Records(Accepted(flash, table, hobs))[k] == RecordOf(Accepted(flash, table, hobs)[k]);
  }

  /** What a valid header needs: revision 2, "_FVH", a length that is not the end of the address space, an even header
      length, and words that add up to zero. */
  lemma {:induction false} ValidHeaderIff(view: seq<byte>)
    requires Readable(view)
    ensures ValidHeader(view)
       <==> && view[40..44] == [0x5F, 0x46, 0x56, 0x48] && view[55] == 2
            && view[32..40] != [0xFF, 0xFF, 0xFF, 0xFF, 0, 0, 0, 0]
            && view[48] % 2 == 0
            && WordSum(view, view[48] as nat + 0x100 * (view[49] as nat)) == 0
  {
  }
}
