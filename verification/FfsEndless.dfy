/** A volume in which no search comes to an end. */
module FfsEndless {
  import opened Wrappers
  import opened Bytes
  import opened FvbAttributes
  import opened FfsVolume

  const VOLUME_SIZE: nat := 136
  const FIRST: nat := 72

  /** A deleted file of size zero at 72. */
  function VolumeByte(i: nat): byte {
    if i == FIRST + FILE_STATE then 0x17 else 0
  }

  const BYTES: seq<byte> := seq(VOLUME_SIZE, i requires 0 <= i => VolumeByte(i))

  const VOLUME: Volume := Volume(BYTES, VOLUME_SIZE, FIRST, 0)

  lemma {:induction false} DeletedState()
    ensures HighestBit(StateBits(0x17, false)) == FILE_DELETED
  {
  }

  /** Whatever is searched for, a search from the start of the volume stays at the first file for ever. */
  lemma {:induction false} SearchDoesNotEnd(searchType: byte)
    ensures VOLUME.Readable() && VOLUME.SearchStart(None) == FIRST
    ensures VOLUME.InRange(FIRST) && VOLUME.Next(FIRST) == FIRST
    ensures !Ends(VOLUME, FIRST, Wanted(VOLUME, searchType))
    ensures !VOLUME.CanSearch(None, Wanted(VOLUME, searchType))
  {
    DeletedState();
    hide HighestBit, StateBits;
    assert VOLUME.Polarity() == false;
    assert BYTES[FIRST + FILE_STATE] == 0x17;
    assert VOLUME.ItemAt(FIRST) == Deleted;
    assert VOLUME.Size(FIRST) == 0;
    SearchEndsIff(VOLUME, FIRST, Wanted(VOLUME, searchType));
  }
}
