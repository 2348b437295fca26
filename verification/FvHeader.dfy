/** The firmware volume header as it lies in flash (section 3.2.1 of Volume 3 of the PI Specification). */
module FvHeader {
  import opened Bytes

  /** Number of bytes before the block map. */
  const FIXED_HEADER: nat := 56

  /** sizeof (EFI_FIRMWARE_VOLUME_HEADER): the fixed part and one block map entry. */
  const MIN_HEADER: nat := 64

  /** "_FVH", read as a little-endian number. */
  const SIGNATURE: nat := 0x4856_465F

  const REVISION: byte := 2

  /** (UINTN) -1 of the IA32 build. */
  const MAX_UINTN: nat := 0xFFFF_FFFF

  datatype BlockMapEntry = BlockMapEntry(numBlocks: nat, length: nat)

  datatype Header = Header(
    fvLength: nat,
    attributes: bv32,
    headerLength: nat,
    blockMap: seq<BlockMapEntry>)

  function HeaderLength(view: seq<byte>): nat
    requires |view| >= FIXED_HEADER
  {
    Le16(view, 48)
  }

  /** The block map entries from offset `i` to the end of the header copy. */
  function DecodeBlockMap(header: seq<byte>, i: nat): seq<BlockMapEntry>
    decreases |header| - i
  {
    if i + 8 <= |header| then
      [BlockMapEntry(Le32(header, i), Le32(header, i + 4))] + DecodeBlockMap(header, i + 8)
    else []
  }

  function DecodeHeader(header: seq<byte>): Header
    requires |header| >= FIXED_HEADER
  {
    Header(Le64(header, 32), Bits32(header, 44), Le16(header, 48), DecodeBlockMap(header, FIXED_HEADER))
  }

  /** Sum of the first `n` bytes taken as 16-bit words, modulo 2^16. */
  function WordSum(view: seq<byte>, n: nat): nat
    requires n <= |view|
  {
    if n < 2 then 0 else (WordSum(view, n - 2) + Le16(view, n - 2)) % 0x1_0000
  }

  /** The checks that come before the checksum. */
  predicate FieldsValid(view: seq<byte>)
    requires |view| >= FIXED_HEADER
  {
    && view[55] == REVISION
    && Le32(view, 40) == SIGNATURE
    && Le64(view, 32) != MAX_UINTN
    && HeaderLength(view) % 2 == 0
  }

  /** The checksum runs over HeaderLength bytes, so these have to be readable once the fields are accepted. */
  predicate Readable(view: seq<byte>) {
    && |view| >= FIXED_HEADER
    && (FieldsValid(view) ==> HeaderLength(view) <= |view|)
  }

  predicate ValidHeader(view: seq<byte>)
    requires Readable(view)
  {
    FieldsValid(view) && WordSum(view, HeaderLength(view)) == 0
  }
}
