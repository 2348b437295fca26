/** Bytes, the little-endian fields made of them, and copies into a buffer. */
module Bytes {
  newtype byte = x: int | 0 <= x < 0x100

  function Le16(s: seq<byte>, i: nat): nat
    requires i + 2 <= |s|
  {
    s[i] as nat + 0x100 * (s[i + 1] as nat)
  }

  function Le24(s: seq<byte>, i: nat): (r: nat)
    requires i + 3 <= |s|
    ensures r < 0x100_0000
  {
    s[i] as nat + 0x100 * (s[i + 1] as nat) + 0x1_0000 * (s[i + 2] as nat)
  }

  function Le32(s: seq<byte>, i: nat): nat
    requires i + 4 <= |s|
  {
    Le16(s, i) + 0x1_0000 * Le16(s, i + 2)
  }

  function Le64(s: seq<byte>, i: nat): nat
    requires i + 8 <= |s|
  {
    Le32(s, i) + 0x1_0000_0000 * Le32(s, i + 4)
  }

  function Bits32(s: seq<byte>, i: nat): bv32
    requires i + 4 <= |s|
  {
    (s[i] as bv32) | (s[i + 1] as bv32 << 8) | (s[i + 2] as bv32 << 16) | (s[i + 3] as bv32 << 24)
  }

  /** `target` with `data` copied to offset `at`. */
  function Store<T>(target: seq<T>, at: nat, data: seq<T>): (r: seq<T>)
    requires at + |data| <= |target|
    ensures |r| == |target|
    ensures forall i :: 0 <= i < |r| ==> r[i] == if at <= i < at + |data| then data[i - at] else target[i]
  {
    target[..at] + data + target[at + |data|..]
  }

  lemma {:induction false} SliceOfSlice<T>(s: seq<T>, lo: nat, hi: nat, from: nat, to: nat)
    requires lo <= hi <= |s| && from <= to <= hi - lo
    ensures s[lo..hi][from..to] == s[lo + from..lo + to]
  {
    var a, b := s[lo..hi][from..to], s[lo + from..lo + to];
    forall k | 0 <= k < |a|
      ensures a[k] == b[k]
    {
      assert a[k] == s[lo..hi][from + k];
    }
  }
}
