/** Run-length block maps and the flat list of block sizes that they stand for. */
module BlockMap {
  import opened FvHeader

  /** The block sizes of a volume, one element per logical block. */
  function Expand(blocks: seq<BlockMapEntry>): seq<nat> {
    if blocks == [] || blocks[0].numBlocks == 0 || blocks[0].length == 0 then []
    else Run(blocks[0]) + Expand(blocks[1..])
  }

  function Run(entry: BlockMapEntry): (r: seq<nat>)
    ensures |r| == entry.numBlocks && forall k :: 0 <= k < |r| ==> r[k] == entry.length
  {
    seq(entry.numBlocks, _ => entry.length)
  }

  /** The number of blocks that initialisation stores: it stops only at an entry without blocks. */
  function Counted(blocks: seq<BlockMapEntry>): nat {
    if blocks == [] || blocks[0].numBlocks == 0 then 0 else blocks[0].numBlocks + Counted(blocks[1..])
  }

  /** The number of blocks from `lba` to the end of the run that holds it. */
  function RunLeft(blocks: seq<BlockMapEntry>, lba: nat): (r: nat)
    requires lba < |Expand(blocks)|
  {
    if lba < blocks[0].numBlocks then blocks[0].numBlocks - lba
    else RunLeft(blocks[1..], lba - blocks[0].numBlocks)
  }

  /** A map that has its terminator, and whose entries each span less than 2^32 bytes. */
  predicate WellFormed(blocks: seq<BlockMapEntry>) {
    && (exists i :: 0 <= i < |blocks| && blocks[i].numBlocks == 0)
    && (forall i :: 0 <= i < |blocks| ==> blocks[i].numBlocks * blocks[i].length < 0x1_0000_0000)
  }

  /** No entry before the terminator gives its blocks the size zero. */
  predicate NoEmptyBlocks(blocks: seq<BlockMapEntry>) {
    blocks == [] || blocks[0].numBlocks == 0 || (blocks[0].length != 0 && NoEmptyBlocks(blocks[1..]))
  }

  function Sum(s: seq<nat>): nat {
    if s == [] then 0 else s[0] + Sum(s[1..])
  }

  /** Byte offset of a block inside the volume: the sizes of all the blocks before it. */
  function Address(sizes: seq<nat>, lba: nat): nat
    requires lba <= |sizes|
  {
    Sum(sizes[..lba])
  }

  lemma {:induction false} SumAppend(a: seq<nat>, b: seq<nat>)
    ensures Sum(a + b) == Sum(a) + Sum(b)
  {
    if a == [] {
      assert a + b == b;
    } else {
      SumAppend(a[1..], b);
      assert (a + b)[1..] == a[1..] + b;
    }
  }

  lemma {:induction false} SumRun(s: seq<nat>, size: nat)
    requires forall k :: 0 <= k < |s| ==> s[k] == size
    ensures Sum(s) == |s| * size
  {
    if s != [] {
      SumRun(s[1..], size);
    }
  }

  lemma {:induction false} AddressNext(sizes: seq<nat>, lba: nat)
    requires lba < |sizes|
    ensures Address(sizes, lba + 1) == Address(sizes, lba) + sizes[lba]
  {
    assert sizes[..lba + 1] == sizes[..lba] + [sizes[lba]];
    SumAppend(sizes[..lba], [sizes[lba]]);
  }

  lemma {:induction false} AddressMonotone(sizes: seq<nat>, a: nat, b: nat)
    requires a <= b <= |sizes|
    ensures Address(sizes, a) <= Address(sizes, b)
    decreases b - a
  {
    if a < b {
      AddressMonotone(sizes, a, b - 1);
      AddressNext(sizes, b - 1);
    }
  }

  /** Block `lba` holds the byte at offset `x` of the volume. */
  predicate Holds(sizes: seq<nat>, lba: nat, x: nat) {
    lba < |sizes| && Address(sizes, lba) <= x < Address(sizes, lba) + sizes[lba]
  }

  /** Distinct blocks have disjoint byte ranges, all of them inside the volume. */
  lemma {:induction false} BlocksDisjoint(sizes: seq<nat>, a: nat, b: nat, x: nat)
    requires Holds(sizes, a, x)
    ensures x < Sum(sizes)
    ensures Holds(sizes, b, x) ==> a == b
  {
    AddressNext(sizes, a);
    AddressMonotone(sizes, a + 1, |sizes|);
    assert sizes[..|sizes|] == sizes;
    if Holds(sizes, b, x) && a < b {
      AddressMonotone(sizes, a + 1, b);
    } else if Holds(sizes, b, x) && b < a {
      AddressNext(sizes, b);
      AddressMonotone(sizes, b + 1, a);
    }
  }

  /** The blocks tile the volume: every byte of it lies in exactly one block. */
  lemma {:induction false} BlocksTile(sizes: seq<nat>, x: nat)
    requires x < Sum(sizes)
    ensures exists lba: nat :: Holds(sizes, lba, x)
  {
    var n := |sizes| - 1;
    assert sizes[..n] + [sizes[n]] == sizes;
    SumAppend(sizes[..n], [sizes[n]]);
    if Address(sizes, n) <= x {
      assert Holds(sizes, n, x);
    } else {
      BlocksTile(sizes[..n], x);
      var lba: nat :| Holds(sizes[..n], lba, x);
      assert sizes[..n][..lba] == sizes[..lba];
      assert Holds(sizes, lba, x);
    }
  }

  /** A split of the flat list at a run gives the address of every block in the run. */
  lemma {:induction false} AddressInRun(before: seq<nat>, entry: BlockMapEntry, after: seq<nat>, k: nat)
    requires k <= entry.numBlocks
    ensures Address(before + (Run(entry) + after), |before| + k) == Sum(before) + k * entry.length
  {
    var run := Run(entry)[..k];
    assert (before + (Run(entry) + after))[..|before| + k] == before + run;
    SumAppend(before, run);
    SumRun(run, entry.length);
  }

  /** The blocks counted by RunLeft exist and have the size of the first one. */
  lemma {:induction false} RunLeftSameSize(blocks: seq<BlockMapEntry>, lba: nat)
    requires lba < |Expand(blocks)|
    ensures RunLeft(blocks, lba) >= 1 && lba + RunLeft(blocks, lba) <= |Expand(blocks)|
    ensures forall k :: lba <= k < lba + RunLeft(blocks, lba) ==> Expand(blocks)[k] == Expand(blocks)[lba]
  {
    var n := blocks[0].numBlocks;
    if lba >= n {
      RunLeftSameSize(blocks[1..], lba - n);
      forall k | lba <= k < lba + RunLeft(blocks, lba)
        ensures Expand(blocks)[k] == Expand(blocks)[lba]
      {
        assert Expand(blocks)[k] == Expand(blocks[1..])[k - n];
      }
    }
  }

  /** The counted blocks end where the entry of the first one ends. */
  lemma {:induction false} RunLeftEndsEntry(blocks: seq<BlockMapEntry>, lba: nat)
    requires lba < |Expand(blocks)|
    ensures exists i :: 0 <= i < |blocks| && |Expand(blocks[..i])| <= lba
                        && lba + RunLeft(blocks, lba) == |Expand(blocks[..i])| + blocks[i].numBlocks
  {
    var n := blocks[0].numBlocks;
    if lba < n {
      assert |Expand(blocks[..0])| == 0;
    } else {
      RunLeftEndsEntry(blocks[1..], lba - n);
      var i :| 0 <= i < |blocks[1..]| && |Expand(blocks[1..][..i])| <= lba - n
             && lba - n + RunLeft(blocks[1..], lba - n) == |Expand(blocks[1..][..i])| + blocks[1..][i].numBlocks;
      assert blocks[..i + 1][1..] == blocks[1..][..i];
      assert |Expand(blocks[..i + 1])| == n + |Expand(blocks[1..][..i])|;
      assert blocks[i + 1] == blocks[1..][i];
    }
  }

  /** The walk stops no later than the count does, and the two agree if and only if there are no empty blocks. */
  lemma {:induction false} WalkWithinCount(blocks: seq<BlockMapEntry>)
    ensures |Expand(blocks)| <= Counted(blocks)
    ensures NoEmptyBlocks(blocks) <==> Counted(blocks) == |Expand(blocks)|
  {
    if blocks != [] && blocks[0].numBlocks != 0 {
      WalkWithinCount(blocks[1..]);
    }
  }

  lemma {:induction false} SizesPositive(blocks: seq<BlockMapEntry>, k: nat)
    requires k < |Expand(blocks)|
    ensures Expand(blocks)[k] > 0
  {
    var n := blocks[0].numBlocks;
    if k >= n {
      SizesPositive(blocks[1..], k - n);
      assert Expand(blocks)[k] == Expand(blocks[1..])[k - n];
    }
  }

  /** The walk has passed the entries before `i`, whose blocks are `before`, without reaching `lba`. */
  ghost predicate Walked(blocks: seq<BlockMapEntry>, before: seq<nat>, i: nat, lba: nat) {
    && i <= |blocks| && |before| <= lba
    && Expand(blocks) == before + Expand(blocks[i..])
    && (lba < |Expand(blocks)| ==> RunLeft(blocks, lba) == RunLeft(blocks[i..], lba - |before|))
  }

  lemma {:induction false} WalkStep(blocks: seq<BlockMapEntry>, before: seq<nat>, i: nat, lba: nat)
    requires Walked(blocks, before, i, lba) && i < |blocks|
    requires blocks[i].numBlocks != 0 && blocks[i].length != 0 && |before| + blocks[i].numBlocks <= lba
    ensures Walked(blocks, before + Run(blocks[i]), i + 1, lba)
    ensures Sum(before + Run(blocks[i])) == Sum(before) + blocks[i].numBlocks * blocks[i].length
  {
    assert blocks[i..][1..] == blocks[i + 1..];
    SumAppend(before, Run(blocks[i]));
    SumRun(Run(blocks[i]), blocks[i].length);
  }

  lemma {:induction false} WalkFound(blocks: seq<BlockMapEntry>, before: seq<nat>, i: nat, lba: nat)
    requires Walked(blocks, before, i, lba) && i < |blocks|
    requires blocks[i].length != 0 && lba < |before| + blocks[i].numBlocks
    ensures lba < |Expand(blocks)| && Expand(blocks)[lba] == blocks[i].length
    ensures Address(Expand(blocks), lba) == Sum(before) + (lba - |before|) * blocks[i].length
    ensures RunLeft(blocks, lba) == |before| + blocks[i].numBlocks - lba
  {
    assert Expand(blocks) == before + (Run(blocks[i]) + Expand(blocks[i..][1..]));
    AddressInRun(before, blocks[i], Expand(blocks[i..][1..]), lba - |before|);
  }
}
