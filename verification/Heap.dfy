/**
 The kernel heap (kernel/mm/kmem.c) as a list of adjacent blocks: each block is a
 48-byte header followed by its payload, and the list tiles the heap.
 */
module Heap {
  import opened Words

  const HEADER: nat := 48
  const MIN_SPLIT: nat := 32

  datatype Blk = Blk(size: nat, free: bool)

  type Blocks = seq<Blk>

  /** Bytes covered by the blocks, headers included. */
  function Total(l: Blocks): nat {
    if l == [] then 0 else Total(l[..|l| - 1]) + HEADER + l[|l| - 1].size
  }

  /** Distance from the heap base to the header of block i. */
  function Offset(l: Blocks, i: nat): nat
    requires i <= |l|
  {
    Total(l[..i])
  }

  /** kmem_align_up_size(value, 16): 0 on overflow. */
  function AlignUp(n: nat): nat
    requires n < U64
  {
    if n > U64 - 1 - 15 then 0 else (n + 15) / 16 * 16
  }

  predicate AlignedSizes(l: Blocks) {
    forall i :: 0 <= i < |l| ==> l[i].size % 16 == 0
  }

  predicate NoAdjacentFree(l: Blocks) {
    forall i :: 0 <= i < |l| - 1 ==> !(l[i].free && l[i + 1].free)
  }

  predicate Inv(l: Blocks) {
    l != [] && AlignedSizes(l) && NoAdjacentFree(l)
  }

  // ---------- operations ----------

  predicate Fits(b: Blk, wanted: nat) { b.free && b.size >= wanted }

  /** Lowest block from i on that can hold the request, or the list length. */
  function FirstFit(l: Blocks, wanted: nat, i: nat): (r: nat)
    requires i <= |l|
    ensures i <= r <= |l|
    ensures forall k :: i <= k < r ==> !Fits(l[k], wanted)
    ensures r < |l| ==> Fits(l[r], wanted)
    decreases |l| - i
  {
    if i == |l| || Fits(l[i], wanted) then i else FirstFit(l, wanted, i + 1)
  }

  /** kmem_split_if_useful and taking the block: split off what is left if it is worth a header and 32 bytes. */
  function TakeBlock(l: Blocks, i: nat, wanted: nat): Blocks
    requires i < |l| && l[i].size >= wanted
  {
    if l[i].size > wanted + HEADER + MIN_SPLIT then
      l[..i] + [Blk(wanted, false), Blk(l[i].size - wanted - HEADER, true)] + l[i + 1..]
    else l[..i] + [Blk(l[i].size, false)] + l[i + 1..]
  }

  datatype Allocated = Failed | Got(blocks: Blocks, index: nat)

  /** kmem_alloc on an initialised heap. */
  function Alloc(l: Blocks, bytes: nat): Allocated
    requires bytes < U64
  {
    var wanted := AlignUp(bytes);
    if bytes == 0 || wanted == 0 then Failed
    else
      var i := FirstFit(l, wanted, 0);
      if i == |l| then Failed else Got(TakeBlock(l, i, wanted), i)
  }

  /** One pass of the coalescing loop: block i swallows block i + 1. */
  function Merge(l: Blocks, i: nat): Blocks
    requires i + 1 < |l|
  {
    l[..i] + [Blk(l[i].size + HEADER + l[i + 1].size, l[i].free)] + l[i + 2..]
  }

  /** kmem_coalesce_forward */
  function Coalesce(l: Blocks, i: nat): Blocks
    requires i < |l|
    decreases |l|
  {
    if i + 1 < |l| && l[i + 1].free then Coalesce(Merge(l, i), i) else l
  }

  /** kmem_free_checked on used block i. */
  function Release(l: Blocks, i: nat): Blocks
    requires i < |l|
  {
    var l1 := l[..i] + [Blk(l[i].size, true)] + l[i + 1..];
    var l2 := Coalesce(l1, i);
    if i > 0 && i - 1 < |l2| && l2[i - 1].free then Coalesce(l2, i - 1) else l2
  }

  // ---------- sums ----------

  lemma {:induction false} TotalConcat(a: Blocks, b: Blocks)
    ensures Total(a + b) == Total(a) + Total(b)
    decreases |b|
  {
    if b == [] {
      assert a + b == a;
    } else {
      TotalConcat(a, b[..|b| - 1]);
      assert (a + b)[..|a + b| - 1] == a + b[..|b| - 1];
    }
  }

  lemma {:induction false} TotalOne(b: Blk)
    ensures Total([b]) == HEADER + b.size
  {
    assert [b][..0] == [];
  }

  lemma {:induction false} TotalAround(l: Blocks, i: nat)
    requires i < |l|
    ensures Total(l) == Total(l[..i]) + HEADER + l[i].size + Total(l[i + 1..])
  {
    assert l == l[..i] + [l[i]] + l[i + 1..];
    TotalConcat(l[..i] + [l[i]], l[i + 1..]);
    TotalConcat(l[..i], [l[i]]);
    TotalOne(l[i]);
  }

  lemma {:induction false} OffsetNext(l: Blocks, i: nat)
    requires i < |l|
    ensures Offset(l, i + 1) == Offset(l, i) + HEADER + l[i].size
  {
    assert l[..i + 1][..i] == l[..i];
  }

  lemma {:induction false} OffsetMono(l: Blocks, i: nat, j: nat)
    requires i < j <= |l|
    ensures Offset(l, i) + HEADER + l[i].size <= Offset(l, j) <= Total(l)
    decreases j - i
  {
    OffsetNext(l, i);
    if i + 1 < j {
      OffsetMono(l, i + 1, j);
    } else {
      assert l == l[..j] + l[j..];
      TotalConcat(l[..j], l[j..]);
    }
  }

  lemma {:induction false} OffsetAligned(l: Blocks, i: nat)
    requires AlignedSizes(l) && i <= |l|
    ensures Offset(l, i) % 16 == 0
  {
    if i > 0 {
      OffsetAligned(l, i - 1);
      OffsetNext(l, i - 1);
    } else {
      assert l[..0] == [];
    }
  }
}
