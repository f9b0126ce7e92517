/**
 The heap calls said outright: which requests fail, the sizes an allocation leaves, and the
 block a free makes, with the header of 48 and the smallest rest of 32 bytes as numbers.
 */
module HeapReplies {
  import opened Heap
  import opened HeapProps

  /** Rounding up to 16 gives the least multiple that is not below, or 0 if that is no 64-bit size. */
  lemma {:induction false} AlignUpSays(n: nat)
    requires n < 0x1_0000_0000_0000_0000
    ensures if n <= 0x1_0000_0000_0000_0000 - 16 then AlignUp(n) % 16 == 0 && n <= AlignUp(n) < n + 16
            else AlignUp(n) == 0
  {
  }

  /** Block k of the heap can hold a request of this many bytes. */
  predicate Holds(l: Blocks, k: nat, bytes: nat)
    requires k < |l|
  {
    l[k].free && l[k].size >= bytes
  }

  /**
   On a heap of 16-byte sizes below 2^64, a request fails exactly if it is for 0 bytes or no free
   block is that large; otherwise the lowest such block is taken, and an exact fit is a fit.
   */
  lemma {:induction false} AllocSays(l: Blocks, bytes: nat)
    requires AlignedSizes(l) && bytes < 0x1_0000_0000_0000_0000
    requires forall k :: 0 <= k < |l| ==> l[k].size < 0x1_0000_0000_0000_0000
    ensures Alloc(l, bytes).Failed? <==> bytes == 0 || forall k :: 0 <= k < |l| ==> !Holds(l, k, bytes)
    ensures Alloc(l, bytes).Got? ==>
      var i := Alloc(l, bytes).index;
      && i < |l| && Holds(l, i, bytes) && (forall k :: 0 <= k < i ==> !Holds(l, k, bytes))
      && Taken(l, Alloc(l, bytes).blocks, i, bytes)
  {
    hide TakeBlock, AlignUp;
    AlignUpSays(bytes);
    var wanted := AlignUp(bytes);
    forall k | 0 <= k < |l| ensures bytes > 0 && wanted != 0 ==> (Fits(l[k], wanted) <==> Holds(l, k, bytes)) {
      if bytes > 0 && wanted != 0 { HoldsRounded(l[k].size, bytes, wanted); }
    }
    forall k | 0 <= k < |l| ensures wanted == 0 && bytes > 0 ==> !Holds(l, k, bytes) { TooLarge(l[k].size, bytes); }
    if Alloc(l, bytes).Got? { TakenSays(l, Alloc(l, bytes).index, bytes); }
  }

  lemma {:induction false} HoldsRounded(size: nat, bytes: nat, wanted: nat)
    requires size % 16 == 0 && wanted % 16 == 0 && bytes <= wanted < bytes + 16
    ensures size >= wanted <==> size >= bytes
  {
  }

  lemma {:induction false} TooLarge(size: nat, bytes: nat)
    requires size % 16 == 0 && size < 0x1_0000_0000_0000_0000
    ensures bytes > 0x1_0000_0000_0000_0000 - 16 ==> size < bytes
  {
  }

  /** Block i of l is taken for that many bytes: whole, or split if more than 80 bytes would be left over. */
  predicate Taken(l: Blocks, m: Blocks, i: nat, bytes: nat)
    requires i < |l|
  {
    var w := (bytes + 15) / 16 * 16;
    if l[i].size > w + 80 then
      && |m| == |l| + 1 && m[i] == Blk(w, false) && m[i + 1] == Blk(l[i].size - w - 48, true)
      && m[..i] == l[..i] && m[i + 2..] == l[i + 1..]
    else m == l[i := Blk(l[i].size, false)]
  }

  lemma {:induction false} TakenSays(l: Blocks, i: nat, bytes: nat)
    requires i < |l| && 0 < bytes <= 0x1_0000_0000_0000_0000 - 16 && l[i].size >= AlignUp(bytes)
    ensures Taken(l, TakeBlock(l, i, AlignUp(bytes)), i, bytes)
  {
    var m, w := TakeBlock(l, i, AlignUp(bytes)), AlignUp(bytes);
    if l[i].size > w + 80 {
      var a, b, c := l[..i], [Blk(w, false), Blk(l[i].size - w - 48, true)], l[i + 1..];
      assert m == a + b + c;
      assert m[..i] == a && m[i + 2..] == c;
    } else {
      assert m == l[i := Blk(l[i].size, false)];
    }
  }

  // ---------- free ----------

  /** The size of block k and its header if it is there and free, else 0. */
  function Spare(l: Blocks, k: int): nat {
    if 0 <= k < |l| && l[k].free then 48 + l[k].size else 0
  }

  /**
   Freeing a used block makes one free block of it, the free neighbour before and the free neighbour
   after, with their headers; every other block stays.
   */
  lemma {:induction false} ReleaseSays(l: Blocks, i: nat)
    requires Inv(l) && i < |l| && !l[i].free
    ensures var lo, hi := if Spare(l, i - 1) > 0 then i - 1 else i, if Spare(l, i + 1) > 0 then i + 2 else i + 1;
            Release(l, i) == l[..lo] + [Blk(Spare(l, i - 1) + l[i].size + Spare(l, i + 1), true)] + l[hi..]
  {
    hide Coalesce, Merge, AlignedSizes;
    var b, rest := Blk(l[i].size + Spare(l, i + 1), true), if Spare(l, i + 1) > 0 then l[i + 2..] else l[i + 1..];
    ForwardSays(l, i);
    if Spare(l, i - 1) > 0 {
      assert l[..i] == l[..i - 1] + [l[i - 1]];
      BackwardSays(l[..i - 1], l[i - 1], b, rest);
    }
  }

  /** The second swallows the block just made. */
  lemma {:induction false} BackwardSays(a: Blocks, x: Blk, b: Blk, rest: Blocks)
    requires b.free && (rest != [] ==> !rest[0].free)
    ensures Coalesce(a + [x] + [b] + rest, |a|) == a + [Blk(x.size + 48 + b.size, x.free)] + rest
  {
    hide Coalesce, Merge;
    var g := a + [x] + [b] + rest;
    assert g[|a| + 1] == b && (|a| + 2 < |g| ==> g[|a| + 2] == rest[0]);
    CoalesceOnce(g, |a|);
    MergeParts(a, x, b, rest);
  }

  /** The first of the two coalescing calls swallows the block after, if it is free. */
  lemma {:induction false} ForwardSays(l: Blocks, i: nat)
    requires Inv(l) && i < |l| && !l[i].free
    ensures Coalesce(l[..i] + [Blk(l[i].size, true)] + l[i + 1..], i) ==
            l[..i] + [Blk(l[i].size + Spare(l, i + 1), true)] + if Spare(l, i + 1) > 0 then l[i + 2..] else l[i + 1..]
  {
    var f := l[i := Blk(l[i].size, true)];
    assert l[..i] + [Blk(l[i].size, true)] + l[i + 1..] == f;
    CoalesceOnce(f, i);
    Parts(l, f, i, Spare(l, i + 1) > 0);
  }

  lemma {:induction false} Parts(l: Blocks, f: Blocks, i: nat, after: bool)
    requires i < |l| && f == l[i := Blk(l[i].size, true)] && (after ==> i + 1 < |l| && l[i + 1].free)
    requires !after ==> Spare(l, i + 1) == 0
    ensures (if after then Merge(f, i) else f) ==
            l[..i] + [Blk(l[i].size + Spare(l, i + 1), true)] + if after then l[i + 2..] else l[i + 1..]
  {
    if after {
      assert f[..i] == l[..i] && f[i + 2..] == l[i + 2..];
    } else {
      assert f == l[..i] + [Blk(l[i].size, true)] + l[i + 1..];
    }
  }

  lemma {:induction false} MergeParts(a: Blocks, x: Blk, y: Blk, c: Blocks)
    ensures Merge(a + [x] + [y] + c, |a|) == a + [Blk(x.size + 48 + y.size, x.free)] + c
  {
    var l := a + [x] + [y] + c;
    assert l[..|a|] == a && l[|a|] == x && l[|a| + 1] == y && l[|a| + 2..] == c;
  }
}
