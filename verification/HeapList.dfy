/**
 The imperative form of kernel/mm/kmem.c: headers linked through prev and next, changed
 in place. The ghost field `blocks` is the list they represent; every method says what
 happens to it.
 */
module HeapList {
  import opened Words
  import opened Heap
  import opened HeapProps
  import opened HeapMem

  const MAX_BLOCKS: nat := 1048576

  datatype Stats = Stats(total: nat, used: nat, free: nat, blockCount: nat, freeCount: nat, largestFree: nat)

  function FreeCount(l: Blocks): nat
    decreases |l|
  {
    if l == [] then 0 else FreeCount(l[..|l| - 1]) + if l[|l| - 1].free then 1 else 0
  }

  /** n is the size of a largest free block, or 0 if there is none. */
  predicate LargestFree(l: Blocks, n: nat) {
    && (forall i :: 0 <= i < |l| && l[i].free ==> l[i].size <= n)
    && (n > 0 ==> exists i :: 0 <= i < |l| && l[i].free && l[i].size == n)
  }

  /** s holds the counts of the blocks in l. */
  predicate Counted(l: Blocks, s: Stats) {
    && s.blockCount == |l| && s.used == UsedBytes(l) && s.free == FreeBytes(l)
    && s.freeCount == FreeCount(l) && LargestFree(l, s.largestFree)
  }

  class KernelHeap {
    var base: nat
    var end: nat
    var head: nat
    var initialized: bool
    var mem: Memory
    ghost var blocks: Blocks

    /** The headers represent `blocks`, which tile [base, end). */
    ghost predicate Linked()
      reads this
    {
      && initialized && base > 0 && base % 16 == 0 && head == base
      && blocks != [] && AlignedSizes(blocks)
      && end == base + Total(blocks) && end < U64 - 16
      && Rep(mem, base, blocks)
    }

    ghost predicate Valid()
      reads this
    {
      initialized ==> Linked() && NoAdjacentFree(blocks)
    }

    constructor ()
      ensures Valid() && !initialized
    {
      base, end, head, initialized, mem, blocks := 0, 0, 0, false, map[], [];
    }

    /**
     kmem_init on a buffer that does not reach the top of the address space and in which
     no word looks like a header yet.
     */
    method Init(buffer: nat, bytes: nat) returns (rc: int)
      requires Valid() && buffer + bytes < U64 - 16
      modifies this
      ensures Valid()
      ensures var lost := AlignUp(buffer) - buffer;
              rc == if buffer == 0 || bytes < HEADER + MIN_SPLIT then -1
                    else if bytes <= lost + HEADER + MIN_SPLIT then -3
                    else if (bytes - lost) / 16 * 16 <= HEADER + MIN_SPLIT then -4
                    else 0
      ensures rc == 0 ==> initialized && buffer <= base < buffer + 16 && end <= buffer + bytes < end + 16
                          && blocks == [Blk(end - base - HEADER, true)]
      ensures rc != 0 ==> unchanged(this)
    {
      hide Rep;
      if buffer == 0 || bytes < HEADER + MIN_SPLIT { return -1; }
      var start := AlignUp(buffer);
      if start == 0 || start < buffer { return -2; }
      var lost := start - buffer;
      if bytes <= lost + HEADER + MIN_SPLIT { return -3; }
      var usable := (bytes - lost) / 16 * 16;
      if usable <= HEADER + MIN_SPLIT { return -4; }
      base := start;
      end := base + usable;
      head := base;
      mem := map[head := Header(MAGIC, usable - HEADER, true, 0, 0)];
      initialized := true;
      blocks := [Blk(usable - HEADER, true)];
      TotalOne(blocks[0]);
      FirstRep(base, usable - HEADER);
      rc := Validate();
    }

    /** kmem_split_if_useful on block i. */
    method SplitIfUseful(block: nat, wanted: nat, ghost i: nat)
      requires Linked() && i < |blocks| && block == At(base, blocks, i)
      requires wanted % 16 == 0 && wanted <= blocks[i].size
      modifies this`mem, this`blocks
      ensures Linked()
      ensures blocks == if old(blocks)[i].size > wanted + HEADER + MIN_SPLIT then Divided(old(blocks), i, wanted)
              else old(blocks)
    {
      hide Offset, Total, Rep, AlignedSizes, AlignUp, Divided, SplitMem;
      BlockFacts(mem, base, blocks, i);
      DividedKeeps(blocks, i, wanted);
      SplitDecision(block, mem[block].size, wanted, end);
      if mem[block].size < wanted + HEADER + MIN_SPLIT { return; }
      var newAddr := AlignUp(block + HEADER + wanted);
      var consumed := newAddr - (block + HEADER);
      if newAddr == 0 || newAddr + HEADER >= end || mem[block].size <= consumed + HEADER + MIN_SPLIT { return; }
      SplitRep(mem, base, blocks, i, wanted);
      NextInMem(mem, base, blocks, i);
      InsertHeader(block, newAddr, wanted);
      blocks := Divided(blocks, i, wanted);
      DividedSize(old(blocks), i, wanted);
    }

    /** The writes of a split: a free header behind the wanted bytes, linked in after the block. */
    method InsertHeader(block: nat, newAddr: nat, wanted: nat)
      requires block in mem && mem[block].size >= wanted + HEADER && newAddr == block + HEADER + wanted
      requires mem[block].next != 0 ==> mem[block].next in mem
      modifies this`mem
      ensures mem == SplitMem(old(mem), block, wanted)
    {
      var next := mem[block].next;
      mem := mem[newAddr := Header(MAGIC, mem[block].size - wanted - HEADER, true, block, next)];
      if next != 0 { mem := mem[next := mem[next].(prev := newAddr)]; }
      mem := mem[block := mem[block].(next := newAddr, size := wanted)];
    }

    /** The writes of a merge: the next header is swallowed and wiped. */
    method RemoveHeader(block: nat)
      requires block in mem && mem[block].next in mem
      requires mem[mem[block].next].next != 0 ==> mem[mem[block].next].next in mem
      modifies this`mem
      ensures mem == MergeMem(old(mem), block)
    {
      var next := mem[block].next;
      var after := mem[next].next;
      mem := mem[block := mem[block].(size := mem[block].size + HEADER + mem[next].size, next := after)];
      if after != 0 { mem := mem[after := mem[after].(prev := block)]; }
      mem := mem[next := mem[next].(magic := 0, size := 0, prev := 0, next := 0)];
    }

    /** kmem_alloc: 0 stands for the null pointer. */
    method Alloc(bytes: nat) returns (p: nat)
      requires Valid() && bytes < U64
      modifies this`mem, this`blocks
      ensures Valid()
      ensures !initialized ==> p == 0 && mem == old(mem) && blocks == old(blocks)
      ensures initialized ==>
                match Heap.Alloc(old(blocks), bytes)
                case Failed => p == 0 && mem == old(mem) && blocks == old(blocks)
                case Got(bs, i) => i < |old(blocks)| && blocks == bs && p == Payload(base, old(blocks), i)
    {
      hide Offset, Total, Rep, Inv, TakeBlock;
      p := 0;
      if !initialized || bytes == 0 { return; }
      var wanted := AlignUp(bytes);
      if wanted == 0 { return; }
      var cur := head;
      ghost var i := 0;
      HeadAt(base, blocks);
      while cur != 0
        invariant Linked() && NoAdjacentFree(blocks) && mem == old(mem) && blocks == old(blocks)
        invariant 0 <= i <= |blocks| && cur == if i < |blocks| then At(base, blocks, i) else 0
        invariant FirstFit(blocks, wanted, 0) == FirstFit(blocks, wanted, i) && p == 0
        decreases |blocks| - i
      {
        BlockFacts(mem, base, blocks, i);
        if mem[cur].magic != MAGIC { return; }
        if mem[cur].free && mem[cur].size >= wanted {
          TakeAt(cur, wanted, i);
          p := cur + HEADER;
          return;
        }
        cur := mem[cur].next;
        i := i + 1;
      }
    }

    /** Split the block found if that is useful, and mark it used. */
    method TakeAt(cur: nat, wanted: nat, ghost i: nat)
      requires Linked() && NoAdjacentFree(blocks) && i < |blocks| && cur == At(base, blocks, i)
      requires wanted % 16 == 0 && Fits(blocks[i], wanted)
      modifies this`mem, this`blocks
      ensures Linked() && NoAdjacentFree(blocks) && blocks == TakeBlock(old(blocks), i, wanted)
    {
      hide Offset, Total, Rep, Inv, TakeBlock, Divided;
      TakeIsDivide(blocks, i, wanted);
      ghost var l := blocks;
      assert Inv(l) by { InvParts(l); }
      TakeKeeps(l, i, wanted);
      InvMeans(TakeBlock(l, i, wanted));
      SplitIfUseful(cur, wanted, i);
      BlockFacts(mem, base, blocks, i);
      SetFlag(mem, base, blocks, i, false);
      mem := mem[cur := mem[cur].(free := false)];
      blocks := WithFlag(blocks, i, false);
    }

    /** kmem_calloc: the product is checked, and the zeroed range stays inside the new payload. */
    method Calloc(count: nat, bytes: nat) returns (p: nat)
      requires Valid() && count < U64 && bytes < U64
      modifies this`mem, this`blocks
      ensures Valid()
      ensures count * bytes >= U64 ==> p == 0 && mem == old(mem) && blocks == old(blocks)
      ensures initialized && count * bytes < U64 ==>
                match Heap.Alloc(old(blocks), count * bytes)
                case Failed => p == 0 && mem == old(mem) && blocks == old(blocks)
                case Got(bs, i) => i < |old(blocks)| && blocks == bs && p == Payload(base, old(blocks), i)
                                   && i < |bs| && count * bytes <= bs[i].size
    {
      hide Offset, Total, Rep, TakeBlock, Linked;
      if count != 0 && bytes > (U64 - 1) / count {
        ProductOverflows(count, bytes);
        return 0;
      }
      ProductFits(count, bytes);
      p := Alloc(count * bytes);
      if initialized { AllocSize(old(blocks), count * bytes); }
    }

    /** kmem_coalesce_forward from block i. */
    method CoalesceForward(block: nat, ghost i: nat)
      requires Linked() && i < |blocks| && block == At(base, blocks, i)
      modifies this`mem, this`blocks
      ensures Linked() && blocks == Coalesce(old(blocks), i)
    {
      hide Offset, Total, Rep, AlignedSizes, Merge, MergeMem;
      BlockFacts(mem, base, blocks, i);
      NextInMem(mem, base, blocks, i);
      while mem[block].next != 0 && mem[mem[block].next].free
        invariant Linked() && i < |blocks| && block == At(base, blocks, i) && block in mem
        invariant mem[block].next == (if i + 1 < |blocks| then At(base, blocks, i + 1) else 0)
        invariant i + 1 < |blocks| ==> mem[block].next in mem && mem[mem[block].next].free == blocks[i + 1].free
        invariant Coalesce(old(blocks), i) == Coalesce(blocks, i)
        decreases |blocks|
      {
        var next := mem[block].next;
        BlockFacts(mem, base, blocks, i);
        BlockFacts(mem, base, blocks, i + 1);
        Touching(base, blocks, i);
        var expected := AlignUp(block + HEADER + mem[block].size);
        if expected != next { return; }
        MergeRep(mem, base, blocks, i);
        MergeKeeps(blocks, i);
        MergeStill(base, blocks, i);
        NextInMem(mem, base, blocks, i + 1);
        RemoveHeader(block);
        blocks := Merge(blocks, i);
        BlockFacts(mem, base, blocks, i);
        NextInMem(mem, base, blocks, i);
      }
    }

    /** kmem_validate on a linked heap. */
    method Validate() returns (rc: int)
      requires Linked()
      ensures rc == if |blocks| <= MAX_BLOCKS then 0 else -3
    {
      hide Offset, Total, Rep, AlignedSizes;
      var prev, cursor, guard := 0, base, 0;
      var cur := head;
      ghost var i := 0;
      HeadAt(base, blocks);
      while cur != 0
        invariant 0 <= i <= |blocks| && guard == i <= MAX_BLOCKS
        invariant cur == if i < |blocks| then At(base, blocks, i) else 0
        invariant cursor == At(base, blocks, i) && prev == if i == 0 then 0 else At(base, blocks, i - 1)
        decreases |blocks| - i
      {
        BlockFacts(mem, base, blocks, i);
        NextInMem(mem, base, blocks, i);
        EndOf(base, blocks, i);
        guard := guard + 1;
        if guard > MAX_BLOCKS { return -3; }
        if cur != cursor { return -4; }
        if cur < base || cur + HEADER > end { return -5; }
        if mem[cur].magic != MAGIC { return -6; }
        if mem[cur].prev != prev { return -7; }
        if mem[cur].size > end - (cur + HEADER) { return -8; }
        cursor := AlignUp(cur + HEADER + mem[cur].size);
        if cursor == 0 || cursor > end { return -9; }
        prev := cur;
        cur := mem[cur].next;
        i := i + 1;
      }
      return 0;
    }

    /** kmem_get_stats */
    method GetStats() returns (s: Stats)
      requires Valid()
      ensures !initialized ==> s == Stats(0, 0, 0, 0, 0, 0)
      ensures initialized ==>
                && s.total == end - base && s.blockCount == |blocks|
                && s.used == UsedBytes(blocks) && s.free == FreeBytes(blocks)
                && s.freeCount == FreeCount(blocks) && LargestFree(blocks, s.largestFree)
                && s.used + s.free + HEADER * s.blockCount == s.total
    {
      s := Stats(0, 0, 0, 0, 0, 0);
      if !initialized { return; }
      s := s.(total := end - base);
      assert Counted(blocks[..0], s);
      hide Offset, Total, Rep, AlignedSizes, Counted, UsedBytes, FreeBytes, FreeCount, LargestFree;
      var cur := head;
      ghost var i := 0;
      HeadAt(base, blocks);
      while cur != 0
        invariant 0 <= i <= |blocks| && cur == if i < |blocks| then At(base, blocks, i) else 0
        invariant s.total == end - base && Counted(blocks[..i], s)
        decreases |blocks| - i
      {
        BlockFacts(mem, base, blocks, i);
        NextInMem(mem, base, blocks, i);
        CountedNext(blocks, i, s);
        s := s.(blockCount := s.blockCount + 1);
        if mem[cur].free {
          s := s.(freeCount := s.freeCount + 1, free := s.free + mem[cur].size);
          if mem[cur].size > s.largestFree { s := s.(largestFree := mem[cur].size); }
        } else {
          s := s.(used := s.used + mem[cur].size);
        }
        cur := mem[cur].next;
        i := i + 1;
      }
      assert blocks[..i] == blocks;
      CountedIs(blocks, s);
      Conservation(blocks);
    }

    /** Position of the block whose header is at address a, or the list length. */
    static ghost function HeaderIndex(base: nat, l: Blocks, a: nat, i: nat): (r: nat)
      requires i <= |l|
      ensures i <= r <= |l|
      ensures r < |l| ==> At(base, l, r) == a
      ensures forall k :: i <= k < r ==> At(base, l, k) != a
      decreases |l| - i
    {
      if i == |l| || At(base, l, i) == a then i else HeaderIndex(base, l, a, i + 1)
    }

    /** kmem_free_checked */
    method FreeChecked(p: nat) returns (rc: int)
      requires Valid()
      modifies this`mem, this`blocks
      ensures Valid()
      ensures p == 0 ==> rc == 0
      ensures p != 0 && (!initialized || p < base || p >= end) ==> rc == -1
      ensures initialized && base <= p < end && p % 16 != 0 ==> rc == -2
      ensures initialized && base <= p < end && p % 16 == 0 ==>
                var i := if p < base + HEADER then |old(blocks)| else HeaderIndex(base, old(blocks), p - HEADER, 0);
                if i == |old(blocks)| then rc == -3 && mem == old(mem) && blocks == old(blocks)
                else if old(blocks)[i].free then rc == -4 && blocks == old(blocks)
                else blocks == Release(old(blocks), i) && rc == if |blocks| <= MAX_BLOCKS then 0 else -3
      ensures p == 0 || rc in {-1, -2, -4} ==> mem == old(mem) && blocks == old(blocks)
    {
      hide Offset, Total, Rep, AlignedSizes, Inv, Merge;
      if p == 0 { return 0; }
      if !initialized || p < base || p >= end { return -1; }
      if p % 16 != 0 { return -2; }
      if p < base + HEADER { return -3; }
      var block := p - HEADER;
      ghost var i := HeaderIndex(base, blocks, block, 0);
      if block !in mem || mem[block].magic != MAGIC {
        assert i == |blocks| by { NoHeader(mem, base, blocks, block); }
        return -3;
      }
      assert i < |blocks| by { SomeHeader(mem, base, blocks, block); }
      BlockFacts(mem, base, blocks, i);
      if mem[block].free { return -4; }
      rc := Free(block, i);
    }

    /** The part of kmem_free_checked that changes the heap, on used block i. */
    method Free(block: nat, ghost i: nat) returns (rc: int)
      requires Valid() && initialized && i < |blocks| && block == At(base, blocks, i) && !blocks[i].free
      modifies this`mem, this`blocks
      ensures Valid() && blocks == Release(old(blocks), i)
      ensures rc == if |blocks| <= MAX_BLOCKS then 0 else -3
    {
      hide Offset, Total, Rep, AlignedSizes, Merge, Coalesce;
      ghost var l := blocks;
      assert Inv(l) by { InvParts(l); }
      ReleaseKeeps(l, i);
      InvMeans(Release(l, i));
      BlockFacts(mem, base, blocks, i);
      FreedKeeps(l, i);
      SetFlag(mem, base, blocks, i, true);
      mem := mem[block := mem[block].(free := true)];
      blocks := WithFlag(blocks, i, true);
      assert blocks == Freed(l, i);
      SameSizesSameAddress(base, l, blocks, i);
      CoalesceForward(block, i);
      ghost var l2 := blocks;
      CoalesceBefore(base, Freed(l, i), i);
      PrevInMem(mem, base, blocks, i);
      BlockFacts(mem, base, blocks, i);
      var prev := mem[block].prev;
      if prev != 0 && mem[prev].free {
        CoalesceForward(prev, i - 1);
      }
      rc := Validate();
    }
  }

  /**
   A second free of a pointer is refused: after the first free of p and any further frees,
   with no allocation in between, the header in front of p is gone or marked free, so
   kmem_free_checked returns -3 or -4 and changes nothing.
   */
  lemma {:induction false} SecondFreeRefused(base: nat, l: Blocks, i: nat, frees: seq<Op>)
    requires Inv(l) && i < |l| && !l[i].free && forall k :: 0 <= k < |frees| ==> frees[k].FreeOp?
    ensures var m := Run(base, Release(l, i), frees);
            var r := KernelHeap.HeaderIndex(base, m, At(base, l, i), 0);
            r == |m| || m[r].free
  {
    hide Inv, Offset, Live, Release;
    var p := Payload(base, l, i);
    ReleaseKeeps(l, i);
    ReleaseDropsLive(base, l, i);
    DoubleFree(base, Release(l, i), p, frees);
    var m := Run(base, Release(l, i), frees);
    var r := KernelHeap.HeaderIndex(base, m, At(base, l, i), 0);
    if r < |m| { LiveAt(base, m, r); }
  }

  // ---------- facts about the representation ----------

  lemma {:induction false} FirstRep(base: nat, size: nat)
    requires base > 0
    ensures Rep(map[base := Header(MAGIC, size, true, 0, 0)], base, [Blk(size, true)])
  {
    var l := [Blk(size, true)];
    var mem: Memory := map[base := Header(MAGIC, size, true, 0, 0)];
    assert l[..0] == [];
    assert At(base, l, 0) == base;
    assert NodeAt(mem, base, l, 0);
  }

  lemma {:induction false} HeadAt(base: nat, l: Blocks)
    ensures At(base, l, 0) == base
  {
    assert l[..0] == [];
  }

  /** Block i's header is in memory, within the heap and 16-aligned. */
  lemma {:induction false} BlockFacts(mem: Memory, base: nat, l: Blocks, i: nat)
    requires Rep(mem, base, l) && i < |l|
    ensures At(base, l, i) in mem && mem[At(base, l, i)] == HeaderOf(base, l, i)
    ensures 0 < base <= At(base, l, i) && At(base, l, i) + HEADER + l[i].size <= base + Total(l)
    ensures AlignedSizes(l) && base % 16 == 0 ==> At(base, l, i) % 16 == 0 && l[i].size % 16 == 0
  {
    hide Offset, Total;
    assert NodeAt(mem, base, l, i);
    OffsetMono(l, i, |l|);
    if AlignedSizes(l) { OffsetAligned(l, i); }
  }

  lemma {:induction false} NextInMem(mem: Memory, base: nat, l: Blocks, i: nat)
    requires Rep(mem, base, l) && i < |l|
    ensures At(base, l, i) in mem
    ensures var nx := mem[At(base, l, i)].next;
            && nx == (if i + 1 < |l| then At(base, l, i + 1) else 0)
            && (i + 1 < |l| ==> nx in mem && nx != 0 && mem[nx].free == l[i + 1].free && nx != At(base, l, i))
  {
    hide Offset, Total;
    assert NodeAt(mem, base, l, i);
    if i + 1 < |l| {
      assert NodeAt(mem, base, l, i + 1);
      AtDistinct(base, l, i, i + 1);
    }
  }

  /** Neighbours touch: the header of block i + 1 follows the payload of block i. */
  lemma {:induction false} Touching(base: nat, l: Blocks, i: nat)
    requires i + 1 < |l|
    ensures At(base, l, i + 1) == At(base, l, i) + HEADER + l[i].size
  {
    OffsetNext(l, i);
  }

  lemma {:induction false} MergeStill(base: nat, l: Blocks, i: nat)
    requires i + 1 < |l|
    ensures i < |Merge(l, i)| && At(base, Merge(l, i), i) == At(base, l, i)
  {
    assert Merge(l, i)[..i] == l[..i];
  }

  /** All the tests of a split come down to one: is more than a header and 32 bytes left over? */
  lemma {:induction false} SplitDecision(block: nat, size: nat, wanted: nat, end: nat)
    requires block % 16 == 0 && size % 16 == 0 && wanted % 16 == 0 && wanted <= size
    requires block + HEADER + size <= end < U64 - 16
    ensures var n := AlignUp(block + HEADER + wanted);
            && n == block + HEADER + wanted && n != 0
            && (n + HEADER >= end ==> size <= wanted + HEADER + MIN_SPLIT)
  {
  }

  lemma {:induction false} DividedSize(l: Blocks, i: nat, wanted: nat)
    requires i < |l| && l[i].size >= wanted + HEADER
    ensures |Divided(l, i, wanted)| == |l| + 1
  {
  }

  lemma {:induction false} DividedKeeps(l: Blocks, i: nat, wanted: nat)
    requires i < |l| && AlignedSizes(l) && wanted % 16 == 0
    ensures l[i].size >= wanted + HEADER ==>
            AlignedSizes(Divided(l, i, wanted)) && Total(Divided(l, i, wanted)) == Total(l)
  {
    hide Total;
    if l[i].size >= wanted + HEADER {
      var x, y := Blk(wanted, l[i].free), Blk(l[i].size - wanted - HEADER, true);
      TotalAround(l, i);
      TotalConcat(l[..i] + [x, y], l[i + 1..]);
      TotalConcat(l[..i], [x, y]);
      assert [x, y] == [x] + [y];
      TotalConcat([x], [y]);
      TotalOne(x);
      TotalOne(y);
    }
  }

  /** Splitting and then clearing the flag is taking the block. */
  lemma {:induction false} TakeIsDivide(l: Blocks, i: nat, wanted: nat)
    requires i < |l| && l[i].size >= wanted
    ensures var m := if l[i].size > wanted + HEADER + MIN_SPLIT then Divided(l, i, wanted) else l;
            i < |m| && WithFlag(m, i, false) == TakeBlock(l, i, wanted) && At(0, m, i) == At(0, l, i)
  {
    hide Total;
    var m := if l[i].size > wanted + HEADER + MIN_SPLIT then Divided(l, i, wanted) else l;
    assert m[..i] == l[..i];
    assert WithFlag(m, i, false) == TakeBlock(l, i, wanted);
  }

  lemma {:induction false} InvParts(l: Blocks)
    requires l != [] && AlignedSizes(l) && NoAdjacentFree(l)
    ensures Inv(l)
  {
  }

  lemma {:induction false} InvMeans(l: Blocks)
    requires Inv(l)
    ensures l != [] && AlignedSizes(l) && NoAdjacentFree(l)
  {
  }

  lemma {:induction false} AllocSize(l: Blocks, bytes: nat)
    requires bytes < U64
    ensures Heap.Alloc(l, bytes).Got? ==>
            var a := Heap.Alloc(l, bytes); a.index < |a.blocks| && bytes <= a.blocks[a.index].size
  {
    var wanted := AlignUp(bytes);
    if bytes != 0 && wanted != 0 {
      var i := FirstFit(l, wanted, 0);
      if i < |l| { assert TakeBlock(l, i, wanted)[i].size >= wanted >= bytes; }
    }
  }

  lemma {:induction false} ProductFits(count: nat, bytes: nat)
    requires count == 0 || bytes <= (U64 - 1) / count
    ensures 0 <= count * bytes < U64
  {
    if count != 0 {
      var q := (U64 - 1) / count;
      MulMono(count, bytes, q);
      assert count * q <= U64 - 1;
    }
  }

  lemma {:induction false} ProductOverflows(count: nat, bytes: nat)
    requires count != 0 && bytes > (U64 - 1) / count
    ensures count * bytes >= U64
  {
    var q := (U64 - 1) / count;
    MulMono(count, q + 1, bytes);
    assert count * (q + 1) == count * q + count;
    assert U64 - 1 < count * q + count;
  }

  lemma {:induction false} MulMono(c: nat, x: nat, y: nat)
    requires x <= y
    ensures c * x <= c * y
  {
  }

  /** AlignUp leaves a block's end alone. */
  lemma {:induction false} EndOf(base: nat, l: Blocks, i: nat)
    requires i < |l|
    ensures At(base, l, i + 1) == At(base, l, i) + HEADER + l[i].size && At(base, l, i + 1) <= base + Total(l)
  {
    OffsetNext(l, i);
    OffsetMono(l, i, i + 1);
  }

  /** One more block: what the loop of kmem_get_stats adds for it. */
  lemma {:induction false} CountedNext(l: Blocks, i: nat, s: Stats)
    requires i < |l| && Counted(l[..i], s)
    ensures var b := l[i];
            Counted(l[..i + 1],
                    if b.free then s.(blockCount := i + 1, freeCount := s.freeCount + 1, free := s.free + b.size,
                                      largestFree := if b.size > s.largestFree then b.size else s.largestFree)
                    else s.(blockCount := i + 1, used := s.used + b.size))
  {
    hide LargestFree;
    var seen := l[..i];
    assert l[..i + 1] == seen + [l[i]] && l[..i + 1][..i] == seen;
    LargestNext(seen, l[i], s.largestFree);
  }

  lemma {:induction false} CountedIs(l: Blocks, s: Stats)
    requires Counted(l, s)
    ensures s.blockCount == |l| && s.used == UsedBytes(l) && s.free == FreeBytes(l)
    ensures s.freeCount == FreeCount(l) && LargestFree(l, s.largestFree)
  {
  }

  lemma {:induction false} LargestNext(l: Blocks, b: Blk, n: nat)
    requires LargestFree(l, n)
    ensures LargestFree(l + [b], if b.free && b.size > n then b.size else n)
  {
    var m, k := l + [b], if b.free && b.size > n then b.size else n;
    assert m[|l|] == b;
    if k > 0 && !(b.free && b.size > n) {
      var i :| 0 <= i < |l| && l[i].free && l[i].size == n;
      assert m[i] == l[i];
    }
  }

  lemma {:induction false} NoHeader(mem: Memory, base: nat, l: Blocks, a: nat)
    requires Rep(mem, base, l) && (a !in mem || mem[a].magic != MAGIC)
    ensures KernelHeap.HeaderIndex(base, l, a, 0) == |l|
  {
    hide Offset;
    var r := KernelHeap.HeaderIndex(base, l, a, 0);
    assert r < |l| ==> NodeAt(mem, base, l, r);
  }

  lemma {:induction false} SomeHeader(mem: Memory, base: nat, l: Blocks, a: nat)
    requires Rep(mem, base, l) && a in mem && mem[a].magic == MAGIC
    ensures KernelHeap.HeaderIndex(base, l, a, 0) < |l|
  {
    hide Offset;
    var k :| 0 <= k < |l| && a == At(base, l, k);
  }

  /** Coalescing from i leaves everything before i alone. */
  lemma {:induction false} CoalesceBefore(base: nat, l: Blocks, i: nat)
    requires i < |l|
    ensures i < |Coalesce(l, i)| && Coalesce(l, i)[..i] == l[..i] && At(base, Coalesce(l, i), i) == At(base, l, i)
    decreases |l|
  {
    hide Total;
    if i + 1 < |l| && l[i + 1].free {
      MergeStill(base, l, i);
      assert Merge(l, i)[..i] == l[..i];
      CoalesceBefore(base, Merge(l, i), i);
    }
  }

  lemma {:induction false} PrevInMem(mem: Memory, base: nat, l: Blocks, i: nat)
    requires Rep(mem, base, l) && i < |l|
    ensures At(base, l, i) in mem
    ensures var pv := mem[At(base, l, i)].prev;
            && pv == (if i > 0 then At(base, l, i - 1) else 0)
            && (i > 0 ==> pv in mem && pv != 0 && mem[pv].free == l[i - 1].free)
  {
    hide Offset, Total;
    assert NodeAt(mem, base, l, i);
    if i > 0 { assert NodeAt(mem, base, l, i - 1); }
  }
}
