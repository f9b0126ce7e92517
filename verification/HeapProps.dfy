/**
 What every heap run keeps: the blocks tile the heap, no two neighbours are free, live
 allocations are a map from payload address to size that alloc and free update at one
 key, and freeing everything restores the single initial block.
 */
module HeapProps {
  import opened Words
  import opened Heap

  // ---------- tiling and coalescing ----------

  /** Taking a block keeps the tiling and never leaves two free neighbours. */
  lemma {:induction false} TakeKeeps(l: Blocks, i: nat, wanted: nat)
    requires Inv(l) && i < |l| && Fits(l[i], wanted) && wanted % 16 == 0
    ensures Inv(TakeBlock(l, i, wanted)) && Total(TakeBlock(l, i, wanted)) == Total(l)
  {
    hide Total;
    var a, b := l[..i], l[i + 1..];
    TotalAround(l, i);
    if l[i].size > wanted + HEADER + MIN_SPLIT {
      var x, y := Blk(wanted, false), Blk(l[i].size - wanted - HEADER, true);
      TotalConcat(a + [x, y], b);
      TotalConcat(a, [x, y]);
      assert [x, y] == [x] + [y];
      TotalConcat([x], [y]);
      TotalOne(x);
      TotalOne(y);
    } else {
      var x := Blk(l[i].size, false);
      TotalConcat(a + [x], b);
      TotalConcat(a, [x]);
      TotalOne(x);
    }
  }

  lemma {:induction false} MergeKeeps(l: Blocks, i: nat)
    requires i + 1 < |l| && AlignedSizes(l)
    ensures AlignedSizes(Merge(l, i)) && Total(Merge(l, i)) == Total(l) && |Merge(l, i)| == |l| - 1
    ensures Merge(l, i)[..i] == l[..i]
  {
    hide Total;
    var x := Blk(l[i].size + HEADER + l[i + 1].size, l[i].free);
    assert l == l[..i] + [l[i], l[i + 1]] + l[i + 2..];
    TotalConcat(l[..i] + [l[i], l[i + 1]], l[i + 2..]);
    TotalConcat(l[..i], [l[i], l[i + 1]]);
    assert [l[i], l[i + 1]] == [l[i]] + [l[i + 1]];
    TotalConcat([l[i]], [l[i + 1]]);
    TotalOne(l[i]);
    TotalOne(l[i + 1]);
    TotalConcat(l[..i] + [x], l[i + 2..]);
    TotalConcat(l[..i], [x]);
    TotalOne(x);
  }

  /** Where no two neighbours are free past i + 1, the coalescing loop merges at most once. */
  lemma {:induction false} CoalesceOnce(l: Blocks, i: nat)
    requires i < |l| && (i + 2 < |l| ==> !(l[i + 1].free && l[i + 2].free))
    ensures Coalesce(l, i) == if i + 1 < |l| && l[i + 1].free then Merge(l, i) else l
  {
    if i + 1 < |l| && l[i + 1].free {
      var m := Merge(l, i);
      assert i + 1 < |m| ==> m[i + 1] == l[i + 2];
      assert Coalesce(m, i) == m;
    }
  }

  /** Releasing a used block merges it with its free neighbours: invariant kept, bytes conserved. */
  lemma {:induction false} ReleaseKeeps(l: Blocks, i: nat)
    requires Inv(l) && i < |l| && !l[i].free
    ensures Inv(Release(l, i)) && Total(Release(l, i)) == Total(l)
  {
    hide Total, Merge;
    var l1 := Freed(l, i);
    FreedKeeps(l, i);
    CoalesceOnce(l1, i);
    var l2 := Coalesce(l1, i);
    if i + 1 < |l1| && l1[i + 1].free {
      MergeKeeps(l1, i);
      MergeApart(l1, i);
    }
    if i > 0 && l2[i - 1].free {
      CoalesceOnce(l2, i - 1);
      MergeKeeps(l2, i - 1);
      MergeApart(l2, i - 1);
    }
  }

  function Freed(l: Blocks, i: nat): Blocks
    requires i < |l|
  {
    l[..i] + [Blk(l[i].size, true)] + l[i + 1..]
  }

  lemma {:induction false} FreedKeeps(l: Blocks, i: nat)
    requires Inv(l) && i < |l|
    ensures AlignedSizes(Freed(l, i)) && Total(Freed(l, i)) == Total(l) && |Freed(l, i)| == |l|
    ensures forall k :: 0 <= k < |l| && k != i ==> Freed(l, i)[k] == l[k]
    ensures Freed(l, i)[i] == Blk(l[i].size, true)
  {
    hide Total;
    var x := Blk(l[i].size, true);
    TotalAround(l, i);
    TotalConcat(l[..i] + [x], l[i + 1..]);
    TotalConcat(l[..i], [x]);
    TotalOne(x);
  }

  /** Merging a pair leaves only the boundary before it in doubt. */
  lemma {:induction false} MergeApart(l: Blocks, i: nat)
    requires i + 1 < |l| && l[i].free && l[i + 1].free
    ensures var m := Merge(l, i);
            && m[i].free
            && (forall k :: 0 <= k < i ==> m[k] == l[k])
            && (forall k :: i < k < |m| ==> m[k] == l[k + 1])
  {
  }

  // ---------- live allocations ----------

  /** Live payloads: address to size, for blocks starting at address base. */
  function Live(base: nat, l: Blocks): map<nat, nat>
    decreases |l|
  {
    if l == [] then map[]
    else
      var init, b := l[..|l| - 1], l[|l| - 1];
      var m := Live(base, init);
      if b.free then m else m[base + Total(init) + HEADER := b.size]
  }

  lemma {:induction false} LiveBounds(base: nat, l: Blocks, p: nat)
    requires p in Live(base, l)
    ensures base + HEADER <= p && p + Live(base, l)[p] <= base + Total(l)
    decreases |l|
  {
    var init, b := l[..|l| - 1], l[|l| - 1];
    if b.free || p != base + Total(init) + HEADER { LiveBounds(base, init, p); }
  }

  lemma {:induction false} LiveConcat(base: nat, a: Blocks, b: Blocks)
    ensures Live(base, a + b) == Live(base, a) + Live(base + Total(a), b)
    decreases |b|
  {
    hide Total;
    if b == [] {
      assert a + b == a;
      assert Live(base, a) + map[] == Live(base, a);
    } else {
      var b0, x := b[..|b| - 1], b[|b| - 1];
      LiveConcat(base, a, b0);
      assert (a + b)[..|a + b| - 1] == a + b0;
      TotalConcat(a, b0);
    }
  }

  lemma {:induction false} LiveOne(base: nat, b: Blk)
    ensures Live(base, [b]) == if b.free then map[] else map[base + HEADER := b.size]
  {
    assert [b][..0] == [];
    assert Total([]) == 0;
  }

  function Payload(base: nat, l: Blocks, i: nat): nat
    requires i < |l|
  {
    base + Offset(l, i) + HEADER
  }

  lemma {:induction false} LiveAround(base: nat, a: Blocks, b: Blk, c: Blocks)
    ensures Live(base, a + [b] + c) ==
            Live(base, a)
            + (if b.free then map[] else map[base + Total(a) + HEADER := b.size])
            + Live(base + Total(a) + HEADER + b.size, c)
  {
    hide Total;
    LiveConcat(base, a + [b], c);
    LiveConcat(base, a, [b]);
    LiveOne(base + Total(a), b);
    TotalConcat(a, [b]);
    TotalOne(b);
  }

  /** Block i is live exactly under its own payload address. */
  lemma {:induction false} LiveAt(base: nat, l: Blocks, i: nat)
    requires i < |l|
    ensures var p := Payload(base, l, i);
            if l[i].free then p !in Live(base, l) else p in Live(base, l) && Live(base, l)[p] == l[i].size
  {
    hide Total;
    var a, c := l[..i], l[i + 1..];
    assert l == a + [l[i]] + c;
    LiveAround(base, a, l[i], c);
    var p := Payload(base, l, i);
    NotBefore(base, a, p);
    NotAfter(base + Total(a) + HEADER + l[i].size, c, p);
  }

  lemma {:induction false} NotBefore(base: nat, a: Blocks, p: nat)
    requires p >= base + Total(a) + HEADER
    ensures p !in Live(base, a)
    decreases |a|
  {
    if a != [] { NotBefore(base, a[..|a| - 1], p); }
  }

  lemma {:induction false} NotAfter(base: nat, c: Blocks, p: nat)
    requires p < base + HEADER
    ensures p !in Live(base, c)
    decreases |c|
  {
    if c != [] { NotAfter(base, c[..|c| - 1], p); }
  }

  /** A free block in front moves no live payload. */
  lemma {:induction false} LiveBehindFree(base: nat, b: Blk, c: Blocks)
    requires b.free
    ensures Live(base, [b] + c) == Live(base + HEADER + b.size, c)
  {
    hide Total;
    LiveConcat(base, [b], c);
    LiveOne(base, b);
    TotalOne(b);
    assert map[] + Live(base + HEADER + b.size, c) == Live(base + HEADER + b.size, c);
  }

  /** A used block of another size in the place of block i. */
  lemma {:induction false} LiveReplace(base: nat, l: Blocks, i: nat, size: nat, c: Blocks)
    requires i < |l| && l[i].free
    requires Live(base + Offset(l, i) + HEADER + size, c) == Live(base + Offset(l, i) + HEADER + l[i].size, l[i + 1..])
    ensures Live(base, l[..i] + [Blk(size, false)] + c) == Live(base, l)[Payload(base, l, i) := size]
  {
    hide Total, Live;
    var a, p := l[..i], Payload(base, l, i);
    assert l == a + [l[i]] + l[i + 1..];
    LiveAround(base, a, l[i], l[i + 1..]);
    LiveAround(base, a, Blk(size, false), c);
    NotAfter(base + Total(a) + HEADER + l[i].size, l[i + 1..], p);
  }

  /** Allocation adds one live payload, of at least the requested size, and moves no other. */
  lemma {:induction false} TakeAddsLive(base: nat, l: Blocks, i: nat, wanted: nat)
    requires i < |l| && Fits(l[i], wanted)
    ensures var p, m := Payload(base, l, i), TakeBlock(l, i, wanted);
            && p !in Live(base, l) && i < |m| && wanted <= m[i].size
            && Live(base, m) == Live(base, l)[p := m[i].size]
            && Payload(base, m, i) == p
  {
    hide Total, Live;
    LiveAt(base, l, i);
    var m, at := TakeBlock(l, i, wanted), base + Offset(l, i) + HEADER;
    assert m[..i] == l[..i];
    if l[i].size > wanted + HEADER + MIN_SPLIT {
      var rest := Blk(l[i].size - wanted - HEADER, true);
      LiveBehindFree(at + wanted, rest, l[i + 1..]);
      LiveReplace(base, l, i, wanted, [rest] + l[i + 1..]);
      assert m == l[..i] + [Blk(wanted, false)] + ([rest] + l[i + 1..]);
    } else {
      LiveReplace(base, l, i, l[i].size, l[i + 1..]);
    }
  }

  /** Freeing the header of a free block next door moves no live payload. */
  lemma {:induction false} MergeKeepsLive(base: nat, l: Blocks, i: nat)
    requires i + 1 < |l| && l[i].free && l[i + 1].free
    ensures Live(base, Merge(l, i)) == Live(base, l)
  {
    hide Total, Live;
    var a, c := l[..i], l[i + 2..];
    var x := Blk(l[i].size + HEADER + l[i + 1].size, true);
    assert l == a + ([l[i]] + ([l[i + 1]] + c));
    assert Merge(l, i) == a + ([x] + c);
    var q := base + Total(a);
    LiveConcat(base, a, [l[i]] + ([l[i + 1]] + c));
    LiveConcat(base, a, [x] + c);
    LiveBehindFree(q, l[i], [l[i + 1]] + c);
    LiveBehindFree(q + HEADER + l[i].size, l[i + 1], c);
    LiveBehindFree(q, x, c);
  }

  lemma {:induction false} FreedDropsLive(base: nat, l: Blocks, i: nat)
    requires i < |l| && !l[i].free
    ensures Live(base, Freed(l, i)) == Live(base, l) - {Payload(base, l, i)}
  {
    hide Total;
    var a, c := l[..i], l[i + 1..];
    var p := Payload(base, l, i);
    assert l == a + [l[i]] + c;
    LiveAround(base, a, l[i], c);
    LiveAround(base, a, Blk(l[i].size, true), c);
    NotBefore(base, a, p);
    NotAfter(base + Total(a) + HEADER + l[i].size, c, p);
  }

  /** Free removes exactly one live payload and moves no other. */
  lemma {:induction false} ReleaseDropsLive(base: nat, l: Blocks, i: nat)
    requires Inv(l) && i < |l| && !l[i].free
    ensures Live(base, Release(l, i)) == Live(base, l) - {Payload(base, l, i)}
  {
    hide Total, Merge, Live;
    var l1 := Freed(l, i);
    FreedKeeps(l, i);
    FreedDropsLive(base, l, i);
    CoalesceOnce(l1, i);
    var l2 := Coalesce(l1, i);
    if i + 1 < |l1| && l1[i + 1].free {
      MergeKeepsLive(base, l1, i);
      MergeKeeps(l1, i);
      MergeApart(l1, i);
    }
    if i > 0 && l2[i - 1].free {
      CoalesceOnce(l2, i - 1);
      MergeKeepsLive(base, l2, i - 1);
    }
  }

  // ---------- whole runs ----------

  /** Position of the used block with this payload address, or the list length. */
  function Find(base: nat, l: Blocks, p: nat, i: nat): (r: nat)
    requires i <= |l|
    ensures i <= r <= |l|
    ensures r < |l| ==> !l[r].free && Payload(base, l, r) == p
    decreases |l| - i
  {
    if i == |l| then i
    else if !l[i].free && Payload(base, l, i) == p then i
    else Find(base, l, p, i + 1)
  }

  lemma {:induction false} FindLive(base: nat, l: Blocks, p: nat)
    requires p in Live(base, l)
    ensures Find(base, l, p, 0) < |l|
  {
    hide Live;
    var j := IndexOfLive(base, l, p);
    FindReaches(base, l, p, 0, j);
  }

  lemma {:induction false} IndexOfLive(base: nat, l: Blocks, p: nat) returns (j: nat)
    requires p in Live(base, l)
    ensures j < |l| && !l[j].free && Payload(base, l, j) == p
    decreases |l|
  {
    hide Total;
    var init, b := l[..|l| - 1], l[|l| - 1];
    if !b.free && p == base + Total(init) + HEADER {
      j := |l| - 1;
    } else {
      j := IndexOfLive(base, init, p);
      assert init[..j] == l[..j];
    }
  }

  lemma {:induction false} FindReaches(base: nat, l: Blocks, p: nat, i: nat, j: nat)
    requires i <= j < |l| && !l[j].free && Payload(base, l, j) == p
    ensures Find(base, l, p, i) <= j
    decreases j - i
  {
    if i < j { FindReaches(base, l, p, i + 1, j); }
  }

  datatype Op = AllocOp(bytes: nat) | FreeOp(p: nat)

  predicate ValidOp(op: Op) { op.AllocOp? ==> op.bytes < U64 }

  /** An operation of a run; freeing an address that is not live changes nothing. */
  function Perform(base: nat, l: Blocks, op: Op): Blocks
    requires ValidOp(op)
  {
    match op
    case AllocOp(bytes) => var a := Alloc(l, bytes); if a.Got? then a.blocks else l
    case FreeOp(p) => var i := Find(base, l, p, 0); if i < |l| then Release(l, i) else l
  }

  function Run(base: nat, l: Blocks, ops: seq<Op>): Blocks
    requires forall k :: 0 <= k < |ops| ==> ValidOp(ops[k])
    decreases |ops|
  {
    if ops == [] then l else Perform(base, Run(base, l, ops[..|ops| - 1]), ops[|ops| - 1])
  }

  /** Heap tiling and coalescing over every run of alloc, calloc and free. */
  lemma {:induction false} RunKeeps(base: nat, l: Blocks, ops: seq<Op>)
    requires Inv(l) && forall k :: 0 <= k < |ops| ==> ValidOp(ops[k])
    ensures Inv(Run(base, l, ops)) && Total(Run(base, l, ops)) == Total(l)
    decreases |ops|
  {
    hide Inv, Total, TakeBlock, Release;
    if ops != [] {
      RunKeeps(base, l, ops[..|ops| - 1]);
      var m, op := Run(base, l, ops[..|ops| - 1]), ops[|ops| - 1];
      match op
      case AllocOp(bytes) =>
        if Alloc(m, bytes).Got? {
          TakeKeeps(m, FirstFit(m, AlignUp(bytes), 0), AlignUp(bytes));
        }
      case FreeOp(p) =>
        var i := Find(base, m, p, 0);
        if i < |m| { ReleaseKeeps(m, i); }
    }
  }

  /** The next multiple of 16, with no bound on the result. */
  function Rounded(bytes: nat): nat { (bytes + 15) / 16 * 16 }

  /** In a heap inside the address space, rounding that would wrap asks for more than any block has. */
  lemma {:induction false} RoundedFits(l: Blocks, bytes: nat, k: nat)
    requires Total(l) < U64 && 0 < bytes < U64 && k < |l|
    ensures if AlignUp(bytes) == 0 then l[k].size < Rounded(bytes) else AlignUp(bytes) == Rounded(bytes)
  {
    TotalAround(l, k);
  }

  /**
   kmem_alloc fails for a non-zero request exactly when no free block holds the rounded size,
   and otherwise takes the lowest one that does.
   */
  lemma {:induction false} AllocFailsIff(l: Blocks, bytes: nat)
    requires Total(l) < U64 && 0 < bytes < U64
    ensures Alloc(l, bytes).Failed? <==> forall k :: 0 <= k < |l| ==> !Fits(l[k], Rounded(bytes))
    ensures Alloc(l, bytes).Got? ==>
              var i := Alloc(l, bytes).index;
              i < |l| && Fits(l[i], Rounded(bytes)) && forall k :: 0 <= k < i ==> !Fits(l[k], Rounded(bytes))
  {
    hide TakeBlock, AlignUp, Rounded, Total;
    forall k | 0 <= k < |l|
      ensures if AlignUp(bytes) == 0 then l[k].size < Rounded(bytes) else AlignUp(bytes) == Rounded(bytes)
    {
      RoundedFits(l, bytes, k);
    }
    assert forall k :: 0 <= k < |l| ==>
           (AlignUp(bytes) != 0 && Fits(l[k], AlignUp(bytes)) <==> Fits(l[k], Rounded(bytes)));
  }

  /** Live payloads are 16-aligned, inside the heap and pairwise disjoint. */
  lemma {:induction false} LiveSeparate(base: nat, l: Blocks, p: nat, q: nat)
    requires base % 16 == 0 && AlignedSizes(l) && p in Live(base, l) && q in Live(base, l) && p < q
    ensures p % 16 == 0 && base + HEADER <= p
    ensures p + Live(base, l)[p] + HEADER <= q
    ensures q + Live(base, l)[q] <= base + Total(l)
  {
    hide Live, Total, Offset;
    LiveBounds(base, l, p);
    LiveBounds(base, l, q);
    var i := IndexOfLive(base, l, p);
    var j := IndexOfLive(base, l, q);
    LiveAt(base, l, i);
    LiveAt(base, l, j);
    OffsetAligned(l, i);
    if i < j {
      OffsetMono(l, i, j);
    } else if j < i {
      OffsetMono(l, j, i);
    }
  }

  /** A second free of the same pointer, with nothing allocated in between, finds no live block. */
  lemma {:induction false} DoubleFree(base: nat, l: Blocks, p: nat, frees: seq<Op>)
    requires Inv(l) && p !in Live(base, l)
    requires forall k :: 0 <= k < |frees| ==> frees[k].FreeOp?
    ensures p !in Live(base, Run(base, l, frees))
    ensures Perform(base, Run(base, l, frees), FreeOp(p)) == Run(base, l, frees)
    decreases |frees|
  {
    hide Inv, Live, Release;
    if frees != [] {
      var init := frees[..|frees| - 1];
      DoubleFree(base, l, p, init);
      var m := Run(base, l, init);
      RunKeeps(base, l, init);
      var i := Find(base, m, frees[|frees| - 1].p, 0);
      if i < |m| { ReleaseDropsLive(base, m, i); }
    }
    var m := Run(base, l, frees);
    var i := Find(base, m, p, 0);
    if i < |m| { LiveAt(base, m, i); }
  }

  /** With nothing live and no two free neighbours, the heap is one free block. */
  lemma {:induction false} NothingLive(base: nat, l: Blocks)
    requires Inv(l) && Live(base, l) == map[]
    ensures l == [Blk(Total(l) - HEADER, true)]
  {
    hide Total, Live;
    assert |l| > 1 ==> !(l[0].free && l[0 + 1].free);
    forall i | 0 <= i < |l| ensures l[i].free { LiveAt(base, l, i); }
    TotalOne(l[0]);
    assert l == [l[0]];
  }

  /** Freeing every live pointer, in any order, returns the heap to its single initial block. */
  lemma {:induction false} FreeAll(base: nat, l: Blocks, ps: seq<nat>)
    requires Inv(l) && forall p :: p in Live(base, l) ==> p in ps
    ensures Run(base, l, seq(|ps|, k requires 0 <= k < |ps| => FreeOp(ps[k]))) == [Blk(Total(l) - HEADER, true)]
  {
    hide Inv, Total, Live;
    var ops := seq(|ps|, k requires 0 <= k < |ps| => FreeOp(ps[k]));
    RunKeeps(base, l, ops);
    var m := Run(base, l, ops);
    forall p | p in Live(base, m) ensures false {
      LiveShrinks(base, l, ops, p);
      var k :| 0 <= k < |ps| && ps[k] == p;
      FreedGone(base, l, ops, k);
    }
    assert Live(base, m) == map[];
    NothingLive(base, m);
  }

  lemma {:induction false} LiveShrinks(base: nat, l: Blocks, frees: seq<Op>, p: nat)
    requires Inv(l) && forall k :: 0 <= k < |frees| ==> frees[k].FreeOp?
    requires p in Live(base, Run(base, l, frees))
    ensures p in Live(base, l)
    decreases |frees|
  {
    hide Inv, Live, Release;
    if frees != [] {
      var init := frees[..|frees| - 1];
      var m := Run(base, l, init);
      RunKeeps(base, l, init);
      var i := Find(base, m, frees[|frees| - 1].p, 0);
      if i < |m| { ReleaseDropsLive(base, m, i); }
      LiveShrinks(base, l, init, p);
    }
  }

  /** A freed address is not live at the end of a run of frees. */
  lemma {:induction false} FreedGone(base: nat, l: Blocks, frees: seq<Op>, k: nat)
    requires Inv(l) && k < |frees| && forall j :: 0 <= j < |frees| ==> frees[j].FreeOp?
    ensures frees[k].p !in Live(base, Run(base, l, frees))
    decreases |frees|
  {
    hide Inv, Live, Release;
    var init, last := frees[..|frees| - 1], frees[|frees| - 1];
    var m := Run(base, l, init);
    RunKeeps(base, l, init);
    var i := Find(base, m, last.p, 0);
    if i < |m| { ReleaseDropsLive(base, m, i); }
    if k < |frees| - 1 {
      FreedGone(base, l, init, k);
    } else if last.p in Live(base, m) {
      FindLive(base, m, last.p);
    }
  }

  // ---------- statistics ----------

  function UsedBytes(l: Blocks): nat
    decreases |l|
  {
    if l == [] then 0 else UsedBytes(l[..|l| - 1]) + if l[|l| - 1].free then 0 else l[|l| - 1].size
  }

  function FreeBytes(l: Blocks): nat
    decreases |l|
  {
    if l == [] then 0 else FreeBytes(l[..|l| - 1]) + if l[|l| - 1].free then l[|l| - 1].size else 0
  }

  /** used + free + 48 per block is the whole heap. */
  lemma {:induction false} Conservation(l: Blocks)
    ensures UsedBytes(l) + FreeBytes(l) + HEADER * |l| == Total(l)
    decreases |l|
  {
    if l != [] { Conservation(l[..|l| - 1]); }
  }
}
