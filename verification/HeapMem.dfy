/**
 Block headers in memory: when the linked headers represent a block list, and how the
 pointer updates of split, coalesce and free keep representing the right list.
 */
module HeapMem {
  import opened Heap

  const MAGIC: nat := 0x4d43534f53484541

  /** struct kmem_block; address 0 is the null pointer. */
  datatype Header = Header(magic: nat, size: nat, free: bool, prev: nat, next: nat)

  type Memory = map<nat, Header>

  function At(base: nat, l: Blocks, i: nat): nat
    requires i <= |l|
  {
    base + Offset(l, i)
  }

  function HeaderOf(base: nat, l: Blocks, i: nat): Header
    requires i < |l|
  {
    Header(MAGIC, l[i].size, l[i].free,
           if i == 0 then 0 else At(base, l, i - 1),
           if i == |l| - 1 then 0 else At(base, l, i + 1))
  }

  predicate NodeAt(mem: Memory, base: nat, l: Blocks, i: nat)
    requires i < |l|
  {
    At(base, l, i) in mem && mem[At(base, l, i)] == HeaderOf(base, l, i)
  }

  /** The headers spell out the list, prev and next inverse, and no other word in memory looks like a header. */
  ghost predicate Rep(mem: Memory, base: nat, l: Blocks) {
    && base > 0
    && (forall i :: 0 <= i < |l| ==> NodeAt(mem, base, l, i))
    && (forall a :: a in mem && mem[a].magic == MAGIC ==> exists i :: 0 <= i < |l| && a == At(base, l, i))
  }

  lemma {:induction false} AtDistinct(base: nat, l: Blocks, i: nat, j: nat)
    requires i < |l| && j < |l| && i != j
    ensures At(base, l, i) != At(base, l, j)
  {
    hide Offset;
    if i < j { OffsetMono(l, i, j); } else { OffsetMono(l, j, i); }
  }

  // ---------- changing one flag ----------

  lemma {:induction false} SameSizesSameAddress(base: nat, l: Blocks, m: Blocks, k: nat)
    requires |l| == |m| && k <= |l| && forall i :: 0 <= i < k ==> l[i].size == m[i].size
    ensures At(base, l, k) == At(base, m, k)
  {
    if k > 0 {
      SameSizesSameAddress(base, l, m, k - 1);
      OffsetNext(l, k - 1);
      OffsetNext(m, k - 1);
    } else {
      assert l[..0] == m[..0];
    }
  }

  function WithFlag(l: Blocks, i: nat, free: bool): Blocks
    requires i < |l|
  {
    l[..i] + [Blk(l[i].size, free)] + l[i + 1..]
  }

  lemma {:induction false} SetFlag(mem: Memory, base: nat, l: Blocks, i: nat, free: bool)
    requires Rep(mem, base, l) && i < |l|
    ensures NodeAt(mem, base, l, i)
    ensures Rep(mem[At(base, l, i) := mem[At(base, l, i)].(free := free)], base, WithFlag(l, i, free))
  {
    hide Offset;
    var a, m := At(base, l, i), WithFlag(l, i, free);
    assert NodeAt(mem, base, l, i);
    var mem1 := mem[a := mem[a].(free := free)];
    forall k | 0 <= k <= |l| ensures At(base, l, k) == At(base, m, k) { SameSizesSameAddress(base, l, m, k); }
    forall k | 0 <= k < |m| ensures NodeAt(mem1, base, m, k) {
      assert NodeAt(mem, base, l, k);
      if k != i { AtDistinct(base, l, k, i); }
    }
    forall b | b in mem1 && mem1[b].magic == MAGIC ensures exists k :: 0 <= k < |m| && b == At(base, m, k) {
      var k :| 0 <= k < |l| && b == At(base, l, k);
      assert b == At(base, m, k);
    }
  }

  // ---------- splitting ----------

  function Divided(l: Blocks, i: nat, wanted: nat): Blocks
    requires i < |l| && l[i].size >= wanted + HEADER
  {
    l[..i] + [Blk(wanted, l[i].free), Blk(l[i].size - wanted - HEADER, true)] + l[i + 1..]
  }

  /** Addresses after a split: up to the block as before, the new header, then shifted by one. */
  lemma {:induction false} DividedAt(base: nat, l: Blocks, i: nat, wanted: nat, k: nat)
    requires i < |l| && l[i].size >= wanted + HEADER && k <= |l| + 1
    ensures var m := Divided(l, i, wanted);
            At(base, m, k) == if k <= i then At(base, l, k) else if k == i + 1 then At(base, l, i) + HEADER + wanted
              else At(base, l, k - 1)
    decreases k
  {
    hide Total;
    var m := Divided(l, i, wanted);
    if k <= i {
      assert m[..k] == l[..k];
    } else {
      DividedAt(base, l, i, wanted, k - 1);
      OffsetNext(m, k - 1);
      if k == i + 2 {
        OffsetNext(l, i);
      } else if k > i + 2 {
        OffsetNext(l, k - 2);
      }
    }
  }

  /** The pointer updates of kmem_split_if_useful. */
  function SplitMem(mem: Memory, a: nat, wanted: nat): Memory
    requires a in mem && mem[a].size >= wanted + HEADER
  {
    var n, nx := a + HEADER + wanted, mem[a].next;
    var m1 := mem[n := Header(MAGIC, mem[a].size - wanted - HEADER, true, a, nx)];
    var m2 := if nx != 0 && nx in m1 then m1[nx := m1[nx].(prev := n)] else m1;
    m2[a := m2[a].(next := n, size := wanted)]
  }

  lemma {:induction false} SplitRep(mem: Memory, base: nat, l: Blocks, i: nat, wanted: nat)
    requires Rep(mem, base, l) && i < |l| && l[i].size >= wanted + HEADER
    ensures NodeAt(mem, base, l, i)
    ensures Rep(SplitMem(mem, At(base, l, i), wanted), base, Divided(l, i, wanted))
  {
    hide Offset, Total;
    assert NodeAt(mem, base, l, i);
    var a, m := At(base, l, i), Divided(l, i, wanted);
    var n, s := a + HEADER + wanted, SplitMem(mem, a, wanted);
    forall k | 0 <= k <= |m|
      ensures At(base, m, k) == if k <= i then At(base, l, k) else if k == i + 1 then n else At(base, l, k - 1)
    {
      DividedAt(base, l, i, wanted, k);
    }
    forall k | 0 <= k < |m| ensures NodeAt(s, base, m, k) {
      SplitNode(mem, base, l, i, wanted, k);
    }
    forall b | b in s && s[b].magic == MAGIC ensures exists k :: 0 <= k < |m| && b == At(base, m, k) {
      if b == n {
        assert b == At(base, m, i + 1);
      } else {
        assert b in mem && mem[b].magic == MAGIC;
        var k :| 0 <= k < |l| && b == At(base, l, k);
        var k1 := if k <= i then k else k + 1;
        DividedAt(base, l, i, wanted, k1);
        assert b == At(base, m, k1);
      }
    }
  }

  lemma {:induction false} SplitNode(mem: Memory, base: nat, l: Blocks, i: nat, wanted: nat, k: nat)
    requires Rep(mem, base, l) && i < |l| && l[i].size >= wanted + HEADER && k <= |l| && NodeAt(mem, base, l, i)
    ensures NodeAt(SplitMem(mem, At(base, l, i), wanted), base, Divided(l, i, wanted), k)
  {
    hide Offset, Total;
    var a, m := At(base, l, i), Divided(l, i, wanted);
    DividedAt(base, l, i, wanted, k);
    DividedAt(base, l, i, wanted, i);
    DividedAt(base, l, i, wanted, i + 1);
    if i + 1 < |l| { DividedAt(base, l, i, wanted, i + 2); }
    if k > 0 { DividedAt(base, l, i, wanted, k - 1); }
    if k < |l| { DividedAt(base, l, i, wanted, k + 1); }
    if k != i + 1 { AtDistinct(base, m, k, i + 1); }
    if k != i { AtDistinct(base, m, k, i); }
    if i + 1 < |l| && k != i + 2 { AtDistinct(base, m, k, i + 2); }
    if i + 1 < |l| {
      AtDistinct(base, m, i + 1, i + 2);
      AtDistinct(base, m, i, i + 2);
    }
    AtDistinct(base, m, i, i + 1);
    if k < i {
      assert NodeAt(mem, base, l, k);
    } else if k > i + 1 {
      assert NodeAt(mem, base, l, k - 1);
    }
  }

  // ---------- merging ----------

  lemma {:induction false} MergedAt(base: nat, l: Blocks, i: nat, k: nat)
    requires i + 1 < |l| && k < |l|
    ensures At(base, Merge(l, i), k) == if k <= i then At(base, l, k) else At(base, l, k + 1)
    decreases k
  {
    hide Total;
    var m := Merge(l, i);
    if k <= i {
      assert m[..k] == l[..k];
    } else {
      MergedAt(base, l, i, k - 1);
      OffsetNext(m, k - 1);
      OffsetNext(l, k);
      if k == i + 1 { OffsetNext(l, i); }
    }
  }

  /** The pointer updates of one pass of kmem_coalesce_forward. */
  function MergeMem(mem: Memory, a: nat): Memory
    requires a in mem && mem[a].next in mem
  {
    var b := mem[a].next;
    var nx := mem[b].next;
    var m1 := mem[a := mem[a].(size := mem[a].size + HEADER + mem[b].size, next := nx)];
    var m2 := if nx != 0 && nx in m1 then m1[nx := m1[nx].(prev := a)] else m1;
    m2[b := m2[b].(magic := 0, size := 0, prev := 0, next := 0)]
  }

  lemma {:induction false} MergeRep(mem: Memory, base: nat, l: Blocks, i: nat)
    requires Rep(mem, base, l) && i + 1 < |l|
    ensures NodeAt(mem, base, l, i) && NodeAt(mem, base, l, i + 1)
    ensures Rep(MergeMem(mem, At(base, l, i)), base, Merge(l, i))
  {
    hide Offset, Total, Merge;
    assert NodeAt(mem, base, l, i) && NodeAt(mem, base, l, i + 1);
    var a, b, m := At(base, l, i), At(base, l, i + 1), Merge(l, i);
    MergeLength(l, i);
    var s := MergeMem(mem, a);
    forall k | 0 <= k < |l| ensures At(base, m, k) == if k <= i then At(base, l, k) else At(base, l, k + 1) {
      MergedAt(base, l, i, k);
    }
    forall k | 0 <= k < |m| ensures NodeAt(s, base, m, k) {
      MergeNode(mem, base, l, i, k);
    }
    forall c | c in s && s[c].magic == MAGIC ensures exists k :: 0 <= k < |m| && c == At(base, m, k) {
      assert c in mem && mem[c].magic == MAGIC && c != b;
      var k :| 0 <= k < |l| && c == At(base, l, k);
      var k1 := if k <= i then k else k - 1;
      MergedAt(base, l, i, k1);
      assert c == At(base, m, k1);
    }
  }

  lemma {:induction false} MergeLength(l: Blocks, i: nat)
    requires i + 1 < |l|
    ensures |Merge(l, i)| == |l| - 1
  {
  }

  lemma {:induction false} MergeElem(l: Blocks, i: nat, k: nat)
    requires i + 1 < |l| && k < |l| - 1
    ensures |Merge(l, i)| == |l| - 1
    ensures Merge(l, i)[k] == if k < i then l[k]
            else if k == i then Blk(l[i].size + HEADER + l[i + 1].size, l[i].free) else l[k + 1]
  {
  }

  lemma {:induction false} MergeNode(mem: Memory, base: nat, l: Blocks, i: nat, k: nat)
    requires Rep(mem, base, l) && i + 1 < |l| && k < |l| - 1
    requires NodeAt(mem, base, l, i) && NodeAt(mem, base, l, i + 1)
    ensures k < |Merge(l, i)| && NodeAt(MergeMem(mem, At(base, l, i)), base, Merge(l, i), k)
  {
    hide Offset, Total, Merge;
    MergeElem(l, i, k);
    MergedAt(base, l, i, k);
    MergedAt(base, l, i, i);
    MergedAt(base, l, i, k + 1);
    if k > 0 { MergedAt(base, l, i, k - 1); }
    var o := if k <= i then k else k + 1;
    assert NodeAt(mem, base, l, o);
    AtDistinct(base, l, o, i + 1);
    AtDistinct(base, l, i, i + 1);
    if o != i { AtDistinct(base, l, o, i); }
    if i + 2 < |l| {
      assert NodeAt(mem, base, l, i + 2);
      AtDistinct(base, l, i + 2, i + 1);
      AtDistinct(base, l, i + 2, i);
      if o != i + 2 { AtDistinct(base, l, o, i + 2); }
    }
    var a, b, s := At(base, l, i), At(base, l, i + 1), MergeMem(mem, At(base, l, i));
    assert mem[a].next == b;
    if o == i {
      assert s[a] == mem[a].(size := mem[a].size + HEADER + mem[b].size, next := mem[b].next);
    } else if o == i + 2 {
      assert s[At(base, l, o)] == mem[At(base, l, o)].(prev := a);
    } else {
      assert s[At(base, l, o)] == mem[At(base, l, o)] == HeaderOf(base, l, o);
      assert Merge(l, i)[k] == l[o];
      assert HeaderOf(base, Merge(l, i), k).prev == HeaderOf(base, l, o).prev;
      assert HeaderOf(base, Merge(l, i), k).next == HeaderOf(base, l, o).next;
    }
  }
}
