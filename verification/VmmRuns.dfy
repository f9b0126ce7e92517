/**
 Every run of map and unmap from a zeroed root table behaves as a flat map from page
 addresses to mappings.
 */
module VmmRuns {
  import opened Words
  import opened Vmm
  import opened VmmRefine

  datatype Mapping = Mapping(paddr: u64, flags: u64)

  type Flat = map<u64, Mapping>

  function Lookup(m: Flat, v: u64): Answer {
    if v in m then Mapped(m[v].paddr, m[v].flags) else Fail(NotFound)
  }

  /** The software walk answers exactly as the flat map does, on every canonical page address. */
  ghost predicate Refines(sp: Space, m: Flat) {
    && (forall v :: v in m ==> Page(v))
    && (forall v: u64 :: Page(v) ==> Query(sp, v) == Lookup(m, v))
  }

  lemma {:induction false} SameLeavesRefines(a: Space, t: Tree, b: Space, u: Tree, m: Flat)
    requires Ready(a, t) && Ready(b, u) && SameLeaves(a, b) && Refines(a, m)
    ensures Refines(b, m)
  {
    hide Page, Shape, Query, FreshSupply, Leaf, AddrOf;
    forall v: u64 | Page(v) ensures Query(b, v) == Lookup(m, v) {
      QueryIsLeaf(a, t, v);
      QueryIsLeaf(b, u, v);
    }
  }

  /** Writing entry e at v's own page-table slot changes the answer for v alone. */
  lemma {:induction false} LeafWriteRefines(sp: Space, t: Tree, m: Flat, v: u64, pt: u64, e: u64, m1: Flat)
    requires Ready(sp, t) && Refines(sp, m) && Page(v)
    requires pt in t && t[pt] == Indices(v)[..3]
    requires Lookup(m1, v) == if Present(e) then Mapped(AddrOf(e), FlagsOf(e)) else Fail(NotFound)
    requires forall w :: w in m1 ==> Page(w)
    requires forall w :: w != v ==> Lookup(m1, w) == Lookup(m, w)
    ensures pt in sp.mem && Ready(SetEntry(sp, pt, IdxPt(v), e), t)
    ensures Refines(SetEntry(sp, pt, IdxPt(v), e), m1)
  {
    hide Page, Query, Walk, AddrOf, EntryOk, NodeOk, LinkedFrom, Present, IdxPml4, IdxPdpt, IdxPd, IdxPt;
    var s := SetEntry(sp, pt, IdxPt(v), e);
    LeafWriteKeepsShape(sp, t, pt, IdxPt(v), e);
    forall w: u64 | Page(w) ensures Query(s, w) == Lookup(m1, w) {
      QueryIsLeaf(sp, t, w);
      QueryIsLeaf(s, t, w);
      var p := Indices(w);
      assert p[..0] == [];
      LeafWriteIsUpdate(sp, t, pt, IdxPt(v), e, sp.root, p, 0);
      if p[..3] == t[pt] && p[3] == IdxPt(v) {
        assert p == Indices(v) by { PathSplit(p, Indices(v)); }
        IndicesInjective(w, v);
      } else {
        assert w != v;
      }
    }
  }

  lemma {:induction false} PathSplit(p: Path, q: Path)
    requires p[..3] == q[..3] && p[3] == q[3]
    ensures p == q
  {
    assert p == p[..3] + [p[3]] && q == q[..3] + [q[3]];
  }

  /** When the walk reaches a page table, descending finds the same one and allocates nothing. */
  lemma {:induction false} DescendExisting(sp: Space, f: u64, p: Path, k: nat)
    requires f in sp.mem && k <= 3 && Walk(sp, f, p, k).At?
    ensures Descend(sp, f, p, k) == Found(sp, Walk(sp, f, p, k))
    decreases 3 - k
  {
    hide Present, Huge, AddrOf;
    if k < 3 {
      DescendExisting(sp, AddrOf(sp.mem[f][p[k]]), p, k + 1);
    }
  }

  /** A miss with three usable frames in stock is impossible. */
  lemma {:induction false} DescendSucceeds(sp: Space, t: Tree, f: u64, p: Path, k: nat)
    requires Ready(sp, t) && k <= 3 && f in t && t[f] == p[..k]
    requires |sp.supply| >= 3 - k && forall i :: 0 <= i < 3 - k ==> Usable(sp, sp.supply[i])
    ensures f in sp.mem && Descend(sp, f, p, k).walked.At?
    decreases 3 - k
  {
    hide Ready, SameLeaves, AddrOf, Huge, LinkEntry, ZeroTable;
    ReadyMem(sp, t, f);
    if k < 3 {
      var n := NextTable(sp, f, p[k]);
      var u := NextTableReady(sp, t, f, p[k]);
      assert p[..k + 1] == p[..k] + [p[k]];
      assert n.walked.At?;
      assert n.sp.supply == sp.supply || n.sp.supply == sp.supply[1..];
      DescendSucceeds(n.sp, u, n.walked.frame, p, k + 1);
    }
  }

  function MapEffect(m: Flat, v: u64, paddr: u64, flags: u64, rc: Rc): Flat {
    if rc == MapOk then m[v := Mapping(AddrOf(paddr), 1 + Allowed(flags))] else m
  }

  /**
   vmm_map_page on the flat map: success adds exactly (paddr & mask, PRESENT | allowed flags)
   at an absent key, EXISTS means the key is present, and no failure changes any answer.
   */
  lemma {:induction false} MapRefines(sp: Space, t: Tree, m: Flat, v: u64, paddr: u64, flags: u64) returns (u: Tree)
    requires Ready(sp, t) && Refines(sp, m)
    ensures var r := Map(sp, v, paddr, flags);
            && Ready(r.sp, u) && Grows(t, u, 3)
            && Refines(r.sp, MapEffect(m, v, paddr, flags, r.rc))
            && (r.rc == MapOk ==> Page(v) && Aligned(paddr) && v !in m)
            && (Page(v) && Aligned(paddr) ==> (r.rc == Exists <==> v in m))
            && (!Page(v) || !Aligned(paddr) ==> r.rc == Inval)
            && |sp.supply| - 3 <= |r.sp.supply| && Consumes(sp, r.sp, t, u)
  {
    hide Page, Query, Walk, AddrOf, Consumes, Shape, FreshSupply, Present, Aligned, Allowed, LeafEntry, IdxPml4,
      IdxPdpt, IdxPd, IdxPt;
    u := t;
    ConsumesNothing(sp, t);
    assert RootOk(sp) && sp.root in t && sp.root in sp.mem && t[sp.root] == [] by { ShapeRoot(sp, t); }
    if Page(v) && Aligned(paddr) {
      var p := Indices(v);
      assert p[..0] == [];
      var r := Descend(sp, sp.root, p, 0);
      u := DescendReady(sp, t, sp.root, p, 0);
      SameLeavesRefines(sp, t, r.sp, u, m);
      if r.walked.At? {
        var pt := r.walked.frame;
        AtSlot(r.sp, u, m, v, pt);
        if !Present(r.sp.mem[pt][IdxPt(v)]) {
          LeafReadsBack(paddr, flags);
          LeafWriteRefines(r.sp, u, m, v, pt, LeafEntry(paddr, flags), MapEffect(m, v, paddr, flags, MapOk));
          ConsumesSame(sp, r.sp, SetEntry(r.sp, pt, IdxPt(v), LeafEntry(paddr, flags)), t, u);
        }
      } else {
        MissMeansAbsent(sp, t, m, v);
      }
    }
  }

  lemma {:induction false} ConsumesSame(a: Space, b: Space, c: Space, t: Tree, u: Tree)
    requires Consumes(a, b, t, u) && b.supply == c.supply
    ensures Consumes(a, c, t, u)
  {
  }

  /** At its own page table, an address is mapped exactly when its entry is present. */
  lemma {:induction false} AtSlot(sp: Space, t: Tree, m: Flat, v: u64, pt: u64)
    requires Ready(sp, t) && Refines(sp, m) && Page(v) && pt in t && t[pt] == Indices(v)[..3]
    ensures pt in sp.mem && (Present(sp.mem[pt][IdxPt(v)]) <==> v in m)
  {
    hide Page, Query, AddrOf, EntryOk, NodeOk, LinkedFrom, Present, IdxPml4, IdxPdpt, IdxPd, IdxPt;
    QueryIsLeaf(sp, t, v);
    var p := Indices(v);
    assert p[..0] == [];
    var e := sp.mem[pt][IdxPt(v)];
    LeafWriteIsUpdate(sp, t, pt, IdxPt(v), e, sp.root, p, 0);
    assert sp.mem[pt][IdxPt(v) := e] == sp.mem[pt];
    assert sp.mem[pt := sp.mem[pt]] == sp.mem;
    assert SetEntry(sp, pt, IdxPt(v), e) == sp;
  }

  lemma {:induction false} MissMeansAbsent(sp: Space, t: Tree, m: Flat, v: u64)
    requires Ready(sp, t) && Refines(sp, m) && Page(v)
    requires Descend(sp, sp.root, Indices(v), 0).walked.Miss?
    ensures v !in m
  {
    hide Page, AddrOf, EntryOk, NodeOk, LinkedFrom, Present, IdxPml4, IdxPdpt, IdxPd, IdxPt;
    if Walk(sp, sp.root, Indices(v), 0).At? {
      DescendExisting(sp, sp.root, Indices(v), 0);
    }
    assert Query(sp, v) == Lookup(m, v);
  }

  /** With three usable frames in stock, mapping an absent page succeeds. */
  lemma {:induction false} MapSucceeds(sp: Space, t: Tree, m: Flat, v: u64, paddr: u64, flags: u64)
    requires Ready(sp, t) && Refines(sp, m) && Page(v) && Aligned(paddr) && v !in m
    requires |sp.supply| >= 3 && forall i :: 0 <= i < 3 ==> Usable(sp, sp.supply[i])
    ensures Map(sp, v, paddr, flags).rc == MapOk
  {
    hide Page, Query, Walk, Shape, FreshSupply, Descend, LeafEntry;
    ShapeRoot(sp, t);
    assert Indices(v)[..0] == [];
    DescendSucceeds(sp, t, sp.root, Indices(v), 0);
    var u := MapRefines(sp, t, m, v, paddr, flags);
  }

  /** vmm_unmap_page removes exactly one key, and succeeds exactly on the keys present. */
  lemma {:induction false} UnmapRefines(sp: Space, t: Tree, m: Flat, v: u64)
    requires Ready(sp, t) && Refines(sp, m)
    ensures var r := Unmap(sp, v);
            && Ready(r.sp, t)
            && Refines(r.sp, if r.rc == MapOk then m - {v} else m)
            && (r.rc == MapOk <==> v in m)
            && (Page(v) && v !in m ==> r.rc == NotFound)
            && (!Page(v) ==> r.rc == Inval)
            && r.sp.supply == sp.supply
  {
    hide Page, Query, AddrOf, Shape, FreshSupply, IdxPml4, IdxPdpt, IdxPd, IdxPt;
    ShapeRoot(sp, t);
    if Page(v) {
      assert Indices(v)[..0] == [];
      WalkFollowsTree(sp, t, sp.root, Indices(v), 0);
      var w := Walk(sp, sp.root, Indices(v), 0);
      if w.At? {
        AtSlot(sp, t, m, v, w.frame);
        if Present(sp.mem[w.frame][IdxPt(v)]) {
          LeafWriteRefines(sp, t, m, v, w.frame, 0, m - {v});
        }
      } else {
        assert Query(sp, v) == Lookup(m, v);
        assert Query(sp, v) == Fail(NotFound) by { QueryMiss(sp, v); }
      }
    }
  }

  lemma {:induction false} QueryMiss(sp: Space, v: u64)
    requires Page(v) && RootOk(sp) && Walk(sp, sp.root, Indices(v), 0) == Miss(NotFound)
    ensures Query(sp, v) == Fail(NotFound)
  {
  }

  // ---------- runs ----------

  datatype Op = MapOp(v: u64, paddr: u64, flags: u64) | UnmapOp(v: u64)

  function Perform(sp: Space, op: Op): Result {
    match op
    case MapOp(v, paddr, flags) => Map(sp, v, paddr, flags)
    case UnmapOp(v) => Unmap(sp, v)
  }

  /** What the flat map does for an operation that returned rc. */
  function Effect(m: Flat, op: Op, rc: Rc): Flat {
    match op
    case MapOp(v, paddr, flags) => MapEffect(m, v, paddr, flags, rc)
    case UnmapOp(v) => if rc == MapOk then m - {v} else m
  }

  datatype Both = Both(sp: Space, flat: Flat)

  function Run(b: Both, ops: seq<Op>): Both
    decreases |ops|
  {
    if ops == [] then b
    else
      var c := Run(b, ops[..|ops| - 1]);
      var r := Perform(c.sp, ops[|ops| - 1]);
      Both(r.sp, Effect(c.flat, ops[|ops| - 1], r.rc))
  }

  /** Page-table refinement and tree shape over every run; tables are only ever added. */
  lemma {:induction false} RunRefines(b: Both, t: Tree, ops: seq<Op>) returns (u: Tree)
    requires Ready(b.sp, t) && Refines(b.sp, b.flat)
    ensures var c := Run(b, ops);
            Ready(c.sp, u) && Refines(c.sp, c.flat) && Grows(t, u, 3 * |ops|)
    decreases |ops|
  {
    hide Ready, Refines, Map, Unmap, MapEffect, Consumes;
    u := t;
    if ops != [] {
      var init, op := ops[..|ops| - 1], ops[|ops| - 1];
      u := RunRefines(b, t, init);
      var c := Run(b, init);
      match op
      case MapOp(v, paddr, flags) => u := MapRefines(c.sp, u, c.flat, v, paddr, flags);
      case UnmapOp(v) => UnmapRefines(c.sp, u, c.flat, v);
    }
  }

  /** A zeroed root table with a fresh supply represents the empty map. */
  lemma {:induction false} InitialReady(sp: Space)
    requires RootOk(sp) && sp.mem[sp.root] == ZeroTable()
    requires FreshSupply(sp, map[sp.root := []])
    ensures Ready(sp, map[sp.root := []]) && Refines(sp, map[])
  {
    hide Page, AddrOf, IdxPml4, IdxPdpt, IdxPd, IdxPt;
    var t: Tree := map[sp.root := []];
    forall f, i | f in t && |t[f]| < 3 && 0 <= i < 512 ensures EntryOk(sp, t, f, i) {
    }
    assert Shape(sp, t);
    forall v: u64 | Page(v) ensures Query(sp, v) == Fail(NotFound) {
      assert sp.mem[sp.root][Indices(v)[0]] == 0;
      QueryMiss(sp, v);
    }
  }

  // ---------- shape ----------

  /** Entry i of table g is a present link to f. */
  predicate Links(sp: Space, t: Tree, g: u64, i: nat, f: u64) {
    g in t && g in sp.mem && |t[g]| < 3 && i < 512 && Present(sp.mem[g][i]) && AddrOf(sp.mem[g][i]) == f
  }

  /** Every table but the root is linked from exactly one entry, and the root from none. */
  lemma {:induction false} LinkedOnce(sp: Space, t: Tree, f: u64)
    requires Shape(sp, t) && f in t
    ensures f == sp.root ==> forall g, i :: !Links(sp, t, g, i, f)
    ensures f != sp.root ==> exists g, i :: Links(sp, t, g, i, f)
    ensures forall g, i, h, j :: Links(sp, t, g, i, f) && Links(sp, t, h, j, f) ==> g == h && i == j
  {
    hide AddrOf, Huge;
    forall g, i | Links(sp, t, g, i, f) ensures t[f] == t[g] + [i] {
      assert EntryOk(sp, t, g, i);
    }
    if f != sp.root {
      var g :| LinkedFrom(sp, t, f, g);
      assert NodeOk(t, f);
      assert Links(sp, t, g, t[f][|t[f]| - 1], f);
    }
    forall g, i, h, j | Links(sp, t, g, i, f) && Links(sp, t, h, j, f) ensures g == h && i == j {
      assert t[g] + [i] == t[h] + [j];
      assert t[g] == (t[g] + [i])[..|t[g]|] == (t[h] + [j])[..|t[h]|] == t[h];
      assert i == (t[g] + [i])[|t[g]|] == j;
    }
  }
}
