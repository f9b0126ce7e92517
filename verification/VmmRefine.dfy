/**
 The radix tree of page tables refines a flat map from page addresses to mappings, and
 its frames always form a tree of depth at most four.
 */
module VmmRefine {
  import opened Words
  import opened Vmm

  /** Where each table frame hangs: the indices that lead to it from the root. */
  type Tree = map<u64, seq<nat>>

  predicate NodeOk(t: Tree, f: u64)
    requires f in t
  {
    && Aligned(f) && (t[f] != [] ==> f < 0x10_0000_0000_0000)
    && |t[f]| <= 3 && forall k :: 0 <= k < |t[f]| ==> t[f][k] < 512
  }

  /** A present entry of an upper-level table leads to the table that hangs there. */
  predicate EntryOk(sp: Space, t: Tree, f: u64, i: nat)
    requires f in t && f in sp.mem && i < 512
  {
    var e := sp.mem[f][i];
    Present(e) ==> !Huge(e) && AddrOf(e) in t && t[AddrOf(e)] == t[f] + [i]
  }

  /** Table g holds, in one of its entries, the link to f. */
  predicate LinkedFrom(sp: Space, t: Tree, f: u64, g: u64)
    requires f in t
  {
    && g in t && g in sp.mem
    && |t[f]| > 0
    && t[f][..|t[f]| - 1] == t[g]
    && t[f][|t[f]| - 1] < 512
    && Present(sp.mem[g][t[f][|t[f]| - 1]])
    && AddrOf(sp.mem[g][t[f][|t[f]| - 1]]) == f
  }

  ghost predicate Shape(sp: Space, t: Tree) {
    && RootOk(sp) && sp.root in t && t[sp.root] == []
    && (forall f :: f in t ==> f in sp.mem && NodeOk(t, f))
    && (forall f, g :: f in t && g in t && t[f] == t[g] ==> f == g)
    && (forall f, i :: f in t && |t[f]| < 3 && 0 <= i < 512 ==> EntryOk(sp, t, f, i))
    && (forall f :: f in t && f != sp.root ==> exists g :: LinkedFrom(sp, t, f, g))
  }

  predicate Usable(sp: Space, s: u64) {
    s in sp.mem && Aligned(s) && s != INVALID_PHYS
  }

  /** Frames the allocator will hand out are below 2^52, new, and handed out once. */
  predicate FreshSupply(sp: Space, t: Tree) {
    forall i :: 0 <= i < |sp.supply| && Usable(sp, sp.supply[i]) ==>
      && sp.supply[i] < 0x10_0000_0000_0000 && sp.supply[i] !in t
      && forall j :: i < j < |sp.supply| ==> sp.supply[j] != sp.supply[i]
  }

  // ---------- what the walk sees ----------

  /** The page-table entry a path ends at, or 0 when the walk misses. */
  function LeafFrom(sp: Space, f: u64, p: Path, k: nat): u64
    requires f in sp.mem && k <= 3
  {
    var w := Walk(sp, f, p, k);
    if w.At? then sp.mem[w.frame][p[3]] else 0
  }

  function Leaf(sp: Space, p: Path): u64
    requires RootOk(sp)
  {
    LeafFrom(sp, sp.root, p, 0)
  }

  /** In a well-shaped space a walk follows the tree and can only miss with NOT_FOUND. */
  lemma {:induction false} WalkFollowsTree(sp: Space, t: Tree, f: u64, p: Path, k: nat)
    requires Shape(sp, t) && k <= 3 && f in t && t[f] == p[..k]
    ensures var w := Walk(sp, f, p, k);
            if w.At? then w.frame in t && t[w.frame] == p[..3] else w.rc == NotFound
    decreases 3 - k
  {
    hide Huge, AddrOf, RootOk, NodeOk, LinkedFrom, Present;
    if k < 3 {
      assert EntryOk(sp, t, f, p[k]);
      var e := sp.mem[f][p[k]];
      if Present(e) {
        assert p[..k + 1] == p[..k] + [p[k]];
        WalkFollowsTree(sp, t, AddrOf(e), p, k + 1);
      }
    }
  }

  lemma {:induction false} QueryIsLeaf(sp: Space, t: Tree, v: u64)
    requires Shape(sp, t) && Page(v)
    ensures var e := Leaf(sp, Indices(v));
            Query(sp, v) == if Present(e) then Mapped(AddrOf(e), FlagsOf(e)) else Fail(NotFound)
  {
    hide Page, AddrOf, IdxPml4, IdxPdpt, IdxPd, IdxPt, Walk;
    assert Indices(v)[..0] == [];
    WalkFollowsTree(sp, t, sp.root, Indices(v), 0);
  }

  // ---------- linking a fresh table ----------

  function LinkNew(sp: Space, f: u64, i: nat, g: u64): Space
    requires f in sp.mem && i < 512
  {
    SetEntry(sp.(mem := sp.mem[g := ZeroTable()]), f, i, LinkEntry(g))
  }

  predicate CanLink(sp: Space, t: Tree, f: u64, i: nat, g: u64) {
    && f in t && f in sp.mem && |t[f]| < 3 && i < 512 && !Present(sp.mem[f][i])
    && g in sp.mem && g !in t && Aligned(g) && g < 0x10_0000_0000_0000
  }

  lemma {:induction false} LinkMem(sp: Space, t: Tree, f: u64, i: nat, g: u64)
    requires Shape(sp, t) && CanLink(sp, t, f, i, g)
    ensures var s := LinkNew(sp, f, i, g);
            && s.mem.Keys == sp.mem.Keys
            && s.mem[g] == ZeroTable()
            && s.mem[f] == sp.mem[f][i := LinkEntry(g)]
            && (forall h :: h in t && h != f ==> s.mem[h] == sp.mem[h])
  {
    hide LinkEntry, EntryOk, NodeOk, LinkedFrom, RootOk, Present, AddrOf;
  }

  lemma {:induction false} LinkEntries(sp: Space, t: Tree, f: u64, i: nat, g: u64)
    requires Shape(sp, t) && CanLink(sp, t, f, i, g)
    ensures var s, u := LinkNew(sp, f, i, g), t[g := t[f] + [i]];
            forall h, j :: h in u && |u[h]| < 3 && 0 <= j < 512 ==> EntryOk(s, u, h, j)
  {
    hide LinkEntry, AddrOf, Huge, LinkNew;
    var s, u := LinkNew(sp, f, i, g), t[g := t[f] + [i]];
    LinkMem(sp, t, f, i, g);
    LinkReadsBack(g);
    forall h, j | h in u && |u[h]| < 3 && 0 <= j < 512 ensures EntryOk(s, u, h, j) {
      if h != g {
        assert EntryOk(sp, t, h, j);
      }
    }
  }

  lemma {:induction false} LinkParents(sp: Space, t: Tree, f: u64, i: nat, g: u64)
    requires Shape(sp, t) && CanLink(sp, t, f, i, g)
    ensures var s, u := LinkNew(sp, f, i, g), t[g := t[f] + [i]];
            forall h :: h in u && h != s.root ==> exists q :: LinkedFrom(s, u, h, q)
  {
    hide LinkEntry, LinkNew, EntryOk, LinkedFrom, NodeOk, Present;
    var s, u := LinkNew(sp, f, i, g), t[g := t[f] + [i]];
    LinkRoot(sp, f, i, g);
    LinkNewParent(sp, t, f, i, g);
    forall h | h in t && h != sp.root ensures exists q :: LinkedFrom(s, u, h, q) {
      var q :| LinkedFrom(sp, t, h, q);
      LinkOldParent(sp, t, f, i, g, h, q);
    }
  }

  lemma {:induction false} LinkNewParent(sp: Space, t: Tree, f: u64, i: nat, g: u64)
    requires Shape(sp, t) && CanLink(sp, t, f, i, g)
    ensures LinkedFrom(LinkNew(sp, f, i, g), t[g := t[f] + [i]], g, f)
  {
    hide LinkEntry, AddrOf, LinkNew, EntryOk, NodeOk;
    LinkMem(sp, t, f, i, g);
    LinkReadsBack(g);
    assert (t[f] + [i])[..|t[f]|] == t[f];
  }

  lemma {:induction false} LinkOldParent(sp: Space, t: Tree, f: u64, i: nat, g: u64, h: u64, q: u64)
    requires Shape(sp, t) && CanLink(sp, t, f, i, g) && h in t && LinkedFrom(sp, t, h, q)
    ensures LinkedFrom(LinkNew(sp, f, i, g), t[g := t[f] + [i]], h, q)
  {
    hide LinkEntry, AddrOf, LinkNew, EntryOk, NodeOk;
    LinkMem(sp, t, f, i, g);
  }

  lemma {:induction false} LinkRoot(sp: Space, f: u64, i: nat, g: u64)
    requires f in sp.mem && i < 512
    ensures LinkNew(sp, f, i, g).root == sp.root && LinkNew(sp, f, i, g).supply == sp.supply
  {
  }

  lemma {:induction false} LinkPaths(sp: Space, t: Tree, f: u64, i: nat, g: u64)
    requires Shape(sp, t) && CanLink(sp, t, f, i, g)
    ensures var u := t[g := t[f] + [i]];
            && (forall h :: h in u ==> NodeOk(u, h))
            && (forall h, q :: h in u && q in u && u[h] == u[q] ==> h == q)
  {
    hide LinkEntry, AddrOf, Huge, LinkNew, Present;
    var u := t[g := t[f] + [i]];
    forall h | h in u ensures NodeOk(u, h) {
      if h != g { assert NodeOk(t, h); }
    }
    forall h | h in t ensures t[h] != t[f] + [i] {
      NobodyThere(sp, t, f, i, h);
    }
  }

  lemma {:induction false} SnocParts(s: seq<nat>, a: seq<nat>, x: nat)
    requires s != []
    ensures s == a + [x] <==> s[..|s| - 1] == a && s[|s| - 1] == x
  {
    assert s == s[..|s| - 1] + [s[|s| - 1]];
  }

  /** No table hangs below an absent entry. */
  lemma {:induction false} NobodyThere(sp: Space, t: Tree, f: u64, i: nat, h: u64)
    requires Shape(sp, t) && f in t && i < 512 && !Present(sp.mem[f][i]) && h in t
    ensures t[h] != t[f] + [i]
  {
    hide AddrOf, Huge, EntryOk, NodeOk, Present;
    if h != sp.root {
      var q :| LinkedFrom(sp, t, h, q);
      SnocParts(t[h], t[f], i);
      assert q == f ==> t[h][|t[h]| - 1] != i;
    }
  }

  /** Linking a fresh zeroed table keeps the tree shape. */
  lemma {:induction false} LinkKeepsShape(sp: Space, t: Tree, f: u64, i: nat, g: u64)
    requires Shape(sp, t) && CanLink(sp, t, f, i, g)
    ensures Shape(LinkNew(sp, f, i, g), t[g := t[f] + [i]])
  {
    hide EntryOk, LinkedFrom, NodeOk, Present, LinkNew;
    LinkRoot(sp, f, i, g);
    LinkMem(sp, t, f, i, g);
    LinkEntries(sp, t, f, i, g);
    LinkParents(sp, t, f, i, g);
    LinkPaths(sp, t, f, i, g);
  }

  /** Linking a fresh zeroed table changes no walk's outcome. */
  lemma {:induction false} LinkKeepsLeaves(sp: Space, t: Tree, f: u64, i: nat, g: u64, h: u64, p: Path, k: nat)
    requires Shape(sp, t) && CanLink(sp, t, f, i, g)
    requires k <= 3 && h in t && t[h] == p[..k]
    ensures h in LinkNew(sp, f, i, g).mem
    ensures LeafFrom(LinkNew(sp, f, i, g), h, p, k) == LeafFrom(sp, h, p, k)
    decreases 3 - k
  {
    hide LinkEntry, AddrOf, Huge, LinkNew, NodeOk, LinkedFrom;
    var s := LinkNew(sp, f, i, g);
    LinkMem(sp, t, f, i, g);
    LinkReadsBack(g);
    if k < 3 {
      assert EntryOk(sp, t, h, p[k]);
      var e := sp.mem[h][p[k]];
      if h == f && p[k] == i {
        assert s.mem[g][p[if k == 2 then 3 else k + 1]] == 0;
        assert LeafFrom(s, g, p, k + 1) == 0;
      } else if Present(e) {
        assert p[..k + 1] == p[..k] + [p[k]];
        LinkKeepsLeaves(sp, t, f, i, g, AddrOf(e), p, k + 1);
      }
    }
  }

  /** A table other than the root hangs in a table one level up. */
  lemma {:induction false} Parent(sp: Space, t: Tree, f: u64) returns (g: u64)
    requires Shape(sp, t) && f in t && f != sp.root
    ensures LinkedFrom(sp, t, f, g) && |t[f]| <= 3
  {
    hide EntryOk, Present, AddrOf;
    assert NodeOk(t, f);
    g :| LinkedFrom(sp, t, f, g);
  }

  // ---------- writing a page-table entry ----------

  lemma {:induction false} LeafWriteKeepsShape(sp: Space, t: Tree, pt: u64, j: nat, e: u64)
    requires Shape(sp, t) && pt in t && |t[pt]| == 3 && j < 512
    ensures Shape(SetEntry(sp, pt, j, e), t)
  {
    hide NodeOk, Present, AddrOf, Huge;
    var s := SetEntry(sp, pt, j, e);
    forall f, i | f in t && |t[f]| < 3 && 0 <= i < 512 ensures EntryOk(s, t, f, i) {
      assert EntryOk(sp, t, f, i);
    }
    forall f | f in t && f != s.root ensures exists g :: LinkedFrom(s, t, f, g) {
      var g := Parent(sp, t, f);
      assert LinkedFrom(s, t, f, g);
    }
  }

  /** Writing one entry of one page table changes exactly the path that ends there. */
  lemma {:induction false} LeafWriteIsUpdate(sp: Space, t: Tree, pt: u64, j: nat, e: u64, h: u64, p: Path, k: nat)
    requires Shape(sp, t) && pt in t && |t[pt]| == 3 && j < 512
    requires k <= 3 && h in t && t[h] == p[..k]
    ensures LeafFrom(SetEntry(sp, pt, j, e), h, p, k) ==
            if p[..3] == t[pt] && p[3] == j then e else LeafFrom(sp, h, p, k)
    decreases 3 - k
  {
    hide NodeOk, AddrOf, Huge, LinkedFrom;
    if k < 3 {
      assert EntryOk(sp, t, h, p[k]);
      var x := sp.mem[h][p[k]];
      if Present(x) {
        assert p[..k + 1] == p[..k] + [p[k]];
        LeafWriteIsUpdate(sp, t, pt, j, e, AddrOf(x), p, k + 1);
      } else {
        Unreached(sp, t, h, p, k);
      }
    }
  }

  /** Below a missing entry there is no page table. */
  lemma {:induction false} Unreached(sp: Space, t: Tree, h: u64, p: Path, k: nat)
    requires Shape(sp, t) && k < 3 && h in t && t[h] == p[..k] && !Present(sp.mem[h][p[k]])
    ensures forall q :: q in t ==> t[q] != p[..3]
  {
    hide NodeOk, AddrOf, Huge, LinkedFrom, EntryOk, Present;
    forall q | q in t ensures t[q] != p[..3] {
      Prefixes(sp, t, h, p, k, q);
    }
  }

  lemma {:induction false} ShapeRoot(sp: Space, t: Tree)
    requires Shape(sp, t)
    ensures RootOk(sp) && sp.root in t && t[sp.root] == []
  {
  }

  lemma {:induction false} Prefixes(sp: Space, t: Tree, h: u64, p: Path, k: nat, q: u64)
    requires Shape(sp, t) && k < 3 && h in t && t[h] == p[..k] && !Present(sp.mem[h][p[k]]) && q in t
    ensures !(k < |t[q]| <= 3 && t[q] == p[..|t[q]|])
    decreases |t[q]|
  {
    hide Shape, Present, AddrOf;
    var n := |t[q]|;
    assert p[..k + 1] == p[..k] + [p[k]];
    NobodyThere(sp, t, h, p[k], q);
    ShapeRoot(sp, t);
    if k + 1 < n <= 3 {
      var g := Parent(sp, t, q);
      Prefixes(sp, t, h, p, k, g);
      assert p[..n][..n - 1] == p[..n - 1];
    }
  }

  // ---------- descending, and the two operations ----------

  ghost predicate SameLeaves(a: Space, b: Space) {
    && RootOk(a) && RootOk(b)
    && forall p: Path :: Leaf(a, p) == Leaf(b, p)
  }

  ghost predicate Ready(sp: Space, t: Tree) {
    Shape(sp, t) && FreshSupply(sp, t)
  }

  predicate Grows(t: Tree, u: Tree, n: nat) {
    && t.Keys <= u.Keys && (forall f :: f in t ==> t[f] == u[f])
    && |u| <= |t| + n
  }

  /** b has used up a prefix of a's supply, and every new table is one of those frames. */
  predicate Consumes(a: Space, b: Space, t: Tree, u: Tree) {
    && |b.supply| <= |a.supply|
    && b.supply == a.supply[|a.supply| - |b.supply|..]
    && forall g :: g in u && g !in t ==> g in a.supply[..|a.supply| - |b.supply|]
  }

  lemma {:induction false} ConsumesTrans(a: Space, b: Space, c: Space, t: Tree, u: Tree, w: Tree)
    requires Consumes(a, b, t, u) && Consumes(b, c, u, w)
    ensures Consumes(a, c, t, w)
  {
    var i, k := |a.supply| - |b.supply|, |b.supply| - |c.supply|;
    Halves(a.supply, i, k);
    forall g | g in w && g !in t ensures g in a.supply[..i + k] {
      if g !in u { assert g in b.supply[..k]; }
    }
  }

  /** Dropping i and then k elements drops i + k, which are those of the two parts dropped. */
  lemma {:induction false} Halves(s: seq<u64>, i: nat, k: nat)
    requires i + k <= |s|
    ensures s[i..][k..] == s[i + k..]
    ensures forall g :: g in s[..i] || g in s[i..][..k] ==> g in s[..i + k]
  {
    assert s[..i + k] == s[..i] + s[i..][..k];
  }

  /** Taking an answer that is not used keeps everything. */
  lemma {:induction false} SkipSupply(sp: Space, t: Tree, sp1: Space)
    requires Ready(sp, t) && sp.supply != []
    requires sp1.root == sp.root && sp1.mem == sp.mem && sp1.supply == sp.supply[1..]
    ensures Ready(sp1, t) && SameLeaves(sp, sp1)
  {
    hide EntryOk, NodeOk, LinkedFrom;
    forall f, i | f in t && |t[f]| < 3 && 0 <= i < 512 ensures EntryOk(sp1, t, f, i) {
      assert EntryOk(sp, t, f, i);
      EntrySame(sp, sp1, t, f, i);
    }
    forall f | f in t && f != sp1.root ensures exists g :: LinkedFrom(sp1, t, f, g) {
      var g :| LinkedFrom(sp, t, f, g);
      ParentSame(sp, sp1, t, f, g);
    }
    forall p: Path ensures Leaf(sp, p) == Leaf(sp1, p) {
      LeafSame(sp, sp1, sp.root, p, 0);
    }
  }

  lemma {:induction false} EntrySame(a: Space, b: Space, t: Tree, f: u64, i: nat)
    requires a.mem == b.mem && f in t && f in a.mem && i < 512 && EntryOk(a, t, f, i)
    ensures EntryOk(b, t, f, i)
  {
  }

  lemma {:induction false} ParentSame(a: Space, b: Space, t: Tree, f: u64, g: u64)
    requires a.mem == b.mem && f in t && LinkedFrom(a, t, f, g)
    ensures LinkedFrom(b, t, f, g)
  {
  }

  lemma {:induction false} LeafSame(a: Space, b: Space, f: u64, p: Path, k: nat)
    requires a.mem == b.mem && f in a.mem && k <= 3
    ensures LeafFrom(a, f, p, k) == LeafFrom(b, f, p, k)
    decreases 3 - k
  {
    hide Present, Huge, AddrOf;
    if k < 3 {
      var e := a.mem[f][p[k]];
      if Present(e) && !Huge(e) && AddrOf(e) in a.mem {
        LeafSame(a, b, AddrOf(e), p, k + 1);
      }
    }
  }

  /** Allocating and linking the next table keeps shape, freshness and every leaf. */
  lemma {:induction false} LinkReady(sp: Space, t: Tree, f: u64, i: nat)
    requires Ready(sp, t) && f in t && |t[f]| < 3 && i < 512 && !Present(sp.mem[f][i])
    requires sp.supply != [] && Usable(sp, sp.supply[0])
    ensures var g := sp.supply[0];
            var s, u := LinkNew(sp.(supply := sp.supply[1..]), f, i, g), t[g := t[f] + [i]];
            g !in t && Ready(s, u) && SameLeaves(sp, s)
  {
    hide EntryOk, NodeOk, LinkedFrom, LinkEntry, LinkNew;
    var g, sp1 := sp.supply[0], sp.(supply := sp.supply[1..]);
    SkipSupply(sp, t, sp1);
    var s, u := LinkNew(sp1, f, i, g), t[g := t[f] + [i]];
    LinkKeepsShape(sp1, t, f, i, g);
    LinkMem(sp1, t, f, i, g);
    LinkRoot(sp1, f, i, g);
    forall p: Path ensures Leaf(sp1, p) == Leaf(s, p) {
      assert p[..0] == [];
      LinkKeepsLeaves(sp1, t, f, i, g, sp.root, p, 0);
    }
    assert forall j :: 0 <= j < |s.supply| ==> s.supply[j] == sp.supply[j + 1];
  }

  /** get_or_alloc_next_table in a ready space: nothing a walk can see changes. */
  lemma {:induction false} NextTableReady(sp: Space, t: Tree, f: u64, i: nat) returns (u: Tree)
    requires Ready(sp, t) && f in t && |t[f]| < 3 && i < 512
    ensures var n := NextTable(sp, f, i);
            && Ready(n.sp, u) && SameLeaves(sp, n.sp) && Grows(t, u, 1)
            && (n.walked.At? ==> n.walked.frame in u && u[n.walked.frame] == t[f] + [i])
            && (n.walked.Miss? ==> n.walked.rc in {NoMem, Inval})
            && |sp.supply| - 1 <= |n.sp.supply| && Consumes(sp, n.sp, t, u)
            && (n.walked.Miss? && n.walked.rc == NoMem ==>
                  sp.supply == [] || !Aligned(sp.supply[0]) || sp.supply[0] == INVALID_PHYS)
            && (n.walked.Miss? && n.walked.rc == Inval ==> sp.supply != [] && sp.supply[0] !in sp.mem)
  {
    hide NodeOk, LinkedFrom, LinkEntry, AddrOf, Huge, ZeroTable, FreshSupply, Aligned;
    u := t;
    assert EntryOk(sp, t, f, i);
    if Present(sp.mem[f][i]) {
      ReadyRefl(sp, t);
    } else if sp.supply == [] {
      ReadyRefl(sp, t);
    } else {
      var g, sp1 := sp.supply[0], sp.(supply := sp.supply[1..]);
      if Usable(sp, g) {
        u := t[g := t[f] + [i]];
        LinkReady(sp, t, f, i);
        assert LinkNew(sp1, f, i, g) == NextTable(sp, f, i).sp;
      } else if g in sp.mem || g == INVALID_PHYS || !Aligned(g) {
        SkipSupply(sp, t, sp1);
      } else {
        SkipSupply(sp, t, sp1.(freed := sp1.freed + [g]));
      }
    }
  }

  /** Three levels of get_or_alloc_next_table: at most three new tables, and no answer changes. */
  lemma {:induction false} DescendReady(sp: Space, t: Tree, f: u64, p: Path, k: nat) returns (u: Tree)
    requires Ready(sp, t) && k <= 3 && f in t && t[f] == p[..k]
    ensures var r := Descend(sp, f, p, k);
            && Ready(r.sp, u) && SameLeaves(sp, r.sp) && Grows(t, u, 3 - k)
            && (r.walked.At? ==> r.walked.frame in u && u[r.walked.frame] == p[..3])
            && (r.walked.Miss? ==> r.walked.rc in {NoMem, Inval})
            && |sp.supply| - (3 - k) <= |r.sp.supply| && Consumes(sp, r.sp, t, u)
    decreases 3 - k
  {
    hide Ready, NextTable, SameLeaves, Consumes;
    ReadyMem(sp, t, f);
    if k == 3 {
      u := t;
      ReadyRefl(sp, t);
      ConsumesNothing(sp, t);
    } else {
      var n := NextTable(sp, f, p[k]);
      u := NextTableReady(sp, t, f, p[k]);
      if n.walked.At? {
        assert p[..k + 1] == p[..k] + [p[k]];
        var w := DescendReady(n.sp, u, n.walked.frame, p, k + 1);
        LeavesTrans(sp, n.sp, Descend(sp, f, p, k).sp);
        ConsumesTrans(sp, n.sp, Descend(sp, f, p, k).sp, t, u, w);
        u := w;
      }
    }
  }

  lemma {:induction false} ConsumesNothing(sp: Space, t: Tree)
    ensures Consumes(sp, sp, t, t)
  {
    assert sp.supply[0..] == sp.supply;
  }

  lemma {:induction false} ReadyMem(sp: Space, t: Tree, f: u64)
    requires Ready(sp, t) && f in t
    ensures f in sp.mem && RootOk(sp)
  {
  }

  lemma {:induction false} ReadyRefl(sp: Space, t: Tree)
    requires Ready(sp, t)
    ensures SameLeaves(sp, sp)
  {
  }

  lemma {:induction false} LeavesTrans(a: Space, b: Space, c: Space)
    requires SameLeaves(a, b) && SameLeaves(b, c)
    ensures SameLeaves(a, c)
  {
  }
}
