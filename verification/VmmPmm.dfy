/**
 Page tables fed by the physical frame allocator: the allocator's own guarantees are the
 freshness that the page-table refinement asks of its frames.
 */
module VmmPmm {
  import opened Words
  import V = Vmm
  import opened VmmRefine
  import opened VmmRuns
  import P = Pmm
  import opened PmmProps

  /** pmm_alloc_frame called n times. */
  function AllocMany(p: P.State, n: nat): (q: P.State)
    requires Running(p)
    ensures Running(q) && q.frames == p.frames
  {
    if n == 0 then p
    else
      var q := AllocMany(p, n - 1);
      PerformKeeps(q, AllocOp);
      P.Alloc(q).s
  }

  /** The answer to call number i. */
  function Nth(p: P.State, i: nat): nat
    requires Running(p)
  {
    P.Alloc(AllocMany(p, i)).addr
  }

  /** What the page tables are offered while one page is mapped: three answers are always enough. */
  function Offer(p: P.State): seq<u64>
    requires Running(p) && p.frames <= 0x100_0000_0000
  {
    NthBound(p, 0); NthBound(p, 1); NthBound(p, 2);
    [Nth(p, 0), Nth(p, 1), Nth(p, 2)]
  }

  lemma {:induction false} NthBound(p: P.State, i: nat)
    requires Running(p) && p.frames <= 0x100_0000_0000
    ensures Nth(p, i) < 0x1_0000_0000_0000_0000
    ensures Nth(p, i) != P.INVALID_FRAME ==> Nth(p, i) % 4096 == 0 && Nth(p, i) / 4096 < p.frames
  {
    hide AllocMany, P.Alloc, P.Used, Inv;
    AllocKeeps(AllocMany(p, i));
  }

  /** Frames used stay used, and each answer is used once given. */
  lemma {:induction false} UsedGrows(p: P.State, i: nat, j: nat, f: nat)
    requires Running(p) && i <= j && f < p.frames && P.Used(AllocMany(p, i), f)
    ensures P.Used(AllocMany(p, j), f)
    decreases j
  {
    hide P.Alloc, P.Used, Inv;
    if i < j {
      UsedGrows(p, i, j - 1, f);
      AllocKeeps(AllocMany(p, j - 1));
    }
  }

  lemma {:induction false} AnswerUsed(p: P.State, i: nat)
    requires Running(p) && Nth(p, i) != P.INVALID_FRAME
    ensures var f := Nth(p, i) / 4096;
            && Nth(p, i) == 4096 * f && f < p.frames
            && !P.Used(AllocMany(p, i), f) && P.Used(AllocMany(p, i + 1), f)
  {
    hide P.Alloc, P.Used, Inv;
    AllocKeeps(AllocMany(p, i));
  }

  lemma {:induction false} AnswersDistinct(p: P.State, i: nat, j: nat)
    requires Running(p) && i < j && Nth(p, i) != P.INVALID_FRAME
    ensures Nth(p, j) != Nth(p, i)
  {
    hide AllocMany, P.Alloc, P.Used, Inv, Nth;
    AnswerUsed(p, i);
    UsedGrows(p, i + 1, j, Nth(p, i) / 4096);
    if Nth(p, j) != P.INVALID_FRAME {
      AnswerUsed(p, j);
    }
  }

  /** The allocator's frames are reachable, and it counts every page table as used. */
  ghost predicate Owned(sp: V.Space, t: Tree, p: P.State) {
    && Running(p) && p.frames <= 0x100_0000_0000
    && (forall f :: 0 <= f < p.frames ==> 4096 * f in sp.mem)
    && (forall g :: g in t ==> g / 4096 < p.frames && P.Used(p, g / 4096))
  }

  /** pmm_alloc_frame's contract discharges the freshness assumption of the page tables. */
  lemma {:induction false} OfferIsFresh(sp: V.Space, t: Tree, p: P.State)
    requires Owned(sp, t, p)
    ensures FreshSupply(sp.(supply := Offer(p)), t)
  {
    hide AllocMany, P.Alloc, P.Used, Inv, Nth;
    var s := Offer(p);
    forall i | 0 <= i < 3 && Usable(sp, s[i])
      ensures s[i] < 0x10_0000_0000_0000 && s[i] !in t && forall j :: i < j < 3 ==> s[j] != s[i]
    {
      assert s[i] == Nth(p, i);
      NthBound(p, i);
      AnswerUsed(p, i);
      forall j | i < j < 3 ensures s[j] != s[i] { assert s[j] == Nth(p, j); AnswersDistinct(p, i, j); }
      assert s[i] !in t by { NotATable(sp, t, p, i); }
    }
  }

  lemma {:induction false} NotATable(sp: V.Space, t: Tree, p: P.State, i: nat)
    requires Owned(sp, t, p) && Nth(p, i) != P.INVALID_FRAME
    ensures Nth(p, i) !in t
  {
    hide P.Alloc, P.Used, Inv, Nth;
    AnswerUsed(p, i);
    StaysUsed(p, i, Nth(p, i) / 4096);
  }

  lemma {:induction false} StaysUsed(p: P.State, i: nat, f: nat)
    requires Running(p) && f < p.frames
    ensures P.Used(p, f) ==> P.Used(AllocMany(p, i), f)
  {
    hide P.Alloc, P.Used, Inv;
    if P.Used(p, f) { UsedGrows(p, 0, i, f); }
  }

  /** Mapping a page with the frame allocator as the callback. */
  function MapFrom(sp: V.Space, p: P.State, v: u64, paddr: u64, flags: u64): (V.Space, P.State, V.Rc)
    requires Running(p) && p.frames <= 0x100_0000_0000
  {
    var r := V.Map(sp.(supply := Offer(p)), v, paddr, flags);
    var taken := if |r.sp.supply| <= 3 then 3 - |r.sp.supply| else 0;
    (r.sp, AllocMany(p, taken), r.rc)
  }

  /**
   The two allocators compose: with frames from pmm_alloc_frame and no freshness assumed,
   every map keeps the tree shape and the flat-map refinement, and every table it adds is
   a frame the allocator has marked used.
   */
  lemma {:induction false} MapFromPmm(sp: V.Space, t: Tree, p: P.State, m: Flat, v: u64, paddr: u64,
      flags: u64) returns (u: Tree)
    requires Shape(sp, t) && Refines(sp, m) && Owned(sp, t, p)
    ensures var (s, q, rc) := MapFrom(sp, p, v, paddr, flags);
            && Shape(s, u) && Refines(s, MapEffect(m, v, paddr, flags, rc)) && Owned(s, u, q) && Grows(t, u, 3)
  {
    hide Running, V.Map, V.Query, Shape, AllocMany, MapEffect, Refines, Offer, P.Used, FreshSupply;
    var s0 := sp.(supply := Offer(p));
    OfferIsFresh(sp, t, p);
    assert |s0.supply| == 3 by { OfferThree(p); }
    assert Shape(s0, t) && Refines(s0, m) by { SupplyIrrelevant(sp, t, m, Offer(p)); }
    u := MapRefines(s0, t, m, v, paddr, flags);
    var (s, q, rc) := MapFrom(sp, p, v, paddr, flags);
    MapKeepsFrames(s0, v, paddr, flags);
    OwnedAfter(sp, t, p, s, u);
  }

  lemma {:induction false} OwnedAfter(sp: V.Space, t: Tree, p: P.State, s: V.Space, u: Tree)
    requires Owned(sp, t, p) && s.mem.Keys == sp.mem.Keys && Shape(s, u)
    requires Consumes(sp.(supply := Offer(p)), s, t, u)
    ensures Owned(s, u, AllocMany(p, 3 - |s.supply|))
  {
    hide Inv, P.Used, Shape, AllocMany, Nth, Offer;
    OfferThree(p);
    var taken := 3 - |s.supply|;
    var q := AllocMany(p, taken);
    AllocNone(p);
    forall g | g in u ensures g / 4096 < q.frames && P.Used(q, g / 4096) {
      if g in t {
        UsedGrows(p, 0, taken, g / 4096);
      } else {
        var i :| 0 <= i < taken && Offer(p)[i] == g;
        TableFrame(s, u, g);
        OfferAt(p, i);
        AnswerUsed(p, i);
        UsedGrows(p, i + 1, taken, g / 4096);
      }
    }
  }

  lemma {:induction false} OfferAt(p: P.State, i: nat)
    requires Running(p) && p.frames <= 0x100_0000_0000 && i < 3
    ensures |Offer(p)| == 3 && Offer(p)[i] == Nth(p, i)
  {
    hide Nth;
  }

  lemma {:induction false} OfferThree(p: P.State)
    requires Running(p) && p.frames <= 0x100_0000_0000
    ensures |Offer(p)| == 3
  {
  }

  lemma {:induction false} AllocNone(p: P.State)
    requires Running(p)
    ensures AllocMany(p, 0) == p
  {
  }

  lemma {:induction false} TableFrame(sp: V.Space, t: Tree, g: u64)
    requires Shape(sp, t) && g in t
    ensures V.Aligned(g)
  {
    assert NodeOk(t, g);
  }

  lemma {:induction false} MapKeepsFrames(sp: V.Space, v: u64, paddr: u64, flags: u64)
    ensures V.Map(sp, v, paddr, flags).sp.mem.Keys == sp.mem.Keys
  {
    hide V.Indices, V.LeafEntry;
  }

  lemma {:induction false} SupplyIrrelevant(sp: V.Space, t: Tree, m: Flat, supply: seq<u64>)
    requires Shape(sp, t) && Refines(sp, m)
    ensures Shape(sp.(supply := supply), t) && Refines(sp.(supply := supply), m)
  {
    hide EntryOk, NodeOk, LinkedFrom, V.Page, V.Query;
    var s := sp.(supply := supply);
    forall f, i | f in t && |t[f]| < 3 && 0 <= i < 512 ensures EntryOk(s, t, f, i) {
      assert EntryOk(sp, t, f, i);
      EntrySame(sp, s, t, f, i);
    }
    forall f | f in t && f != s.root ensures exists g :: LinkedFrom(s, t, f, g) {
      var g :| LinkedFrom(sp, t, f, g);
      ParentSame(sp, s, t, f, g);
    }
    assert Shape(s, t);
    forall v: u64 | V.Page(v) ensures V.Query(s, v) == Lookup(m, v) {
      QueryIsLeaf(sp, t, v);
      QueryIsLeaf(s, t, v);
      LeafSame(sp, s, sp.root, V.Indices(v), 0);
    }
  }
}
