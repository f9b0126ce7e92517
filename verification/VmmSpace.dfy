/**
 The imperative form of src/vmm.c: an address space whose tables are updated entry by
 entry. Each method equals its specification function on every state, so what is proved
 of those functions holds of the code.
 */
module VmmSpace {
  import opened Words
  import opened Vmm

  class AddressSpace {
    var root: u64
    /** The table behind each frame that phys_to_virt translates. */
    var mem: map<u64, Table>
    /** The allocator callback's coming answers. */
    var supply: seq<u64>
    var freed: seq<u64>

    function Model(): Space
      reads this
    {
      Space(root, mem, supply, freed)
    }

    constructor (mem: map<u64, Table>, supply: seq<u64>)
      ensures Model() == Space(0, mem, supply, [])
    {
      this.root, this.mem, this.supply, this.freed := 0, mem, supply, [];
    }

    /** vmm_space_init */
    method Init(rootPaddr: u64) returns (rc: Rc)
      modifies this
      ensures rc == (if Aligned(rootPaddr) then MapOk else Inval)
      ensures Model() == if rc == MapOk then old(Model()).(root := rootPaddr) else old(Model())
    {
      if !Aligned(rootPaddr) { return Inval; }
      root := rootPaddr;
      return MapOk;
    }

    /** table_from_phys: false stands for the null pointer. */
    method TableFromPhys(paddr: u64) returns (ok: bool)
      ensures ok <==> Aligned(paddr) && paddr in mem
    {
      if !Aligned(paddr) { return false; }
      return paddr in mem;
    }

    /** The alloc_frame callback. */
    method AllocFrame() returns (frame: u64)
      modifies this`supply
      ensures if old(supply) == [] then frame == INVALID_PHYS && supply == []
              else frame == old(supply)[0] && supply == old(supply)[1..]
    {
      if supply == [] { return INVALID_PHYS; }
      frame := supply[0];
      supply := supply[1..];
    }

    /** vmm_zero_page */
    method ZeroPage(frame: u64)
      requires frame in mem
      modifies this`mem
      ensures mem == old(mem)[frame := ZeroTable()]
    {
      var i := 0;
      while i < 512
        invariant 0 <= i <= 512 && mem.Keys == old(mem).Keys
        invariant forall f :: f in mem && f != frame ==> mem[f] == old(mem)[f]
        invariant forall k :: 0 <= k < i ==> mem[frame][k] == 0
      {
        mem := mem[frame := mem[frame][i := 0]];
        i := i + 1;
      }
      assert mem[frame] == ZeroTable();
      assert mem == old(mem)[frame := ZeroTable()];
    }

    method GetOrAllocNextTable(table: u64, index: nat) returns (rc: Rc, next: u64)
      requires table in mem && index < 512
      modifies this
      ensures Found(Model(), if rc == MapOk then At(next) else Miss(rc)) == NextTable(old(Model()), table, index)
    {
      hide Present, Huge, LinkEntry, ZeroTable;
      next := 0;
      var entry := mem[table][index];
      if Present(entry) {
        if Huge(entry) { return Exists, next; }
        AddrAligned(entry);
        var ok := TableFromPhys(AddrOf(entry));
        if !ok { return Inval, next; }
        return MapOk, AddrOf(entry);
      }
      var frame := AllocFrame();
      if frame == INVALID_PHYS || !Aligned(frame) { return NoMem, next; }
      var ok := TableFromPhys(frame);
      if !ok {
        freed := freed + [frame];
        return Inval, next;
      }
      ZeroPage(frame);
      mem := mem[table := mem[table][index := LinkEntry(frame)]];
      return MapOk, frame;
    }

    /** vmm_map_page */
    method MapPage(v: u64, paddr: u64, flags: u64) returns (rc: Rc)
      modifies this
      ensures Result(Model(), rc) == Map(old(Model()), v, paddr, flags)
    {
      hide NextTable, LeafEntry, IdxPml4, IdxPdpt, IdxPd, IdxPt, Canonical;
      if !Canonical(v) || !Aligned(v) || !Aligned(paddr) { return Inval; }
      var ok := TableFromPhys(root);
      if !ok { return Inval; }
      ghost var s0, p := Model(), Indices(v);
      var pdpt, pd, pt;
      rc, pdpt := GetOrAllocNextTable(root, IdxPml4(v));
      NextRc(s0, root, IdxPml4(v));
      assert Descend(s0, root, p, 0) ==
             if rc == MapOk then Descend(Model(), pdpt, p, 1) else Found(Model(), Miss(rc))
               by { DescendStep(s0, root, p, 0); }
      if rc != MapOk { return; }
      ghost var s1 := Model();
      rc, pd := GetOrAllocNextTable(pdpt, IdxPdpt(v));
      NextRc(s1, pdpt, IdxPdpt(v));
      assert Descend(s1, pdpt, p, 1) == if rc == MapOk then Descend(Model(), pd, p, 2) else Found(Model(), Miss(rc))
             by { DescendStep(s1, pdpt, p, 1); }
      if rc != MapOk { return; }
      ghost var s2 := Model();
      rc, pt := GetOrAllocNextTable(pd, IdxPd(v));
      NextRc(s2, pd, IdxPd(v));
      assert Descend(s2, pd, p, 2) == if rc == MapOk then Descend(Model(), pt, p, 3) else Found(Model(), Miss(rc))
             by { DescendStep(s2, pd, p, 2); }
      if rc != MapOk { return; }
      var pti := IdxPt(v);
      if Present(mem[pt][pti]) { return Exists; }
      mem := mem[pt := mem[pt][pti := LeafEntry(paddr, flags)]];
      return MapOk;
    }

    /** One step of the read-only walk. */
    method Follow(table: u64, index: nat) returns (rc: Rc, next: u64)
      requires table in mem && index < 512
      ensures var e := mem[table][index];
              if !Present(e) || Huge(e) then rc == NotFound
              else if AddrOf(e) !in mem then rc == Inval
              else rc == MapOk && next == AddrOf(e)
    {
      next := 0;
      var e := mem[table][index];
      if !Present(e) || Huge(e) { return NotFound, next; }
      AddrAligned(e);
      var ok := TableFromPhys(AddrOf(e));
      if !ok { return Inval, next; }
      return MapOk, AddrOf(e);
    }

    /** The walk shared by query and unmap: root, PML4, PDPT and PD entries in turn. */
    method WalkToPt(v: u64) returns (rc: Rc, pt: u64)
      requires RootOk(Model())
      ensures (if rc == MapOk then At(pt) else Miss(rc)) == Walk(Model(), root, Indices(v), 0)
    {
      hide Present, Huge, AddrOf, IdxPml4, IdxPdpt, IdxPd, IdxPt, Aligned;
      ghost var s, p := Model(), Indices(v);
      var pdpt, pd;
      pt := 0;
      rc, pdpt := Follow(root, IdxPml4(v));
      if rc != MapOk { return; }
      assert Walk(s, root, p, 0) == Walk(s, pdpt, p, 1);
      rc, pd := Follow(pdpt, IdxPdpt(v));
      if rc != MapOk { return; }
      assert Walk(s, pdpt, p, 1) == Walk(s, pd, p, 2);
      rc, pt := Follow(pd, IdxPd(v));
      if rc != MapOk { return; }
      assert Walk(s, pd, p, 2) == Walk(s, pt, p, 3);
    }

    /** vmm_query_page */
    method QueryPage(v: u64) returns (a: Answer)
      ensures a == Query(Model(), v)
    {
      hide Walk, AddrOf, Present, Canonical, IdxPt;
      if !Canonical(v) || !Aligned(v) { return Fail(Inval); }
      var ok := TableFromPhys(root);
      if !ok { return Fail(Inval); }
      var rc, pt := WalkToPt(v);
      if rc != MapOk { return Fail(rc); }
      var e := mem[pt][IdxPt(v)];
      if !Present(e) { return Fail(NotFound); }
      return Mapped(AddrOf(e), FlagsOf(e));
    }

    /** vmm_unmap_page */
    method UnmapPage(v: u64) returns (rc: Rc)
      modifies this
      ensures Result(Model(), rc) == Unmap(old(Model()), v)
    {
      hide Walk, AddrOf, Present, Canonical, IdxPt;
      if !Canonical(v) || !Aligned(v) { return Inval; }
      var ok := TableFromPhys(root);
      if !ok { return Inval; }
      var pt;
      rc, pt := WalkToPt(v);
      if rc != MapOk { return; }
      var pti := IdxPt(v);
      if !Present(mem[pt][pti]) { return NotFound; }
      mem := mem[pt := mem[pt][pti := 0]];
      return MapOk;
    }
  }

  lemma {:induction false} AddrAligned(e: u64)
    ensures Aligned(AddrOf(e))
  {
  }

  lemma {:induction false} DescendStep(sp: Space, f: u64, p: Path, k: nat)
    requires f in sp.mem && k < 3
    ensures var n := NextTable(sp, f, p[k]);
            Descend(sp, f, p, k) == if n.walked.Miss? then n else Descend(n.sp, n.walked.frame, p, k + 1)
  {
    hide NextTable;
  }

  /** get_or_alloc_next_table never reports MAP_OK together with a miss. */
  lemma {:induction false} NextRc(sp: Space, f: u64, i: nat)
    requires f in sp.mem && i < 512
    ensures NextTable(sp, f, i).walked != Miss(MapOk)
  {
    hide AddrOf, LinkEntry, ZeroTable;
  }
}
