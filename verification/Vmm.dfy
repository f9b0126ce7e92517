/**
 Four-level page tables (src/vmm.c). Physical memory is a map from the frames the kernel
 can reach to 512-entry tables; every entry is a 64-bit value whose fields are taken
 apart with the divisions that the C shifts and masks stand for.
 */
module Vmm {
  import opened Words

  type Table = t: seq<u64> | |t| == 512 witness seq(512, i => 0)

  const INVALID_PHYS: u64 := 0xFFFF_FFFF_FFFF_FFFF

  datatype Rc = MapOk | Inval | NoMem | Exists | NotFound

  // ---------- addresses ----------

  predicate Aligned(x: u64) { x % 4096 == 0 }

  /** Bits 63..47 are all equal. */
  predicate Canonical(v: u64) {
    if (v / 0x8000_0000_0000) % 2 == 1 then v / 0x1_0000_0000_0000 == 0xFFFF else v / 0x1_0000_0000_0000 == 0
  }

  predicate Page(v: u64) { Canonical(v) && Aligned(v) }

  function IdxPml4(v: u64): (i: nat) ensures i < 512 { (v / 0x80_0000_0000) % 512 }
  function IdxPdpt(v: u64): (i: nat) ensures i < 512 { (v / 0x4000_0000) % 512 }
  function IdxPd(v: u64): (i: nat) ensures i < 512 { (v / 0x20_0000) % 512 }
  function IdxPt(v: u64): (i: nat) ensures i < 512 { (v / 0x1000) % 512 }

  type Path = p: seq<nat> | |p| == 4 && forall i :: 0 <= i < 4 ==> p[i] < 512 witness [0, 0, 0, 0]

  function Indices(v: u64): Path {
    [IdxPml4(v), IdxPdpt(v), IdxPd(v), IdxPt(v)]
  }

  lemma {:induction false} Split(x: nat)
    ensures x == 512 * (x / 512) + x % 512
  {
  }

  /** A canonical page address is its high half bit and four indices. */
  lemma {:induction false} PageFromIndices(v: u64)
    requires Page(v)
    ensures v == (if IdxPml4(v) >= 256 then 0xFFFF_0000_0000_0000 else 0)
                 + 0x80_0000_0000 * IdxPml4(v) + 0x4000_0000 * IdxPdpt(v) + 0x20_0000 * IdxPd(v) + 0x1000 * IdxPt(v)
  {
    var a, b, c, d := v / 0x1000, v / 0x20_0000, v / 0x4000_0000, v / 0x80_0000_0000;
    assert b == a / 512 && c == b / 512 && d == c / 512;
    Split(a); Split(b); Split(c); Split(d);
    assert v == 0x1000 * a;
    assert d / 512 == v / 0x1_0000_0000_0000;
    assert (v / 0x8000_0000_0000) % 2 == d % 512 / 256 by { TopBit(v, d); }
  }

  lemma {:induction false} TopBit(v: u64, d: nat)
    requires d == v / 0x80_0000_0000
    ensures (v / 0x8000_0000_0000) % 2 == d % 512 / 256
  {
    assert v / 0x8000_0000_0000 == d / 256;
  }

  /** Distinct canonical page addresses take distinct paths through the tables. */
  lemma {:induction false} IndicesInjective(v: u64, w: u64)
    requires Page(v) && Page(w) && Indices(v) == Indices(w)
    ensures v == w
  {
    hide Canonical, IdxPml4, IdxPdpt, IdxPd, IdxPt;
    PageFromIndices(v);
    PageFromIndices(w);
    assert Indices(v)[0] == IdxPml4(v) && Indices(v)[1] == IdxPdpt(v) && Indices(v)[2] == IdxPd(v)
           && Indices(v)[3] == IdxPt(v);
    assert Indices(w)[0] == IdxPml4(w) && Indices(w)[1] == IdxPdpt(w) && Indices(w)[2] == IdxPd(w)
           && Indices(w)[3] == IdxPt(w);
  }

  // ---------- entries ----------

  predicate Present(e: u64) { e % 2 == 1 }
  predicate Huge(e: u64) { (e / 128) % 2 == 1 }

  /** e & 0x000FFFFFFFFFF000 */
  function AddrOf(e: u64): u64 { (e / 4096) % 0x100_0000_0000 * 4096 }

  /** e & ~0x000FFFFFFFFFF000 */
  function FlagsOf(e: u64): u64 { e - AddrOf(e) }

  /** x & m, for a power of two m */
  function Bit(x: u64, m: u64): (b: int)
    requires m > 0
    ensures b == 0 || b == m
  {
    if (x / m) % 2 == 1 then m else 0
  }

  /** flags & (WRITABLE | USER | WRITE_THROUGH | CACHE_DISABLE | GLOBAL | NO_EXECUTE) */
  function Allowed(f: u64): u64 {
    Bit(f, 2) + Bit(f, 4) + Bit(f, 8) + Bit(f, 16) + Bit(f, 256) + Bit(f, 0x8000_0000_0000_0000)
  }

  function LeafEntry(paddr: u64, flags: u64): u64 {
    AddrOf(paddr) + 1 + Allowed(flags)
  }

  function LinkEntry(frame: u64): u64 {
    AddrOf(frame) + 3
  }

  lemma {:induction false} LeafReadsBack(paddr: u64, flags: u64)
    ensures var e := LeafEntry(paddr, flags);
            Present(e) && !Huge(e) && AddrOf(e) == AddrOf(paddr) && FlagsOf(e) == 1 + Allowed(flags)
  {
    var q := (paddr / 4096) % 0x100_0000_0000;
    var top := (flags / 0x8000_0000_0000_0000) % 2;
    assert Bit(flags, 0x8000_0000_0000_0000) == 0x8000_0000_0000_0000 * top;
    hide Bit;
    var even := Bit(flags, 2) + Bit(flags, 4) + Bit(flags, 8) + Bit(flags, 16);
    LowFlags(even, Bit(flags, 256));
    EntryParts(q, 1 + even + Bit(flags, 256), top);
  }

  /** PRESENT with flag bits 1 to 4 and 8 is odd and has bit 7 clear. */
  lemma {:induction false} LowFlags(even: nat, global: nat)
    requires even <= 30 && even % 2 == 0 && (global == 0 || global == 256)
    ensures var low := 1 + even + global; low < 4096 && low % 2 == 1 && (low / 128) % 2 == 0
  {
  }

  /** An entry put together from frame number, low flags and bit 63 comes apart again. */
  lemma {:induction false} EntryParts(q: nat, low: nat, top: nat)
    requires q < 0x100_0000_0000 && low < 4096 && top < 2
    ensures var e := 4096 * q + low + 0x8000_0000_0000_0000 * top;
            e < 0x1_0000_0000_0000_0000 && e % 2 == low % 2 && (e / 128) % 2 == (low / 128) % 2 && AddrOf(e) == 4096 * q
  {
    var e := 4096 * q + low + 0x8000_0000_0000_0000 * top;
    var hi := q + 0x8_0000_0000_0000 * top;
    assert e == 4096 * hi + low;
    DivMod(e, hi, low);
    assert hi % 0x100_0000_0000 == q;
  }

  lemma {:induction false} DivMod(e: nat, hi: nat, low: nat)
    requires e == 4096 * hi + low && low < 4096
    ensures e / 4096 == hi && e % 2 == low % 2 && (e / 128) % 2 == (low / 128) % 2
  {
    Even(2048 * hi, low);
    ShiftDown(hi, low);
    Even(16 * hi, low / 128);
  }

  lemma {:induction false} Even(h: nat, l: nat)
    ensures (2 * h + l) % 2 == l % 2
  {
  }

  lemma {:induction false} ShiftDown(hi: nat, low: nat)
    requires low < 4096
    ensures (4096 * hi + low) / 4096 == hi && (4096 * hi + low) / 128 == 32 * hi + low / 128
  {
    var r := low % 128;
    assert low == 128 * (low / 128) + r;
  }

  lemma {:induction false} LinkReadsBack(frame: u64)
    requires Aligned(frame)
    ensures var e := LinkEntry(frame); Present(e) && !Huge(e) && AddrOf(e) == AddrOf(frame)
    ensures frame < 0x10_0000_0000_0000 ==> AddrOf(frame) == frame
  {
    var q := (frame / 4096) % 0x100_0000_0000;
    EntryParts(q, 3, 0);
  }

  // ---------- state ----------

  /**
   mem: the tables behind every frame that phys_to_virt can translate.
   supply: what the allocator callback will answer, in order; it answers INVALID_PHYS at the end.
   freed: what was handed to the free callback.
   */
  datatype Space = Space(root: u64, mem: map<u64, Table>, supply: seq<u64>, freed: seq<u64>)

  function ZeroTable(): Table { seq(512, i => 0) }

  function SetEntry(sp: Space, f: u64, i: nat, e: u64): Space
    requires f in sp.mem && i < 512
  {
    sp.(mem := sp.mem[f := sp.mem[f][i := e]])
  }

  datatype Walked = At(frame: u64) | Miss(rc: Rc)

  // ---------- query ----------

  /** Follow present, non-huge entries from a level-k table down to the page table. */
  function Walk(sp: Space, f: u64, p: Path, k: nat): (w: Walked)
    requires f in sp.mem && k <= 3
    ensures w.At? ==> w.frame in sp.mem
    decreases 3 - k
  {
    if k == 3 then At(f)
    else
      var e := sp.mem[f][p[k]];
      if !Present(e) || Huge(e) then Miss(NotFound)
      else if AddrOf(e) !in sp.mem then Miss(Inval)
      else Walk(sp, AddrOf(e), p, k + 1)
  }

  predicate RootOk(sp: Space) { Aligned(sp.root) && sp.root in sp.mem }

  datatype Answer = Mapped(paddr: u64, flags: u64) | Fail(rc: Rc)

  function Query(sp: Space, v: u64): Answer {
    if !Page(v) || !RootOk(sp) then Fail(Inval)
    else
      match Walk(sp, sp.root, Indices(v), 0)
      case Miss(rc) => Fail(rc)
      case At(pt) =>
        var e := sp.mem[pt][IdxPt(v)];
        if !Present(e) then Fail(NotFound) else Mapped(AddrOf(e), FlagsOf(e))
  }

  datatype Result = Result(sp: Space, rc: Rc)

  function Unmap(sp: Space, v: u64): Result {
    if !Page(v) || !RootOk(sp) then Result(sp, Inval)
    else
      match Walk(sp, sp.root, Indices(v), 0)
      case Miss(rc) => Result(sp, rc)
      case At(pt) =>
        if !Present(sp.mem[pt][IdxPt(v)]) then Result(sp, NotFound)
        else Result(SetEntry(sp, pt, IdxPt(v), 0), MapOk)
  }

  // ---------- map ----------

  datatype Found = Found(sp: Space, walked: Walked)

  /** get_or_alloc_next_table */
  function NextTable(sp: Space, f: u64, i: nat): (r: Found)
    requires f in sp.mem && i < 512
    ensures r.sp.mem.Keys == sp.mem.Keys && r.sp.root == sp.root
    ensures r.walked.At? ==> r.walked.frame in sp.mem
  {
    var e := sp.mem[f][i];
    if Present(e) then
      if Huge(e) then Found(sp, Miss(Exists))
      else if AddrOf(e) !in sp.mem then Found(sp, Miss(Inval))
      else Found(sp, At(AddrOf(e)))
    else if sp.supply == [] then Found(sp, Miss(NoMem))
    else
      var g, sp1 := sp.supply[0], sp.(supply := sp.supply[1..]);
      if g == INVALID_PHYS || !Aligned(g) then Found(sp1, Miss(NoMem))
      else if g !in sp.mem then Found(sp1.(freed := sp1.freed + [g]), Miss(Inval))
      else Found(SetEntry(sp1.(mem := sp1.mem[g := ZeroTable()]), f, i, LinkEntry(g)), At(g))
  }

  /** get_or_alloc_next_table at every level from k down to the page table. */
  function Descend(sp: Space, f: u64, p: Path, k: nat): (r: Found)
    requires f in sp.mem && k <= 3
    ensures r.sp.mem.Keys == sp.mem.Keys && r.sp.root == sp.root
    ensures r.walked.At? ==> r.walked.frame in r.sp.mem
    decreases 3 - k
  {
    if k == 3 then Found(sp, At(f))
    else
      var n := NextTable(sp, f, p[k]);
      if n.walked.Miss? then n else Descend(n.sp, n.walked.frame, p, k + 1)
  }

  function Map(sp: Space, v: u64, paddr: u64, flags: u64): Result {
    if !Page(v) || !Aligned(paddr) || !RootOk(sp) then Result(sp, Inval)
    else
      var r := Descend(sp, sp.root, Indices(v), 0);
      match r.walked
      case Miss(rc) => Result(r.sp, rc)
      case At(pt) =>
        if Present(r.sp.mem[pt][IdxPt(v)]) then Result(r.sp, Exists)
        else Result(SetEntry(r.sp, pt, IdxPt(v), LeafEntry(paddr, flags)), MapOk)
  }
}
