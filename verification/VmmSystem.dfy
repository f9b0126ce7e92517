/**
 Page tables and frame allocator running together from boot, with other users of the
 allocator taking, giving back and reserving frames in between.
 */
module VmmSystem {
  import opened Words
  import opened Bytes
  import V = Vmm
  import opened VmmRefine
  import opened VmmRuns
  import P = Pmm
  import opened PmmProps
  import opened PmmReplies
  import opened VmmPmm

  datatype System = System(sp: V.Space, pmm: P.State, flat: Flat)

  /** Map or unmap a page, or let someone else use the frame allocator. */
  datatype Act =
    | MapPage(v: u64, paddr: u64, flags: u64)
    | UnmapPage(v: u64)
    | TakeFrame
    | GiveFrame(addr: u64)
    | ReserveRange(base: u64, length: u64)

  /** The allocator works and its frames fit the page tables' 52 address bits. */
  predicate Suits(p: P.State) { Running(p) && p.frames <= 0x100_0000_0000 }

  function Do(y: System, a: Act): (z: System)
    requires Suits(y.pmm)
    ensures Suits(z.pmm)
  {
    match a
    case MapPage(v, paddr, flags) =>
      var (s, q, rc) := MapFrom(y.sp, y.pmm, v, paddr, flags);
      System(s, q, MapEffect(y.flat, v, paddr, flags, rc))
    case UnmapPage(v) =>
      var r := V.Unmap(y.sp.(supply := []), v);
      System(r.sp, y.pmm, if r.rc == V.MapOk then y.flat - {v} else y.flat)
    case TakeFrame => y.(pmm := AllocMany(y.pmm, 1))
    case GiveFrame(addr) =>
      PerformKeeps(y.pmm, FreeOp(addr));
      y.(pmm := P.Free(y.pmm, addr))
    case ReserveRange(base, length) =>
      PerformKeeps(y.pmm, ReserveOp(base, length));
      y.(pmm := P.Reserve(y.pmm, base, length))
  }

  function DoAll(y: System, acts: seq<Act>): (z: System)
    requires Suits(y.pmm)
    ensures Suits(z.pmm)
    decreases |acts|
  {
    if acts == [] then y else Do(DoAll(y, acts[..|acts| - 1]), acts[|acts| - 1])
  }

  // ---------- which frames are tables ----------

  /** The table reached from the root through the present entries at these indices, or none. */
  function TableAt(sp: V.Space, p: seq<nat>): (r: seq<u64>)
    ensures |r| <= 1
    decreases |p|
  {
    if p == [] then [sp.root]
    else
      var up, i := TableAt(sp, p[..|p| - 1]), p[|p| - 1];
      if up != [] && up[0] in sp.mem && i < 512 && V.Present(sp.mem[up[0]][i]) then [V.AddrOf(sp.mem[up[0]][i])] else []
  }

  ghost predicate IsTable(sp: V.Space, f: u64) {
    exists p: seq<nat> :: |p| <= 3 && TableAt(sp, p) == [f]
  }

  /** Every frame of the tree is reached from the root. */
  lemma {:induction false} TreeIsTables(sp: V.Space, t: Tree, f: u64)
    requires Shape(sp, t) && f in t
    ensures TableAt(sp, t[f]) == [f] && IsTable(sp, f) && f % 4096 == 0
    decreases |t[f]|
  {
    hide EntryOk, V.Present, V.AddrOf;
    assert NodeOk(t, f);
    if f == sp.root {
      assert t[f] == [];
    } else {
      var g :| LinkedFrom(sp, t, f, g);
      TreeIsTables(sp, t, g);
    }
  }

  /** Nobody gives back a frame that serves as a table. */
  ghost predicate Admissible(y: System, acts: seq<Act>)
    requires Suits(y.pmm)
  {
    forall i :: 0 <= i < |acts| && acts[i].GiveFrame? ==> !IsTable(DoAll(y, acts[..i]).sp, acts[i].addr)
  }

  // ---------- every act keeps refinement, shape and ownership ----------

  ghost predicate Sane(y: System, t: Tree) {
    Shape(y.sp, t) && Refines(y.sp, y.flat) && Owned(y.sp, t, y.pmm)
  }

  lemma {:induction false} UnmapKeepsFrames(sp: V.Space, v: u64)
    ensures V.Unmap(sp, v).sp.mem.Keys == sp.mem.Keys
  {
    hide V.Indices;
  }

  lemma {:induction false} UnmapSane(y: System, t: Tree, v: u64)
    requires Sane(y, t)
    ensures Sane(Do(y, UnmapPage(v)), t)
  {
    hide Shape, Refines, V.Unmap, Running, P.Used;
    var s := y.sp.(supply := []);
    SupplyIrrelevant(y.sp, t, y.flat, []);
    UnmapRefines(s, t, y.flat, v);
    UnmapKeepsFrames(s, v);
  }

  lemma {:induction false} TakeSane(y: System, t: Tree)
    requires Sane(y, t)
    ensures Sane(Do(y, TakeFrame), t)
  {
    hide Shape, Refines, Inv, P.Used, AllocMany;
    AllocNone(y.pmm);
    forall g | g in t ensures P.Used(AllocMany(y.pmm, 1), g / 4096) { UsedGrows(y.pmm, 0, 1, g / 4096); }
  }

  lemma {:induction false} GiveSane(y: System, t: Tree, addr: u64)
    requires Sane(y, t) && !IsTable(y.sp, addr)
    ensures Sane(Do(y, GiveFrame(addr)), t)
  {
    hide Shape, Refines, Inv, P.Used, IsTable;
    PerformKeeps(y.pmm, FreeOp(addr));
    if P.FreeAccepted(y.pmm, addr) {
      FreeSays(y.pmm, addr);
      forall g | g in t ensures P.Used(P.Free(y.pmm, addr), g / 4096) {
        TreeIsTables(y.sp, t, g);
        assert g != addr;
        assert g == g / 4096 * 4096 && addr == addr / 4096 * 4096;
      }
    }
  }

  lemma {:induction false} ReserveSane(y: System, t: Tree, base: u64, length: u64)
    requires Sane(y, t)
    ensures Sane(Do(y, ReserveRange(base, length)), t)
  {
    hide Shape, Refines, Inv, P.Used, P.RangeUsed;
    PerformKeeps(y.pmm, ReserveOp(base, length));
    ReserveAnyKeeps(y.pmm, base, length);
  }

  /**
   Over every run: the walk answers as the flat map, the tables form a tree of frames the
   allocator has given out and not taken back, and each call adds at most three.
   */
  lemma {:induction false} SystemRuns(y: System, t: Tree, acts: seq<Act>) returns (u: Tree)
    requires Sane(y, t) && Suits(y.pmm) && Admissible(y, acts)
    ensures Sane(DoAll(y, acts), u) && Grows(t, u, 3 * |acts|)
    decreases |acts|
  {
    hide Shape, Refines, Running, P.Used, MapFrom, MapEffect, V.Unmap, AllocMany, IsTable;
    u := t;
    if acts != [] {
      var n := |acts| - 1;
      var init := acts[..n];
      AdmissibleInit(y, acts);
      u := SystemRuns(y, t, init);
      var z := DoAll(y, init);
      match acts[n]
      case MapPage(v, paddr, flags) => u := MapFromPmm(z.sp, u, z.pmm, z.flat, v, paddr, flags);
      case UnmapPage(v) => UnmapSane(z, u, v);
      case TakeFrame => TakeSane(z, u);
      case GiveFrame(addr) => GiveSane(z, u, addr);
      case ReserveRange(base, length) => ReserveSane(z, u, base, length);
    }
  }

  lemma {:induction false} AdmissibleInit(y: System, acts: seq<Act>)
    requires Suits(y.pmm) && acts != [] && Admissible(y, acts)
    ensures Admissible(y, acts[..|acts| - 1])
    ensures acts[|acts| - 1].GiveFrame? ==> !IsTable(DoAll(y, acts[..|acts| - 1]).sp, acts[|acts| - 1].addr)
  {
    hide IsTable, DoAll, Running;
    var init := acts[..|acts| - 1];
    forall i | 0 <= i < |init| && init[i].GiveFrame? ensures !IsTable(DoAll(y, init[..i]).sp, init[i].addr) {
      assert init[..i] == acts[..i];
    }
  }

  // ---------- boot ----------

  /** The allocator as pmm_init_from_map leaves it. */
  function BootState(storage: seq<byte>, rs: seq<P.Region>, maxPhys: u64): (p: P.State)
    requires P.InitArgsOk(storage, rs, maxPhys) && maxPhys / 4096 <= 0x100_0000_0000
    ensures Suits(p) && P.Sized(p) && p.hint <= p.frames == maxPhys / 4096
  {
    hide Inv, P.Used, P.RangeUsed, P.FreeRegions, P.ReserveRegions, P.Blank;
    InitRuns(storage, rs, maxPhys);
    InvBounds(P.Init(storage, rs, maxPhys));
    P.Init(storage, rs, maxPhys)
  }

  /**
   From boot: a root table taken from pmm_alloc_frame and zeroed gives a system in which
   nothing is mapped and every promise above holds.
   */
  lemma {:induction false} Boot(storage: seq<byte>, rs: seq<P.Region>, maxPhys: u64, sp: V.Space)
    requires P.InitArgsOk(storage, rs, maxPhys) && maxPhys / 4096 <= 0x100_0000_0000
    requires forall f :: 0 <= f < maxPhys / 4096 ==> 4096 * f in sp.mem
    requires P.Alloc(BootState(storage, rs, maxPhys)).addr == sp.root != P.INVALID_FRAME
    requires sp.root in sp.mem && sp.mem[sp.root] == V.ZeroTable()
    ensures Sane(System(sp, P.Alloc(BootState(storage, rs, maxPhys)).s, map[]), map[sp.root := []])
  {
    hide BootState, P.Alloc, P.Used, Inv, Shape, Refines;
    var p := BootState(storage, rs, maxPhys);
    PerformKeeps(p, AllocOp);
    AllocKeeps(p);
    var bare := sp.(supply := []);
    InitialReady(bare);
    SupplyIrrelevant(bare, map[sp.root := []], map[], sp.supply);
  }
}
