/**
 The paging calls said of raw bits: which addresses they refuse, which bits of the physical
 address and of the flags survive a map and a query, what every table entry on the way makes
 them answer, and how many frames a map takes.
 */
module VmmReplies {
  import opened Words
  import opened Bytes
  import opened Vmm
  import opened VmmRefine
  import opened VmmRuns

  // ---------- addresses ----------

  /** The addresses between the two canonical halves. */
  predicate InHole(v: u64) { 0x0000_8000_0000_0000 <= v < 0xFFFF_8000_0000_0000 }

  predicate BadAddress(v: u64) { v % 4096 != 0 || InHole(v) }

  lemma {:induction false} PageIff(v: u64)
    ensures Canonical(v) <==> !InHole(v)
    ensures Page(v) <==> !BadAddress(v)
  {
    var q, r := v / 0x8000_0000_0000, v / 0x1_0000_0000_0000;
    assert r == q / 2;
    assert q < 0x2_0000;
  }

  /** Query: INVAL exactly for a misaligned address or one in the hole, else what is mapped there. */
  lemma {:induction false} QuerySays(sp: Space, t: Tree, m: Flat, v: u64)
    requires Ready(sp, t) && Refines(sp, m)
    ensures Query(sp, v) == if BadAddress(v) then Fail(Inval) else Lookup(m, v)
  {
    hide Page, BadAddress, Ready, Walk;
    PageIff(v);
  }

  /** Unmap: INVAL for the same addresses, NOT_FOUND for the unmapped ones. */
  lemma {:induction false} UnmapSays(sp: Space, t: Tree, m: Flat, v: u64)
    requires Ready(sp, t) && Refines(sp, m)
    ensures Unmap(sp, v).rc == if BadAddress(v) then Inval else if v in m then MapOk else NotFound
  {
    hide Page, BadAddress, Ready, Unmap, Query;
    PageIff(v);
    UnmapRefines(sp, t, m, v);
  }

  // ---------- map: the answer, and the frames it takes ----------

  /** How many tables are missing on the way from a level-k table to the page table. */
  function Missing(sp: Space, f: u64, p: Path, k: nat): (n: nat)
    requires f in sp.mem && k <= 3
    ensures n <= 3 - k
    decreases 3 - k
  {
    if k == 3 then 0
    else
      var e := sp.mem[f][p[k]];
      if !Present(e) then 3 - k
      else if AddrOf(e) !in sp.mem then 0
      else Missing(sp, AddrOf(e), p, k + 1)
  }

  /** How many of the first n answers of the allocator can be used, up to the first that cannot. */
  function Good(sp: Space, n: nat): (i: nat)
    ensures i <= n && i <= |sp.supply|
    ensures forall j :: 0 <= j < i ==> Usable(sp, sp.supply[j])
    ensures i == n || i == |sp.supply| || !Usable(sp, sp.supply[i])
  {
    if n == 0 then 0
    else
      var i := Good(sp, n - 1);
      if i == n - 1 && i < |sp.supply| && Usable(sp, sp.supply[i]) then i + 1 else i
  }

  /** Good is the one number with its three properties. */
  lemma {:induction false} GoodIs(sp: Space, n: nat, i: nat)
    requires i <= n && i <= |sp.supply| && forall j :: 0 <= j < i ==> Usable(sp, sp.supply[j])
    requires i == n || i == |sp.supply| || !Usable(sp, sp.supply[i])
    ensures Good(sp, n) == i
  {
    hide Usable;
  }

  /** What asking the allocator for n frames comes to, when the first i are usable. */
  predicate Asked(sp: Space, r: Found, n: nat, i: nat)
    requires i <= n && i <= |sp.supply|
  {
    if i == n then r.walked.At? && r.sp.supply == sp.supply[n..] && r.sp.freed == sp.freed
    else if i == |sp.supply| then r.walked == Miss(NoMem) && r.sp.supply == [] && r.sp.freed == sp.freed
    else
      var g := sp.supply[i];
      && r.sp.supply == sp.supply[i + 1..]
      && if g == INVALID_PHYS || g % 4096 != 0 then r.walked == Miss(NoMem) && r.sp.freed == sp.freed
         else r.walked == Miss(Inval) && r.sp.freed == sp.freed + [g]
  }

  /** The descent asks for exactly the missing tables and stops at the first answer it cannot use. */
  lemma {:induction false} DescendSays(sp: Space, t: Tree, f: u64, p: Path, k: nat)
    requires Ready(sp, t) && k <= 3 && f in t && t[f] == p[..k]
    ensures f in sp.mem
    ensures var n := Missing(sp, f, p, k); Asked(sp, Descend(sp, f, p, k), n, Good(sp, n))
    decreases 3 - k
  {
    hide Ready, AddrOf, Huge, NextTable, Asked, Good, SameLeaves, Grows, Consumes, Usable;
    ReadyMem(sp, t, f);
    if k == 3 {
      NoneAsked(sp, Descend(sp, f, p, k));
    } else {
      var n := NextTable(sp, f, p[k]);
      var u := NextTableReady(sp, t, f, p[k]);
      ReadyEntry(sp, t, f, p[k]);
      NextSays(sp, f, p[k]);
      assert p[..k + 1] == p[..k] + [p[k]];
      if Present(sp.mem[f][p[k]]) {
        DescendSays(sp, t, AddrOf(sp.mem[f][p[k]]), p, k + 1);
      } else if n.walked.At? {
        FreshMissing(sp, f, p, k);
        DescendSays(n.sp, u, n.walked.frame, p, k + 1);
        OneMore(sp, n.sp, Descend(sp, f, p, k), 3 - k);
      } else {
        NoneUsable(sp, n, 3 - k);
      }
    }
  }

  /** One level: an entry that leads on is followed; an absent one takes the next answer of the allocator. */
  lemma {:induction false} NextSays(sp: Space, f: u64, i: nat)
    requires f in sp.mem && i < 512
    ensures var e, r := sp.mem[f][i], NextTable(sp, f, i);
            && (Present(e) && !Huge(e) && AddrOf(e) in sp.mem ==> r == Found(sp, At(AddrOf(e))))
            && (!Present(e) && r.walked.At? ==>
                  |sp.supply| > 0 && Usable(sp, sp.supply[0]) && r.walked.frame == sp.supply[0])
            && (!Present(e) && r.walked.Miss? ==> Unanswered(sp, r))
  {
    hide AddrOf, Huge, LinkEntry, ZeroTable;
  }

  /** What is left when the next answer cannot be used. */
  predicate Unanswered(sp: Space, r: Found) {
    if |sp.supply| == 0 then r == Found(sp, Miss(NoMem))
    else
      var g, sp1 := sp.supply[0], sp.(supply := sp.supply[1..]);
      && !Usable(sp, g)
      && r == if g == INVALID_PHYS || g % 4096 != 0 then Found(sp1, Miss(NoMem))
              else Found(sp1.(freed := sp1.freed + [g]), Miss(Inval))
  }

  lemma {:induction false} ReadyEntry(sp: Space, t: Tree, f: u64, i: nat)
    requires Ready(sp, t) && f in t && f in sp.mem && |t[f]| < 3 && i < 512
    ensures EntryOk(sp, t, f, i)
    ensures forall h :: h in t ==> h in sp.mem
    ensures |sp.supply| > 0 && Usable(sp, sp.supply[0]) ==> sp.supply[0] !in t
  {
    hide EntryOk, LinkedFrom, NodeOk, Usable;
  }

  lemma {:induction false} NoneAsked(sp: Space, r: Found)
    requires r.walked.At? && r.sp == sp
    ensures Asked(sp, r, 0, Good(sp, 0))
  {
    assert sp.supply[0..] == sp.supply;
  }

  /** Everything below a fresh table is missing. */
  lemma {:induction false} FreshMissing(sp: Space, f: u64, p: Path, k: nat)
    requires k < 3 && f in sp.mem && !Present(sp.mem[f][p[k]]) && NextTable(sp, f, p[k]).walked.At?
    requires NextTable(sp, f, p[k]).walked.frame != f
    ensures var n := NextTable(sp, f, p[k]);
            && Missing(n.sp, n.walked.frame, p, k + 1) == 2 - k
            && n.sp.freed == sp.freed && |sp.supply| > 0 && n.sp.supply == sp.supply[1..] && Usable(sp, sp.supply[0])
            && n.sp.mem.Keys == sp.mem.Keys
  {
    hide LinkEntry, AddrOf, Huge;
  }

  lemma {:induction false} NoneUsable(sp: Space, r: Found, n: nat)
    requires n > 0 && Unanswered(sp, r)
    ensures Asked(sp, r, n, Good(sp, n))
  {
    hide Usable;
    GoodIs(sp, n, 0);
  }

  /** One frame taken, then the rest asked for. */
  lemma {:induction false} OneMore(sp: Space, sp1: Space, r: Found, n: nat)
    requires n > 0 && |sp.supply| > 0 && Usable(sp, sp.supply[0])
    requires sp1.supply == sp.supply[1..] && sp1.freed == sp.freed && sp1.mem.Keys == sp.mem.Keys
    requires Asked(sp1, r, n - 1, Good(sp1, n - 1))
    ensures Asked(sp, r, n, Good(sp, n))
  {
    var i := Good(sp1, n - 1);
    forall j | 0 <= j < i + 1 ensures Usable(sp, sp.supply[j]) {
      if j > 0 { assert Usable(sp1, sp1.supply[j - 1]); }
    }
    GoodIs(sp, n, i + 1);
    assert i == n - 1 ==> sp1.supply[n - 1..] == sp.supply[n..];
    assert i < |sp1.supply| ==> sp1.supply[i + 1..] == sp.supply[i + 2..];
  }

  /**
   Map: INVAL and no change for a bad address; otherwise it asks for exactly the missing tables.
   With all of them granted the answer is EXISTS or OK; at the first answer it cannot use it is
   NOMEM, or INVAL for a frame out of reach, which alone is given back.
   */
  lemma {:induction false} MapSays(sp: Space, t: Tree, m: Flat, v: u64, paddr: u64, flags: u64)
    requires Ready(sp, t) && Refines(sp, m)
    ensures BadAddress(v) || paddr % 4096 != 0 ==> Map(sp, v, paddr, flags) == Result(sp, Inval)
    ensures !BadAddress(v) && paddr % 4096 == 0 ==>
      && RootOk(sp)
      && var r, n := Map(sp, v, paddr, flags), Missing(sp, sp.root, Indices(v), 0);
         var i := Good(sp, n);
         && Asked(sp, Found(r.sp, if r.rc in {MapOk, Exists} then At(0) else Miss(r.rc)), n, i)
         && (i == n ==> r.rc == if v in m then Exists else MapOk)
  {
    hide Page, BadAddress, Ready, Refines, Descend, LeafEntry, Asked, Good, Missing, IdxPml4, IdxPdpt, IdxPd, IdxPt;
    PageIff(v);
    var u := MapRefines(sp, t, m, v, paddr, flags);
    assert RootOk(sp) && sp.root in t && t[sp.root] == [] by { ReadyRoot(sp, t); }
    if !BadAddress(v) && paddr % 4096 == 0 {
      var p := Indices(v);
      assert p[..0] == [];
      DescendSays(sp, t, sp.root, p, 0);
      AskedAlike(sp, Descend(sp, sp.root, p, 0), Map(sp, v, paddr, flags), Missing(sp, sp.root, p, 0));
    }
  }

  lemma {:induction false} ReadyRoot(sp: Space, t: Tree)
    requires Ready(sp, t)
    ensures RootOk(sp) && sp.root in t && t[sp.root] == []
  {
    ShapeRoot(sp, t);
  }

  lemma {:induction false} AskedAlike(sp: Space, d: Found, r: Result, n: nat)
    requires Asked(sp, d, n, Good(sp, n))
    requires r.sp.supply == d.sp.supply && r.sp.freed == d.sp.freed
    requires if d.walked.At? then r.rc in {MapOk, Exists} else r.rc == d.walked.rc
    ensures Asked(sp, Found(r.sp, if r.rc in {MapOk, Exists} then At(0) else Miss(r.rc)), n, Good(sp, n))
    ensures Good(sp, n) == n ==> r.rc in {MapOk, Exists}
  {
    hide Usable;
  }

  /** With three usable frames in stock, INVAL answers exactly a bad address, in all three calls. */
  lemma {:induction false} InvalIff(sp: Space, t: Tree, m: Flat, v: u64, paddr: u64, flags: u64)
    requires Ready(sp, t) && Refines(sp, m) && v % 4096 == 0 && paddr % 4096 == 0
    requires |sp.supply| >= 3 && forall i :: 0 <= i < 3 ==> Usable(sp, sp.supply[i])
    ensures Map(sp, v, paddr, flags).rc == Inval <==> 0x0000_8000_0000_0000 <= v < 0xFFFF_8000_0000_0000
    ensures Query(sp, v) == Fail(Inval) <==> 0x0000_8000_0000_0000 <= v < 0xFFFF_8000_0000_0000
    ensures Unmap(sp, v).rc == Inval <==> 0x0000_8000_0000_0000 <= v < 0xFFFF_8000_0000_0000
  {
    hide Page, Ready, Refines, Map, Query, Unmap, Usable, Missing, Asked;
    QuerySays(sp, t, m, v);
    UnmapSays(sp, t, m, v);
    MapSays(sp, t, m, v, paddr, flags);
    if !InHole(v) {
      var n := Missing(sp, sp.root, Indices(v), 0);
      GoodIs(sp, n, n);
    }
  }

  // ---------- bits ----------

  lemma {:induction false} HalfPow(x: nat, k: nat)
    requires k > 0
    ensures x / Pow2(k) == x / 2 / Pow2(k - 1)
  {
    var q := Pow2(k - 1);
    assert Pow2(k) == 2 * q;
    DivTwice(x, q);
  }

  lemma {:induction false} DivTwice(x: nat, q: nat)
    requires q > 0
    ensures x / (2 * q) == x / 2 / q
  {
    var y, d := x / 2, x / 2 / q;
    var r := y - d * q;
    assert 0 <= r < q;
    assert x == 2 * q * d + (2 * r + x % 2);
    DivIs(x, 2 * q, d, 2 * r + x % 2);
  }

  lemma {:induction false} DivIs(x: nat, q: nat, d: nat, r: nat)
    requires x == q * d + r && r < q
    ensures x / q == d
  {
    var e, z := x / q, x / q - d;
    assert x == q * e + x % q;
    assert q * z == q * e - q * d == r - x % q;
    Multiple(q, z);
  }

  lemma {:induction false} Multiple(q: int, z: int)
    requires q > 0
    ensures z >= 1 ==> q * z >= q
    ensures z <= -1 ==> q * z <= -q
  {
  }

  /** Bit k of x is (x >> k) & 1. */
  lemma {:induction false} TestBitIs(x: nat, k: nat)
    ensures TestBit(x, k) <==> (x / Pow2(k)) % 2 == 1
  {
    if k > 0 {
      HalfPow(x, k);
      TestBitIs(x / 2, k - 1);
    }
  }

  /** The bits of low and of y in low + 2^a * y. */
  lemma {:induction false} Concat(low: nat, y: nat, a: nat, k: nat)
    requires low < Pow2(a)
    ensures TestBit(low + Pow2(a) * y, k) <==> if k < a then TestBit(low, k) else TestBit(y, k - a)
  {
    if a > 0 {
      var x, q := low + Pow2(a) * y, Pow2(a - 1);
      HalfSum(low, q, y);
      if k > 0 { Concat(low / 2, y, a - 1, k - 1); }
    }
  }

  lemma {:induction false} HalfSum(low: nat, q: nat, y: nat)
    ensures (low + 2 * q * y) / 2 == low / 2 + q * y && (low + 2 * q * y) % 2 == low % 2
    ensures low < 2 * q ==> low / 2 < q
  {
    var z := q * y;
    assert 2 * q * y == 2 * z;
  }

  lemma {:induction false} Powers()
    ensures Pow2(12) == 4096 && Pow2(40) == 0x100_0000_0000 && Pow2(63) == 0x8000_0000_0000_0000
    ensures Pow2(1) == 2 && Pow2(2) == 4 && Pow2(3) == 8 && Pow2(4) == 16 && Pow2(7) == 128 && Pow2(8) == 256
  {
    hide Pow2;
    SmallPowers();
    PowAdd(8, 4);
    PowAdd(8, 8);
    PowAdd(16, 8);
    PowAdd(16, 16);
    PowAdd(32, 8);
    PowAdd(40, 16);
    PowAdd(56, 7);
  }

  lemma {:induction false} SmallPowers()
    ensures Pow2(1) == 2 && Pow2(2) == 4 && Pow2(3) == 8 && Pow2(4) == 16 && Pow2(7) == 128 && Pow2(8) == 256
  {
    assert Pow2(4) == 16;
  }

  lemma {:induction false} PowAdd(a: nat, b: nat)
    ensures Pow2(a + b) == Pow2(a) * Pow2(b)
  {
    if b > 0 {
      PowAdd(a, b - 1);
    }
  }

  /** A word is its low 12 bits, 40 address bits and 12 high bits. */
  lemma {:induction false} WordBits(low: nat, mid: nat, hi: nat, k: nat)
    requires low < 4096 && mid < 0x100_0000_0000
    ensures TestBit(low + 4096 * (mid + 0x100_0000_0000 * hi), k) <==>
            if k < 12 then TestBit(low, k) else if k < 52 then TestBit(mid, k - 12) else TestBit(hi, k - 52)
  {
    hide TestBit, Pow2;
    Powers();
    Concat(low, mid + 0x100_0000_0000 * hi, 12, k);
    if k >= 12 { Concat(mid, hi, 40, k - 12); }
  }

  /** VMM_PTE_ADDR_MASK is bits 12 to 51: AddrOf keeps those, FlagsOf the others. */
  lemma {:induction false} MaskBits(e: u64, k: nat)
    ensures TestBit(AddrOf(e), k) <==> 12 <= k < 52 && TestBit(e, k)
    ensures TestBit(FlagsOf(e), k) <==> !(12 <= k < 52) && TestBit(e, k)
  {
    hide TestBit;
    var low, q := e % 4096, e / 4096;
    var mid, hi := q % 0x100_0000_0000, q / 0x100_0000_0000;
    WordBits(low, mid, hi, k);
    WordBits(0, mid, 0, k);
    WordBits(low, 0, hi, k);
    NoBit(k);
    if 12 <= k { NoBit(k - 12); }
    if 52 <= k { NoBit(k - 52); }
  }

  /** Adding flag j of f to a word without bit j adds bit j exactly if f has it. */
  lemma {:induction false} AddFlag(x: nat, f: u64, j: nat, k: nat)
    requires !TestBit(x, j) && Pow2(j) < 0x1_0000_0000_0000_0000
    ensures TestBit(x + Bit(f, Pow2(j)), k) <==> TestBit(x, k) || (k == j && TestBit(f, j))
  {
    hide TestBit;
    TestBitIs(f, j);
    AddBit(x, j, k);
  }

  lemma {:induction false} AddBit(x: nat, j: nat, k: nat)
    requires !TestBit(x, j)
    ensures TestBit(x + Pow2(j), k) <==> TestBit(x, k) || k == j
  {
    if j > 0 {
      HalfSum(x, Pow2(j - 1), 1);
      if k > 0 { AddBit(x / 2, j - 1, k - 1); }
    } else if k > 0 {
      assert (x + 1) / 2 == x / 2;
    }
  }

  /** The flags a mapping can carry: PRESENT, and WRITABLE, USER, WRITE_THROUGH, CACHE_DISABLE, GLOBAL, NO_EXECUTE. */
  predicate FlagAt(flags: u64, k: nat) {
    k == 0 || (k in {1, 2, 3, 4, 8, 63} && TestBit(flags, k))
  }

  lemma {:induction false} AllowedBits(flags: u64, k: nat)
    ensures TestBit(1 + Allowed(flags), k) <==> FlagAt(flags, k)
  {
    hide TestBit, Bit, Pow2;
    Powers();
    forall i ensures TestBit(1, i) <==> i == 0 { OneBit(i); }
    var x := Carry(1, flags, {}, 1);
    x := Carry(x, flags, {1}, 2);
    x := Carry(x, flags, {1, 2}, 3);
    x := Carry(x, flags, {1, 2, 3}, 4);
    x := Carry(x, flags, {1, 2, 3, 4}, 8);
    x := Carry(x, flags, {1, 2, 3, 4, 8}, 63);
    assert {1, 2, 3, 4, 8} + {63} == {1, 2, 3, 4, 8, 63};
  }

  /** x has bit 0 and, of the flags in s, those that f has. */
  ghost predicate Carries(x: nat, f: u64, s: set<nat>) {
    forall i: nat :: TestBit(x, i) <==> i == 0 || (i in s && TestBit(f, i))
  }

  lemma {:induction false} Carry(x: nat, f: u64, s: set<nat>, j: nat) returns (y: nat)
    requires Carries(x, f, s) && j > 0 && j !in s && Pow2(j) < 0x1_0000_0000_0000_0000
    ensures y == x + Bit(f, Pow2(j)) && Carries(y, f, s + {j})
  {
    hide TestBit, Bit, Pow2;
    y := x + Bit(f, Pow2(j));
    forall i: nat ensures TestBit(y, i) <==> i == 0 || (i in s + {j} && TestBit(f, i)) { AddFlag(x, f, j, i); }
  }

  lemma {:induction false} OneBit(i: nat)
    ensures TestBit(1, i) <==> i == 0
  {
    if i > 0 { NoBit(i - 1); }
  }

  /** A link carries PRESENT and WRITABLE and the 40 address bits of its frame. */
  lemma {:induction false} LinkBits(frame: u64, k: nat)
    ensures TestBit(LinkEntry(frame), k) <==> k == 0 || k == 1 || (12 <= k < 52 && TestBit(frame, k))
  {
    hide TestBit;
    var q := frame / 4096;
    var mid := q % 0x100_0000_0000;
    WordBits(3, mid, 0, k);
    MaskBits(frame, k);
    WordBits(0, mid, 0, k);
    assert AddrOf(frame) == 4096 * mid;
    ThreeBits(k);
    NoBit(k);
    if k >= 52 { NoBit(k - 52); }
  }

  lemma {:induction false} ThreeBits(k: nat)
    ensures TestBit(3, k) <==> k == 0 || k == 1
  {
    if k > 0 { OneBit(k - 1); }
  }

  /** Query after a successful Map: address bits 12 to 51 as given, and exactly the flags above. */
  lemma {:induction false} MappedBits(sp: Space, t: Tree, m: Flat, v: u64, paddr: u64, flags: u64, k: nat)
    requires Ready(sp, t) && Refines(sp, m) && Map(sp, v, paddr, flags).rc == MapOk
    ensures var q := Query(Map(sp, v, paddr, flags).sp, v);
            && q.Mapped?
            && (TestBit(q.paddr, k) <==> 12 <= k < 52 && TestBit(paddr, k))
            && (TestBit(q.flags, k) <==> k == 0 || (k in {1, 2, 3, 4, 8, 63} && TestBit(flags, k)))
  {
    hide Page, Ready, TestBit, Map, Query, AddrOf, Allowed;
    var u := MapRefines(sp, t, m, v, paddr, flags);
    MaskBits(paddr, k);
    AllowedBits(flags, k);
  }

  // ---------- the walk, entry by entry, in any memory ----------

  /** Tables fs lead down from the root along p: each entry has bit 0 and not bit 7 and names the next. */
  predicate Chain(sp: Space, p: Path, fs: seq<u64>) {
    && 1 <= |fs| <= 4 && sp.root % 4096 == 0 && fs[0] == sp.root
    && (forall i :: 0 <= i < |fs| ==> fs[i] in sp.mem)
    && (forall i :: 0 <= i < |fs| - 1 ==>
          var e := sp.mem[fs[i]][p[i]]; TestBit(e, 0) && !TestBit(e, 7) && AddrOf(e) == fs[i + 1])
  }

  lemma {:induction false} EntryBits(e: u64)
    ensures Present(e) <==> TestBit(e, 0)
    ensures Huge(e) <==> TestBit(e, 7)
  {
    hide TestBit;
    Powers();
    assert Pow2(0) == 1;
    TestBitIs(e, 0);
    TestBitIs(e, 7);
  }

  lemma {:induction false} ChainWalk(sp: Space, p: Path, fs: seq<u64>, k: nat)
    requires Chain(sp, p, fs) && k < |fs|
    ensures Walk(sp, sp.root, p, 0) == Walk(sp, fs[k], p, k)
    ensures Descend(sp, sp.root, p, 0) == Descend(sp, fs[k], p, k)
  {
    hide TestBit, AddrOf, Present, Huge;
    if k > 0 {
      ChainWalk(sp, p, fs, k - 1);
      EntryBits(sp.mem[fs[k - 1]][p[k - 1]]);
    }
  }

  /** Where the chain stops short of a page table, its next entry alone decides the answers. */
  lemma {:induction false} StoppedSays(sp: Space, v: u64, paddr: u64, flags: u64, fs: seq<u64>)
    requires !BadAddress(v) && paddr % 4096 == 0 && Chain(sp, Indices(v), fs) && |fs| < 4
    ensures var e := sp.mem[fs[|fs| - 1]][Indices(v)[|fs| - 1]];
            && (!TestBit(e, 0) || TestBit(e, 7) ==>
                  Query(sp, v) == Fail(NotFound) && Unmap(sp, v) == Result(sp, NotFound))
            && (TestBit(e, 0) && TestBit(e, 7) ==> Map(sp, v, paddr, flags) == Result(sp, Exists))
            && (TestBit(e, 0) && !TestBit(e, 7) && AddrOf(e) !in sp.mem ==>
                  && Query(sp, v) == Fail(Inval) && Unmap(sp, v) == Result(sp, Inval)
                  && Map(sp, v, paddr, flags) == Result(sp, Inval))
  {
    hide TestBit, AddrOf, Present, Huge, Page, BadAddress, IdxPml4, IdxPdpt, IdxPd, IdxPt;
    PageIff(v);
    var k := |fs| - 1;
    ChainWalk(sp, Indices(v), fs, k);
    EntryBits(sp.mem[fs[k]][Indices(v)[k]]);
  }

  /** Where the chain reaches a page table, bit 0 of its entry decides, and only that entry is written. */
  lemma {:induction false} ReachedSays(sp: Space, v: u64, paddr: u64, flags: u64, fs: seq<u64>)
    requires !BadAddress(v) && paddr % 4096 == 0 && Chain(sp, Indices(v), fs) && |fs| == 4
    ensures var pt, i := fs[3], IdxPt(v);
            var e := sp.mem[pt][i];
            if TestBit(e, 0) then
              && Query(sp, v) == Mapped(AddrOf(e), FlagsOf(e)) && Map(sp, v, paddr, flags) == Result(sp, Exists)
              && Unmap(sp, v) == Result(sp.(mem := sp.mem[pt := sp.mem[pt][i := 0]]), MapOk)
            else
              && Query(sp, v) == Fail(NotFound) && Unmap(sp, v) == Result(sp, NotFound)
              && var r := Map(sp, v, paddr, flags);
                 r == Result(sp.(mem := sp.mem[pt := sp.mem[pt][i := LeafEntry(paddr, flags)]]), MapOk)
  {
    hide TestBit, AddrOf, Present, Page, BadAddress, IdxPml4, IdxPdpt, IdxPd, IdxPt, LeafEntry, FlagsOf;
    PageIff(v);
    ChainWalk(sp, Indices(v), fs, 3);
    EntryBits(sp.mem[fs[3]][IdxPt(v)]);
  }
}
