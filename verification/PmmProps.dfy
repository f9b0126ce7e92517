/**
 What the frame allocator guarantees: the boot map has an exact, order-free meaning, and
 on every run the hinted search is the lowest-free search with exact counters.
 */
module PmmProps {
  import opened Words
  import opened Bytes
  import opened Pmm

  /** Clear bits among the first n. */
  function CountClear(bm: seq<byte>, n: nat): (c: nat)
    requires (n + 7) / 8 <= |bm|
    ensures c <= n
  {
    if n == 0 then 0 else CountClear(bm, n - 1) + if BitOf(bm, n - 1) then 0 else 1
  }

  lemma {:induction false} CountSame(a: seq<byte>, b: seq<byte>, n: nat)
    requires (n + 7) / 8 <= |a| && (n + 7) / 8 <= |b|
    requires forall i :: 0 <= i < n ==> (BitOf(a, i) <==> BitOf(b, i))
    ensures CountClear(a, n) == CountClear(b, n)
  {
    hide BitOf;
    if n > 0 { CountSame(a, b, n - 1); }
  }

  lemma {:induction false} CountSet(bm: seq<byte>, f: nat, n: nat)
    requires (n + 7) / 8 <= |bm| && f < n && !BitOf(bm, f)
    ensures CountClear(BitSet(bm, f), n) == CountClear(bm, n) - 1
  {
    hide BitOf, BitSet;
    BitSetAt(bm, f, n - 1);
    if f < n - 1 {
      CountSet(bm, f, n - 1);
    } else {
      forall i | 0 <= i < n - 1 ensures BitOf(bm, i) <==> BitOf(BitSet(bm, f), i) { BitSetAt(bm, f, i); }
      CountSame(bm, BitSet(bm, f), n - 1);
    }
  }

  lemma {:induction false} CountCleared(bm: seq<byte>, f: nat, n: nat)
    requires (n + 7) / 8 <= |bm| && f < n && BitOf(bm, f)
    ensures CountClear(BitClear(bm, f), n) == CountClear(bm, n) + 1
  {
    hide BitOf, BitClear;
    BitClearAt(bm, f, n - 1);
    if f < n - 1 {
      CountCleared(bm, f, n - 1);
    } else {
      forall i | 0 <= i < n - 1 ensures BitOf(bm, i) <==> BitOf(BitClear(bm, f), i) { BitClearAt(bm, f, i); }
      CountSame(bm, BitClear(bm, f), n - 1);
    }
  }

  lemma {:induction false} CountZeroIffFull(bm: seq<byte>, n: nat)
    requires (n + 7) / 8 <= |bm|
    ensures CountClear(bm, n) == 0 <==> forall i :: 0 <= i < n ==> BitOf(bm, i)
  {
    hide BitOf;
    if n > 0 { CountZeroIffFull(bm, n - 1); }
  }

  // ---------- the invariant ----------

  /** free_frames counts the clear bits, free + used = frame_count, and nothing free lies below the hint. */
  predicate Inv(s: State) {
    && Sized(s) && s.hint <= s.frames
    && s.freeCount == CountClear(s.bitmap, s.frames)
    && s.freeCount + s.usedCount == s.frames
    && forall f :: 0 <= f < s.hint ==> BitOf(s.bitmap, f)
  }

  lemma {:induction false} MarkFreeKeeps(s: State, f: nat)
    requires Inv(s)
    ensures Inv(MarkFree(s, f))
    ensures f < s.frames ==> forall i :: 0 <= i < s.frames ==> (Used(MarkFree(s, f), i) <==> Used(s, i) && i != f)
    ensures f >= s.frames ==> MarkFree(s, f) == s
  {
    hide BitOf, BitClear;
    if f < s.frames && BitOf(s.bitmap, f) {
      CountCleared(s.bitmap, f, s.frames);
      forall i | 0 <= i < s.frames
        ensures BitOf(BitClear(s.bitmap, f), i) <==> BitOf(s.bitmap, i) && i != f
      {
        BitClearAt(s.bitmap, f, i);
      }
    }
  }

  lemma {:induction false} MarkUsedKeeps(s: State, f: nat)
    requires Inv(s)
    ensures Inv(MarkUsed(s, f))
    ensures forall i :: 0 <= i < s.frames ==> (Used(MarkUsed(s, f), i) <==> Used(s, i) || i == f)
  {
    hide BitOf, BitSet;
    if f < s.frames && !BitOf(s.bitmap, f) {
      CountSet(s.bitmap, f, s.frames);
      forall i | 0 <= i < s.frames
        ensures BitOf(BitSet(s.bitmap, f), i) <==> BitOf(s.bitmap, i) || i == f
      {
        BitSetAt(s.bitmap, f, i);
      }
    }
  }

  lemma {:induction false} FreeFramesKeeps(s: State, lo: nat, hi: nat)
    requires Inv(s) && hi <= s.frames
    ensures Inv(FreeFrames(s, lo, hi))
    ensures forall i :: 0 <= i < s.frames ==> (Used(FreeFrames(s, lo, hi), i) <==> Used(s, i) && !(lo <= i < hi))
    decreases hi
  {
    hide BitOf, BitClear, MarkFree, Inv;
    assert Sized(s) by { InvSized(s); }
    if lo < hi {
      FreeFramesKeeps(s, lo, hi - 1);
      MarkFreeKeeps(FreeFrames(s, lo, hi - 1), hi - 1);
    }
  }

  lemma {:induction false} InvSized(s: State)
    requires Inv(s)
    ensures Sized(s)
  {
  }

  lemma {:induction false} ReserveFramesKeeps(s: State, lo: nat, hi: nat)
    requires Inv(s) && hi <= s.frames
    ensures Inv(ReserveFrames(s, lo, hi))
    ensures forall i :: 0 <= i < s.frames ==> (Used(ReserveFrames(s, lo, hi), i) <==> Used(s, i) || lo <= i < hi)
    decreases hi
  {
    hide BitOf, BitSet, MarkUsed, CountClear;
    if lo < hi {
      ReserveFramesKeeps(s, lo, hi - 1);
      var t := ReserveFrames(s, lo, hi - 1);
      MarkUsedKeeps(t, hi - 1);
      forall i | 0 <= i < s.frames ensures Used(ReserveFrames(s, lo, hi), i) <==> Used(s, i) || lo <= i < hi {
        assert Used(MarkUsed(t, hi - 1), i) <==> Used(t, i) || i == hi - 1;
      }
    }
  }

  // ---------- what the boot map means ----------

  /** Frame f lies wholly inside the region. */
  predicate Inside(f: nat, r: Region) {
    r.base <= 4096 * f && 4096 * f + 4096 <= r.base + r.length
  }

  /** Some byte of frame f belongs to the region. */
  predicate Meets(f: nat, r: Region) {
    r.length > 0 && r.base < 4096 * f + 4096 && 4096 * f < r.base + r.length
  }

  /** The frames mark_range_free frees: one that starts in the last page of 2^64 bytes wraps, and frees all. */
  predicate Frees(f: nat, r: Region) {
    r.length > 0 && r.base + r.length < U64 && (r.base > U64 - 4096 || Inside(f, r))
  }

  /** The frames mark_range_used reserves: none for a region that ends in the last page, or beyond. */
  predicate Reserves(f: nat, r: Region) { r.base + r.length <= U64 - 4096 && Meets(f, r) }

  /** As many frames as a 64-bit multiple of 4096 bytes has. */
  const MAX_FRAMES: nat := 0xF_FFFF_FFFF_FFFF

  lemma {:induction false} RangeFreeMeans(s: State, r: Region)
    requires Inv(s) && s.frames <= MAX_FRAMES
    ensures Inv(RangeFree(s, r.base, r.length))
    ensures forall i :: 0 <= i < s.frames ==> (Used(RangeFree(s, r.base, r.length), i) <==> Used(s, i) && !Frees(i, r))
  {
    hide BitOf, FreeFrames, CountClear;
    if r.length > 0 && r.base + r.length < U64 {
      var start, stop := FrameUp(r.base), FrameDown(r.base + r.length);
      FreesFrames(s.frames, r, start, stop);
      if start < stop && start < s.frames {
        var s1 := if stop > s.frames then s.(ignored := (s.ignored + (stop - s.frames)) % U64) else s;
        FreeFramesKeeps(s1, start, Min(stop, s.frames));
      }
    }
  }

  lemma {:induction false} FreesFrames(frames: nat, r: Region, start: nat, stop: nat)
    requires r.length > 0 && r.base + r.length < U64 && frames <= MAX_FRAMES
    requires start == FrameUp(r.base) && stop == FrameDown(r.base + r.length)
    ensures forall i :: 0 <= i < frames ==> (Frees(i, r) <==> start <= i < stop)
  {
    if r.base > U64 - 4096 {
      assert start == 0 && stop == MAX_FRAMES;
    } else {
      assert start == (r.base + 4095) / 4096;
    }
  }

  lemma {:induction false} RangeUsedMeans(s: State, r: Region)
    requires Inv(s)
    ensures Inv(RangeUsed(s, r.base, r.length))
    ensures forall i :: 0 <= i < s.frames ==>
      (Used(RangeUsed(s, r.base, r.length), i) <==> Used(s, i) || Reserves(i, r))
  {
    hide BitOf, ReserveFrames, CountClear;
    if r.length > 0 && r.base + r.length < U64 {
      var start, stop := FrameDown(r.base), FrameUp(r.base + r.length);
      ReservesFrames(s.frames, r, start, stop);
      if start < stop && start < s.frames {
        ReserveFramesKeeps(s, start, Min(stop, s.frames));
      }
    }
  }

  lemma {:induction false} ReservesFrames(frames: nat, r: Region, start: nat, stop: nat)
    requires r.length > 0 && r.base + r.length < U64
    requires start == FrameDown(r.base) && stop == FrameUp(r.base + r.length)
    ensures forall i :: 0 <= i < frames ==> (Reserves(i, r) <==> start <= i < stop)
  {
    if r.base + r.length > U64 - 4096 {
      assert stop == 0;
    } else {
      assert stop == (r.base + r.length + 4095) / 4096;
    }
  }

  /** Where the 64-bit arithmetic does what is meant of a region, on a device of that many frames. */
  predicate Plain(r: Region, frames: nat) {
    || r.length == 0
    || (if r.usable then (r.base + r.length < U64 && r.base <= U64 - 4096)
                         || (r.base + r.length >= U64 && r.base > 4096 * (frames - 1))
        else r.base + r.length <= U64 - 4096 || r.base >= 4096 * frames)
  }

  /** A region is plain exactly if its range is freed, or reserved, as meant. */
  lemma {:induction false} PlainIff(r: Region, frames: nat)
    requires 0 < frames <= MAX_FRAMES
    ensures Plain(r, frames) <==>
            forall f :: 0 <= f < frames ==>
              if r.usable then Frees(f, r) <==> Inside(f, r) else Reserves(f, r) <==> Meets(f, r)
  {
    if r.length > 0 && !Plain(r, frames) {
      var f := if r.usable && r.base > U64 - 4096 && r.base + r.length < U64 then 0
               else if r.usable then (r.base + 4095) / 4096 else r.base / 4096;
      assert 0 <= f < frames;
      assert if r.usable then Frees(f, r) != Inside(f, r) else Reserves(f, r) != Meets(f, r);
    }
  }

  predicate FreedBy(rs: seq<Region>, f: nat) {
    exists k :: 0 <= k < |rs| && rs[k].usable && Frees(f, rs[k])
  }

  predicate KeptBy(rs: seq<Region>, f: nat) {
    exists k :: 0 <= k < |rs| && !rs[k].usable && Reserves(f, rs[k])
  }

  predicate CoveredBy(rs: seq<Region>, f: nat) {
    exists k :: 0 <= k < |rs| && rs[k].usable && Inside(f, rs[k])
  }

  predicate HitBy(rs: seq<Region>, f: nat) {
    exists k :: 0 <= k < |rs| && !rs[k].usable && Meets(f, rs[k])
  }

  lemma {:induction false} FreedSnoc(rs: seq<Region>, f: nat)
    requires rs != []
    ensures var init, x := rs[..|rs| - 1], rs[|rs| - 1];
            && (FreedBy(rs, f) <==> FreedBy(init, f) || (x.usable && Frees(f, x)))
            && (KeptBy(rs, f) <==> KeptBy(init, f) || (!x.usable && Reserves(f, x)))
  {
    hide Frees, Meets;
    var init := rs[..|rs| - 1];
    assert forall k :: 0 <= k < |init| ==> init[k] == rs[k];
  }

  lemma {:induction false} FreeRegionsMeans(s: State, rs: seq<Region>)
    requires Inv(s) && s.frames <= MAX_FRAMES
    ensures Inv(FreeRegions(s, rs))
    ensures forall i :: 0 <= i < s.frames ==> (Used(FreeRegions(s, rs), i) <==> Used(s, i) && !FreedBy(rs, i))
  {
    hide BitOf, CountClear, RangeFree, Frees, FreedBy, Inv, Used;
    InvSized(s);
    if rs == [] {
      forall i | 0 <= i < s.frames ensures !FreedBy(rs, i) { NothingFreed(i); }
    } else {
      var init, x := rs[..|rs| - 1], rs[|rs| - 1];
      FreeRegionsMeans(s, init);
      if x.usable { RangeFreeMeans(FreeRegions(s, init), x); }
      forall i | 0 <= i < s.frames
        ensures FreedBy(rs, i) <==> FreedBy(init, i) || (x.usable && Frees(i, x))
      {
        FreedSnoc(rs, i);
      }
    }
  }

  lemma {:induction false} NothingFreed(f: nat)
    ensures !FreedBy([], f) && !KeptBy([], f)
  {
  }

  lemma {:induction false} ReserveRegionsMeans(s: State, rs: seq<Region>)
    requires Inv(s)
    ensures Inv(ReserveRegions(s, rs))
    ensures forall i :: 0 <= i < s.frames ==> (Used(ReserveRegions(s, rs), i) <==> Used(s, i) || KeptBy(rs, i))
  {
    hide BitOf, CountClear, RangeUsed, Reserves, KeptBy, Inv, Used;
    InvSized(s);
    if rs == [] {
      forall i | 0 <= i < s.frames ensures !KeptBy(rs, i) { NothingFreed(i); }
    } else {
      var init, x := rs[..|rs| - 1], rs[|rs| - 1];
      ReserveRegionsMeans(s, init);
      if !x.usable { RangeUsedMeans(ReserveRegions(s, init), x); }
      forall i | 0 <= i < s.frames
        ensures KeptBy(rs, i) <==> KeptBy(init, i) || (!x.usable && Reserves(i, x))
      {
        FreedSnoc(rs, i);
      }
    }
  }

  lemma {:induction false} BlankFull(storage: seq<byte>, frames: nat)
    requires (frames + 7) / 8 <= |storage|
    ensures Inv(Blank(storage, frames))
    ensures forall i :: 0 <= i < frames ==> Used(Blank(storage, frames), i)
  {
    hide CountClear;
    var s := Blank(storage, frames);
    forall i | 0 <= i < frames ensures BitOf(s.bitmap, i) {
      assert s.bitmap[i / 8] == 255;
      OnesBit(i % 8);
    }
    CountZeroIffFull(s.bitmap, frames);
  }

  lemma {:induction false} OnesBit(k: nat)
    requires k < 8
    ensures TestBit(255, k)
  {
    if k == 0 {} else if k == 1 {} else if k == 2 {} else if k == 3 {}
    else if k == 4 {} else if k == 5 {} else if k == 6 {} else {}
  }

  /**
   What pmm_init_from_map does for any unsorted and overlapping region list: a frame is free if
   and only if it is not frame 0, some usable region frees it and no other region reserves it.
   */
  lemma {:induction false} InitFrees(storage: seq<byte>, rs: seq<Region>, maxPhys: u64)
    requires InitArgsOk(storage, rs, maxPhys)
    ensures var s := Init(storage, rs, maxPhys);
            && Inv(s)
            && Used(s, 0)
            && forall f :: 0 <= f < s.frames ==> (!Used(s, f) <==> f != 0 && FreedBy(rs, f) && !KeptBy(rs, f))
  {
    hide BitOf, CountClear, RangeUsed, Reserves, Frees, KeptBy, FreedBy, FreeRegions, ReserveRegions, Blank;
    var frames := maxPhys / 4096;
    var b := Blank(storage, frames);
    BlankFull(storage, frames);
    FreeRegionsMeans(b, rs);
    var s1 := FreeRegions(b, rs);
    RangeUsedMeans(s1, Region(0, 4096, false));
    var s2 := RangeUsed(s1, 0, 4096);
    forall i | 0 <= i < frames ensures Reserves(i, Region(0, 4096, false)) <==> i == 0 { ReservesZero(i); }
    ReserveRegionsMeans(s2, rs);
    assert frames > 0 && Used(s2, 0);
    var s := Init(storage, rs, maxPhys);
    forall f | 0 <= f < frames ensures Used(s, f) <==> Used(s2, f) || KeptBy(rs, f) {
      assert Used(ReserveRegions(s2, rs), f) <==> Used(s2, f) || KeptBy(rs, f);
    }
  }

  lemma {:induction false} ReservesZero(i: nat)
    ensures Reserves(i, Region(0, 4096, false)) <==> i == 0
  {
  }

  predicate AllPlain(rs: seq<Region>, frames: nat) { forall k :: 0 <= k < |rs| ==> Plain(rs[k], frames) }

  /**
   Exact meaning of the boot map of plain regions: a frame is free if and only if it is not frame
   0, lies wholly inside one usable region and meets no non-empty region of another type.
   */
  lemma {:induction false} InitMeans(storage: seq<byte>, rs: seq<Region>, maxPhys: u64)
    requires InitArgsOk(storage, rs, maxPhys) && AllPlain(rs, maxPhys / 4096)
    ensures var s := Init(storage, rs, maxPhys);
            && Inv(s)
            && Used(s, 0)
            && forall f :: 0 <= f < s.frames ==> (!Used(s, f) <==> f != 0 && CoveredBy(rs, f) && !HitBy(rs, f))
  {
    hide Inv, Used, Init, Frees, Reserves, Inside, Meets, Plain;
    InitFrees(storage, rs, maxPhys);
    forall k | 0 <= k < |rs|
      ensures forall f :: 0 <= f < maxPhys / 4096 ==>
        if rs[k].usable then Frees(f, rs[k]) <==> Inside(f, rs[k]) else Reserves(f, rs[k]) <==> Meets(f, rs[k])
    {
      PlainIff(rs[k], maxPhys / 4096);
    }
  }

  /** Where it fails: 256 usable bytes inside the last page of 2^64 free every frame but 0. */
  lemma {:induction false} TopPageFreesAll(storage: seq<byte>, maxPhys: u64, f: nat)
    requires InitArgsOk(storage, [Region(0xFFFF_FFFF_FFFF_F800, 0x100, true)], maxPhys) && 0 < f < maxPhys / 4096
    ensures var rs := [Region(0xFFFF_FFFF_FFFF_F800, 0x100, true)];
            !CoveredBy(rs, f) && !Used(Init(storage, rs, maxPhys), f)
  {
    hide Used, Init, Inv;
    var r := Region(0xFFFF_FFFF_FFFF_F800, 0x100, true);
    InitFrees(storage, [r], maxPhys);
    assert [r][0].usable && Frees(f, [r][0]);
    assert FreedBy([r], f) && !KeptBy([r], f);
  }

  predicate SameRegions(a: seq<Region>, b: seq<Region>) {
    && (forall k :: 0 <= k < |a| ==> a[k] in b)
    && (forall k :: 0 <= k < |b| ==> b[k] in a)
  }

  /** The boot bitmap does not depend on the order, or the repetition, of regions. */
  lemma {:induction false} OrderDoesNotMatter(storage: seq<byte>, a: seq<Region>, b: seq<Region>, maxPhys: u64)
    requires InitArgsOk(storage, a, maxPhys) && InitArgsOk(storage, b, maxPhys) && SameRegions(a, b)
    ensures var s, t := Init(storage, a, maxPhys), Init(storage, b, maxPhys);
            && (forall f :: 0 <= f < s.frames ==> (Used(s, f) <==> Used(t, f)))
            && s.bitmap == t.bitmap && s.freeCount == t.freeCount && s.usedCount == t.usedCount
  {
    hide BitOf, CountClear, Reserves, Frees, Init, KeptBy, FreedBy, Blank;
    var s, t := Init(storage, a, maxPhys), Init(storage, b, maxPhys);
    InitTail(storage, a, maxPhys);
    InitTail(storage, b, maxPhys);
    InitFrees(storage, a, maxPhys);
    InitFrees(storage, b, maxPhys);
    forall f | 0 <= f < s.frames ensures Used(s, f) <==> Used(t, f) { SameFreed(a, b, f); }
    forall i | 0 <= i < 8 * |s.bitmap| ensures BitOf(s.bitmap, i) <==> BitOf(t.bitmap, i) {
      if i < s.frames { assert Used(s, i) <==> Used(t, i); }
    }
    BitmapsEqual(s.bitmap, t.bitmap);
    SameCount(s, t);
  }

  // Bits past the last frame are never touched, so the whole bitmap is determined.

  predicate SameTail(s: State, t: State) {
    && Sized(s) && Sized(t) && s.frames == t.frames && |s.bitmap| == |t.bitmap|
    && forall i :: s.frames <= i < 8 * |s.bitmap| ==> (BitOf(s.bitmap, i) <==> BitOf(t.bitmap, i))
  }

  lemma {:induction false} MarkTail(s: State, f: nat)
    requires Sized(s)
    ensures SameTail(s, MarkFree(s, f)) && SameTail(s, MarkUsed(s, f))
  {
    hide BitOf, BitSet, BitClear;
    if f < s.frames {
      forall i | s.frames <= i < 8 * |s.bitmap|
        ensures (BitOf(BitSet(s.bitmap, f), i) <==> BitOf(s.bitmap, i))
                && (BitOf(BitClear(s.bitmap, f), i) <==> BitOf(s.bitmap, i))
      {
        BitSetAt(s.bitmap, f, i);
        BitClearAt(s.bitmap, f, i);
      }
    }
  }

  lemma {:induction false} FramesTail(s: State, lo: nat, hi: nat)
    requires Sized(s) && hi <= s.frames
    ensures SameTail(s, FreeFrames(s, lo, hi)) && SameTail(s, ReserveFrames(s, lo, hi))
    decreases hi
  {
    hide BitOf, MarkFree, MarkUsed;
    if lo < hi {
      FramesTail(s, lo, hi - 1);
      MarkTail(FreeFrames(s, lo, hi - 1), hi - 1);
      MarkTail(ReserveFrames(s, lo, hi - 1), hi - 1);
    }
  }

  lemma {:induction false} RangeTail(s: State, base: u64, length: u64)
    requires Sized(s)
    ensures SameTail(s, RangeFree(s, base, length)) && SameTail(s, RangeUsed(s, base, length))
  {
    hide BitOf, FreeFrames, ReserveFrames, FrameUp, FrameDown;
    if base + length < U64 {
      var a, b := FrameUp(base), FrameDown(base + length);
      if b > s.frames { FramesTail(s.(ignored := (s.ignored + (b - s.frames)) % U64), a, s.frames); }
      FramesTail(s, a, Min(b, s.frames));
      FramesTail(s, FrameDown(base), Min(FrameUp(base + length), s.frames));
    }
  }

  lemma {:induction false} RegionsTail(s: State, rs: seq<Region>)
    requires Sized(s)
    ensures SameTail(s, FreeRegions(s, rs)) && SameTail(s, ReserveRegions(s, rs))
  {
    hide BitOf, RangeFree, RangeUsed;
    if rs != [] {
      var init, x := rs[..|rs| - 1], rs[|rs| - 1];
      RegionsTail(s, init);
      RangeTail(FreeRegions(s, init), x.base, x.length);
      RangeTail(ReserveRegions(s, init), x.base, x.length);
    }
  }

  lemma {:induction false} InitTail(storage: seq<byte>, rs: seq<Region>, maxPhys: u64)
    requires InitArgsOk(storage, rs, maxPhys)
    ensures SameTail(Blank(storage, maxPhys / 4096), Init(storage, rs, maxPhys))
  {
    hide BitOf, RangeUsed, FreeRegions, ReserveRegions, Blank;
    var b := Blank(storage, maxPhys / 4096);
    RegionsTail(b, rs);
    RangeTail(FreeRegions(b, rs), 0, 4096);
    RegionsTail(RangeUsed(FreeRegions(b, rs), 0, 4096), rs);
  }

  lemma {:induction false} BitsDetermine(x: nat, y: nat, n: nat)
    requires x < Pow2(n) && y < Pow2(n) && forall k :: 0 <= k < n ==> (TestBit(x, k) <==> TestBit(y, k))
    ensures x == y
  {
    if n > 0 {
      assert TestBit(x, 0) <==> TestBit(y, 0);
      forall k | 0 <= k < n - 1
        ensures TestBit(x / 2, k) <==> TestBit(y / 2, k)
      {
        assert TestBit(x, k + 1) <==> TestBit(y, k + 1);
      }
      BitsDetermine(x / 2, y / 2, n - 1);
    }
  }

  lemma {:induction false} BitmapsEqual(a: seq<byte>, b: seq<byte>)
    requires |a| == |b| && forall i :: 0 <= i < 8 * |a| ==> (BitOf(a, i) <==> BitOf(b, i))
    ensures a == b
  {
    forall m | 0 <= m < |a| ensures a[m] == b[m] {
      forall k | 0 <= k < 8 ensures TestBit(a[m], k) <==> TestBit(b[m], k) {
        var i := 8 * m + k;
        assert i / 8 == m && i % 8 == k;
        assert BitOf(a, i) <==> BitOf(b, i);
      }
      assert Pow2(8) == 256;
      BitsDetermine(a[m], b[m], 8);
    }
  }

  lemma {:induction false} SameFreed(a: seq<Region>, b: seq<Region>, f: nat)
    requires SameRegions(a, b)
    ensures (FreedBy(a, f) <==> FreedBy(b, f)) && (KeptBy(a, f) <==> KeptBy(b, f))
  {
    hide Reserves, Frees;
    forall k | 0 <= k < |a| ensures exists j :: 0 <= j < |b| && b[j] == a[k] { assert a[k] in b; }
    forall k | 0 <= k < |b| ensures exists j :: 0 <= j < |a| && a[j] == b[k] { assert b[k] in a; }
  }

  lemma {:induction false} SameCount(s: State, t: State)
    requires Inv(s) && Inv(t) && s.frames == t.frames
    requires forall f :: 0 <= f < s.frames ==> (Used(s, f) <==> Used(t, f))
    ensures s.freeCount == t.freeCount && s.usedCount == t.usedCount
  {
    hide BitOf;
    forall f | 0 <= f < s.frames
      ensures BitOf(s.bitmap, f) <==> BitOf(t.bitmap, f)
    {
      assert Used(s, f) <==> Used(t, f);
    }
    CountSame(s.bitmap, t.bitmap, s.frames);
  }

  // ---------- runs ----------

  /** The lowest free frame, or the frame count when there is none. */
  function Lowest(s: State): nat
    requires Sized(s)
  {
    FirstClear(s.bitmap, 0, s.frames)
  }

  lemma {:induction false} FirstClearSkips(bm: seq<byte>, lo: nat, mid: nat, hi: nat)
    requires lo <= mid <= hi && (hi + 7) / 8 <= |bm| && forall k :: lo <= k < mid ==> BitOf(bm, k)
    ensures FirstClear(bm, lo, hi) == FirstClear(bm, mid, hi)
    decreases mid - lo
  {
    hide BitOf;
    if lo < mid { FirstClearSkips(bm, lo + 1, mid, hi); }
  }

  /**
   The hinted search is the lowest-free search: allocation returns the lowest free frame,
   fails only when none is free, and its wrap-around loop never finds anything.
   */
  lemma {:induction false} AllocIsLowest(s: State)
    requires Inv(s) && s.ready
    ensures var a := Alloc(s);
            && a.addr == (if Lowest(s) < s.frames then 4096 * Lowest(s) else INVALID_FRAME)
            && (a.addr == INVALID_FRAME ==> a.s == s && forall f :: 0 <= f < s.frames ==> Used(s, f))
    ensures FirstClear(s.bitmap, 0, s.hint) == s.hint
    ensures s.freeCount > 0 ==> FirstClear(s.bitmap, s.hint, s.frames) < s.frames
  {
    hide BitOf;
    FirstClearSkips(s.bitmap, 0, s.hint, s.frames);
    FirstClearSkips(s.bitmap, 0, s.hint, s.hint);
    CountZeroIffFull(s.bitmap, s.frames);
  }

  /** Allocation marks exactly the frame it returns. */
  lemma {:induction false} AllocKeeps(s: State)
    requires Inv(s) && s.ready
    ensures var a := Alloc(s);
            && Inv(a.s) && a.s.ready && a.s.frames == s.frames
            && (forall f :: 0 <= f < s.frames ==> (Used(a.s, f) <==> Used(s, f) || a.addr == 4096 * f))
            && (a.addr != INVALID_FRAME ==> a.addr % 4096 == 0 && a.addr / 4096 < s.frames && !Used(s, a.addr / 4096))
  {
    hide BitOf, MarkUsed, CountClear;
    AllocIsLowest(s);
    MarkUsedKeeps(s, Lowest(s));
    if Lowest(s) < s.frames {
      LowestBounds(s);
      HintMoves(s, Lowest(s));
    }
  }

  lemma {:induction false} LowestBounds(s: State)
    requires Inv(s)
    ensures forall f :: 0 <= f < Lowest(s) ==> Used(s, f)
    ensures Lowest(s) < s.frames ==> !Used(s, Lowest(s)) && s.hint <= Lowest(s)
  {
    hide BitOf, CountClear;
  }

  lemma {:induction false} HintMoves(s: State, f: nat)
    requires Inv(s) && f < s.frames && forall i :: 0 <= i < f ==> Used(s, i)
    ensures Inv(MarkUsed(s, f).(hint := f + 1))
  {
    hide BitOf, MarkUsed, CountClear;
    MarkUsedKeeps(s, f);
    var t := MarkUsed(s, f);
    forall i | 0 <= i < f + 1 ensures BitOf(t.bitmap, i) { assert Used(t, i); }
  }

  datatype Op = AllocOp | FreeOp(addr: u64) | ReserveOp(base: u64, length: u64)

  function Perform(s: State, op: Op): State
    requires Sized(s) && s.hint <= s.frames
  {
    match op
    case AllocOp => Alloc(s).s
    case FreeOp(addr) => Free(s, addr)
    case ReserveOp(base, length) => Reserve(s, base, length)
  }

  /** A running allocator: the invariant holds and frame 0 is used. */
  predicate Running(s: State) { Sized(s) && Inv(s) && s.ready && s.frames > 0 && Used(s, 0) }

  lemma {:induction false} ReserveAnyKeeps(s: State, base: u64, length: u64)
    requires Inv(s)
    ensures Inv(RangeUsed(s, base, length))
    ensures forall i :: 0 <= i < s.frames && Used(s, i) ==> Used(RangeUsed(s, base, length), i)
  {
    hide BitOf, ReserveFrames, CountClear, FrameDown, FrameUp;
    if length != 0 && base + length < U64 {
      var start, stop := FrameDown(base), FrameUp(base + length);
      if stop > start && start < s.frames {
        ReserveFramesKeeps(s, start, Min(stop, s.frames));
      }
    }
  }

  lemma {:induction false} PerformKeeps(s: State, op: Op)
    requires Running(s)
    ensures Running(Perform(s, op)) && Perform(s, op).frames == s.frames
    ensures op.AllocOp? ==> Alloc(s).addr != 0
  {
    hide BitOf, CountClear, Alloc, MarkFree, RangeUsed, Inv;
    assert Sized(s) && s.hint <= s.frames by { InvBounds(s); }
    match op
    case AllocOp =>
      AllocKeeps(s);
      InvSized(Alloc(s).s);
    case FreeOp(addr) =>
      MarkFreeKeeps(s, addr / 4096);
      InvBounds(MarkFree(s, addr / 4096));
    case ReserveOp(base, length) =>
      ReserveAnyKeeps(s, base, length);
  }

  lemma {:induction false} InvBounds(s: State)
    requires Inv(s)
    ensures Sized(s) && s.hint <= s.frames
  {
  }

  ghost predicate Reaches(s: State, ops: seq<Op>, t: State)
    decreases |ops|
  {
    if ops == [] then s == t
    else Sized(s) && s.hint <= s.frames && Reaches(Perform(s, ops[0]), ops[1..], t)
  }

  /**
   On every run after boot: free + used = frame_count with free the number of clear bits,
   no free frame lies below the hint, and frame 0 is never handed out.
   */
  lemma {:induction false} RunKeeps(s: State, ops: seq<Op>, t: State)
    requires Running(s) && Reaches(s, ops, t)
    ensures Running(t) && t.frames == s.frames && Alloc(t).addr != 0
    decreases |ops|
  {
    hide Inv, Perform, Alloc, Used;
    InvBounds(s);
    if ops == [] {
      PerformKeeps(s, AllocOp);
    } else {
      PerformKeeps(s, ops[0]);
      RunKeeps(Perform(s, ops[0]), ops[1..], t);
    }
  }

  /** After boot the allocator is running. */
  lemma {:induction false} InitRuns(storage: seq<byte>, rs: seq<Region>, maxPhys: u64)
    requires InitArgsOk(storage, rs, maxPhys)
    ensures Running(Init(storage, rs, maxPhys))
  {
    hide Inv, Used;
    InitFrees(storage, rs, maxPhys);
  }

  /** A frame given back is free again and, being the lowest free one, may be the next handed out. */
  lemma {:induction false} FreeThenAlloc(s: State, addr: u64)
    requires Running(s) && addr % 4096 == 0 && 0 < addr / 4096 < s.frames && Used(s, addr / 4096)
    ensures !Used(Free(s, addr), addr / 4096)
    ensures forall f :: 0 <= f < s.frames && f != addr / 4096 ==> (Used(Free(s, addr), f) <==> Used(s, f))
    ensures Alloc(Free(s, addr)).addr <= addr
  {
    hide BitOf, CountClear, Alloc, MarkFree;
    MarkFreeKeeps(s, addr / 4096);
    var t := Free(s, addr);
    AllocIsLowest(t);
    LowestBounds(t);
  }
}
