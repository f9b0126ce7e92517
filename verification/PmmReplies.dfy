/**
 The frame allocator's answers and counters: what free accepts, that it undoes alloc, what a
 reservation takes, and what initialisation demands.
 */
module PmmReplies {
  import opened Words
  import opened Bytes
  import opened Pmm
  import opened PmmProps

  /**
   pmm_free_frame accepts exactly the addresses of used frames other than frame 0. Then that frame
   is free, every other is as before and the counters move by one; otherwise nothing changes.
   */
  lemma {:induction false} FreeSays(s: State, addr: u64)
    requires Running(s)
    ensures FreeAccepted(s, addr) <==>
            addr % 4096 == 0 && 0 < addr / 4096 < s.frames && Used(s, addr / 4096)
    ensures var t := Free(s, addr);
            if FreeAccepted(s, addr) then
              && Running(t) && !Used(t, addr / 4096)
              && (forall f :: 0 <= f < s.frames && f != addr / 4096 ==> (Used(t, f) <==> Used(s, f)))
              && t.freeCount == s.freeCount + 1 && t.usedCount == s.usedCount - 1
            else t == s
  {
    hide BitOf, CountClear;
    MarkFreeKeeps(s, addr / 4096);
    PerformKeeps(s, FreeOp(addr));
  }

  /** The same, frame by frame. */
  lemma {:induction false} FreeIffUsed(s: State, f: nat, addr: u64)
    requires Running(s) && 0 < f < s.frames && addr == 4096 * f
    ensures FreeAccepted(s, addr) <==> Used(s, f)
  {
    hide Running, BitOf, Inv;
    RunningSized(s);
    FreeSays(s, addr);
  }

  lemma {:induction false} RunningSized(s: State)
    requires Running(s)
    ensures Inv(s) && Sized(s) && s.hint <= s.frames && s.ready
  {
  }

  /** Freeing what alloc returned gives back the bitmap and the counters; freeing it again is refused. */
  lemma {:induction false} FreeUndoesAlloc(s: State)
    requires Running(s) && s.frames <= MAX_FRAMES && Alloc(s).addr != INVALID_FRAME
    ensures var a := Alloc(s);
            && 0 < a.addr < U64 && Sized(a.s) && FreeAccepted(a.s, a.addr)
            && var t := Free(a.s, a.addr);
               && t.bitmap == s.bitmap && t.freeCount == s.freeCount && t.usedCount == s.usedCount
               && !FreeAccepted(t, a.addr) && Free(t, a.addr) == t
  {
    hide BitOf, CountClear, Alloc, Free, FreeAccepted, Inv;
    RunningSized(s);
    AllocKeeps(s);
    PerformKeeps(s, AllocOp);
    var a := Alloc(s);
    RunningSized(a.s);
    FreeSays(a.s, a.addr);
    var t := Free(a.s, a.addr);
    FreeSays(t, a.addr);
    RunningSized(t);
    assert forall f :: 0 <= f < s.frames ==> (Used(t, f) <==> Used(s, f));
    SameCount(s, t);
    AllocTail(s);
    FreeTail(a.s, a.addr);
    forall i | 0 <= i < 8 * |s.bitmap| ensures BitOf(s.bitmap, i) <==> BitOf(t.bitmap, i) {
      if i < s.frames { assert Used(s, i) <==> Used(t, i); }
    }
    BitmapsEqual(s.bitmap, t.bitmap);
  }

  lemma {:induction false} AllocTail(s: State)
    requires Sized(s) && s.hint <= s.frames
    ensures SameTail(s, Alloc(s).s)
  {
    hide BitOf, MarkUsed, FirstClear;
    MarkTail(s, FirstClear(s.bitmap, s.hint, s.frames));
    MarkTail(s, FirstClear(s.bitmap, 0, s.hint));
  }

  lemma {:induction false} FreeTail(s: State, addr: u64)
    requires Sized(s)
    ensures SameTail(s, Free(s, addr))
  {
    hide BitOf, MarkFree;
    MarkTail(s, addr / 4096);
  }

  // ---------- reservations ----------

  /** Newly reserved frames are counted, once each. */
  lemma {:induction false} ReserveFramesCount(s: State, lo: nat, hi: nat)
    requires Inv(s) && hi <= s.frames
    ensures var t := ReserveFrames(s, lo, hi);
            && t.freeCount <= s.freeCount && t.ignored == s.ignored
            && t.reserved == (s.reserved + (s.freeCount - t.freeCount)) % U64
    decreases hi
  {
    hide BitOf, CountClear, Inv, ReserveFrame;
    InvSized(s);
    if lo < hi {
      ReserveFramesCount(s, lo, hi - 1);
      ReserveFramesKeeps(s, lo, hi - 1);
      ReserveFrameCount(ReserveFrames(s, lo, hi - 1), hi - 1, s.reserved, s.freeCount);
    }
  }

  lemma {:induction false} ReserveFrameCount(t: State, f: nat, reserved: nat, free: nat)
    requires Inv(t) && f < t.frames && t.freeCount <= free && t.reserved == (reserved + (free - t.freeCount)) % U64
    ensures var u := ReserveFrame(t, f);
            && u.freeCount <= t.freeCount && u.ignored == t.ignored
            && u.reserved == (reserved + (free - u.freeCount)) % U64
  {
    hide BitOf, BitSet;
    CountZeroIffFull(t.bitmap, t.frames);
    WrapAdd(reserved, free - t.freeCount);
  }

  lemma {:induction false} WrapAdd(a: nat, b: nat)
    ensures ((a + b) % U64 + 1) % U64 == (a + b + 1) % U64
  {
  }

  /**
   pmm_reserve_range on a running allocator: the frames the range meets become used and no other
   changes, and reserved_frames rises by the number of frames that were free.
   */
  lemma {:induction false} ReserveSays(s: State, base: u64, length: u64)
    requires Running(s)
    ensures var t := Reserve(s, base, length);
            && Running(t) && t.ignored == s.ignored && t.freeCount <= s.freeCount
            && t.reserved == (s.reserved + (s.freeCount - t.freeCount)) % U64
            && forall f :: 0 <= f < s.frames ==>
                 (Used(t, f) <==> Used(s, f) || Reserves(f, Region(base, length, false)))
  {
    hide BitOf, CountClear, RangeUsed, Reserves;
    PerformKeeps(s, ReserveOp(base, length));
    RangeUsedMeans(s, Region(base, length, false));
    RangeUsedCount(s, base, length);
    if length == 0 {
      forall f ensures !Reserves(f, Region(base, length, false)) { NothingReserved(f, base); }
    }
  }

  lemma {:induction false} NothingReserved(f: nat, base: u64)
    ensures !Reserves(f, Region(base, 0, false))
  {
  }

  // ---------- the counters of a boot ----------

  /** The whole frames of a region beyond the last frame, counted if it starts below that. */
  function Beyond(r: Region, frames: nat): nat {
    if r.usable && r.length > 0 && r.base + r.length < 0x1_0000_0000_0000_0000
       && (r.base + 4095) % 0x1_0000_0000_0000_0000 / 4096 < frames < (r.base + r.length) / 4096
    then (r.base + r.length) / 4096 - frames else 0
  }

  function AllBeyond(rs: seq<Region>, frames: nat): nat {
    if rs == [] then 0 else AllBeyond(rs[..|rs| - 1], frames) + Beyond(rs[|rs| - 1], frames)
  }

  lemma {:induction false} IgnoredSays(s: State, r: Region)
    requires Sized(s) && r.usable
    ensures var t := RangeFree(s, r.base, r.length);
            t.reserved == s.reserved && t.ignored == (s.ignored + Beyond(r, s.frames)) % 0x1_0000_0000_0000_0000
  {
    hide BitOf, FreeFrames;
    if r.length > 0 && r.base + r.length < U64 {
      var start, stop := FrameUp(r.base), FrameDown(r.base + r.length);
      FreeFramesCounters(s, start, Min(stop, s.frames));
      if stop > s.frames {
        FreeFramesCounters(s.(ignored := (s.ignored + (stop - s.frames)) % U64), start, s.frames);
      }
    }
  }

  lemma {:induction false} FreeFramesCounters(s: State, lo: nat, hi: nat)
    requires Sized(s)
    ensures FreeFrames(s, lo, hi).ignored == s.ignored && FreeFrames(s, lo, hi).reserved == s.reserved
    decreases hi
  {
    hide BitOf;
    if lo < hi { FreeFramesCounters(s, lo, hi - 1); }
  }

  lemma {:induction false} FreeRegionsCounters(s: State, rs: seq<Region>)
    requires Sized(s)
    ensures var t := FreeRegions(s, rs);
            t.reserved == s.reserved && t.ignored == (s.ignored + AllBeyond(rs, s.frames)) % U64
  {
    hide RangeFree, Beyond;
    if rs != [] {
      var init, x := rs[..|rs| - 1], rs[|rs| - 1];
      FreeRegionsCounters(s, init);
      if x.usable { IgnoredSays(FreeRegions(s, init), x); } else { NotUsable(x, s.frames); }
      WrapSum(s.ignored, AllBeyond(init, s.frames), Beyond(x, s.frames));
    }
  }

  lemma {:induction false} NotUsable(r: Region, frames: nat)
    requires !r.usable
    ensures Beyond(r, frames) == 0
  {
  }

  lemma {:induction false} WrapSum(a: nat, b: nat, c: nat)
    ensures ((a + b) % U64 + c) % U64 == (a + b + c) % U64
  {
  }

  lemma {:induction false} RangeUsedCount(s: State, base: u64, length: u64)
    requires Inv(s)
    ensures var t := RangeUsed(s, base, length);
            && Inv(t) && t.freeCount <= s.freeCount && t.ignored == s.ignored
            && t.reserved == (s.reserved + (s.freeCount - t.freeCount)) % U64
  {
    hide BitOf, CountClear, ReserveFrames, FrameDown, FrameUp;
    RangeUsedMeans(s, Region(base, length, false));
    if length > 0 && base + length < U64 {
      ReserveFramesCount(s, FrameDown(base), Min(FrameUp(base + length), s.frames));
    }
  }

  lemma {:induction false} ReserveRegionsCounters(s: State, rs: seq<Region>)
    requires Inv(s)
    ensures var t := ReserveRegions(s, rs);
            && Inv(t) && t.freeCount <= s.freeCount && t.ignored == s.ignored
            && t.reserved == (s.reserved + (s.freeCount - t.freeCount)) % U64
  {
    hide RangeUsed, Inv;
    InvSized(s);
    if rs != [] {
      var init, x := rs[..|rs| - 1], rs[|rs| - 1];
      ReserveRegionsCounters(s, init);
      var t := ReserveRegions(s, init);
      if !x.usable {
        RangeUsedCount(t, x.base, x.length);
        var u := RangeUsed(t, x.base, x.length);
        WrapSum(s.reserved, s.freeCount - t.freeCount, t.freeCount - u.freeCount);
      }
    }
  }

  /**
   After boot reserved_frames is the number of frames taken back from what the usable regions had
   freed, and ignored_frames the number of whole frames of usable regions beyond the last frame.
   */
  lemma {:induction false} InitCounters(storage: seq<byte>, rs: seq<Region>, maxPhys: u64)
    requires InitArgsOk(storage, rs, maxPhys)
    ensures var s, freed := Init(storage, rs, maxPhys), FreeRegions(Blank(storage, maxPhys / 4096), rs);
            && s.freeCount <= freed.freeCount == CountClear(freed.bitmap, freed.frames)
            && s.reserved == (freed.freeCount - s.freeCount) % U64 && s.ignored == AllBeyond(rs, s.frames) % U64
  {
    hide RangeUsed, FreeRegions, ReserveRegions, AllBeyond, BitOf, CountClear;
    var b := Blank(storage, maxPhys / 4096);
    BlankFull(storage, maxPhys / 4096);
    FreeRegionsMeans(b, rs);
    FreeRegionsCounters(b, rs);
    var freed := FreeRegions(b, rs);
    RangeUsedCount(freed, 0, 4096);
    var s2 := RangeUsed(freed, 0, 4096);
    ReserveRegionsCounters(s2, rs);
    var t := ReserveRegions(s2, rs);
    WrapSum(0, freed.freeCount - s2.freeCount, s2.freeCount - t.freeCount);
  }

  // ---------- the rest ----------

  /** Allocation: the lowest free frame, with the hint just past it; all ones exactly if none is free. */
  lemma {:induction false} AllocSays(s: State)
    requires Running(s) && s.frames <= MAX_FRAMES
    ensures var a := Alloc(s);
            if forall f :: 0 <= f < s.frames ==> Used(s, f) then a == Allocated(s, 0xFFFF_FFFF_FFFF_FFFF)
            else
              && a.addr % 4096 == 0 && a.addr / 4096 < s.frames && !Used(s, a.addr / 4096)
              && (forall f :: 0 <= f < a.addr / 4096 ==> Used(s, f)) && a.s.hint == a.addr / 4096 + 1
  {
    hide BitOf, MarkUsed, CountClear;
    AllocIsLowest(s);
    LowestBounds(s);
  }

  /** An allocator that was not initialised hands out nothing, takes nothing back and reserves nothing. */
  lemma {:induction false} NotReady(s: State, addr: u64, length: u64)
    requires Sized(s) && s.hint <= s.frames && !s.ready
    ensures Alloc(s) == Allocated(s, 0xFFFF_FFFF_FFFF_FFFF)
    ensures !FreeAccepted(s, addr) && Free(s, addr) == s && Reserve(s, addr, length) == s
  {
  }

  /** Initialisation needs a region, at least one whole frame, and one bit of storage per frame. */
  lemma {:induction false} InitAccepts(storage: seq<byte>, rs: seq<Region>, maxPhys: u64)
    ensures InitArgsOk(storage, rs, maxPhys) <==>
            |rs| > 0 && exists frames :: 0 < frames <= 8 * |storage| && maxPhys == 4096 * frames
  {
    if InitArgsOk(storage, rs, maxPhys) {
      var frames := maxPhys / 4096;
      assert 0 < frames <= 8 * |storage| && maxPhys == 4096 * frames;
    }
  }
}
