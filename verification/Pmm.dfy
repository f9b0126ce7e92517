/**
 The physical frame allocator (src/pmm.c): one bit per 4 KiB frame, counters and a
 search hint. A set bit means used.
 */
module Pmm {
  import opened Words
  import opened Bytes

  const INVALID_FRAME: nat := 0xFFFF_FFFF_FFFF_FFFF

  datatype State = State(
    bitmap: seq<byte>, frames: nat, freeCount: nat, usedCount: nat,
    reserved: u64, ignored: u64, hint: nat, ready: bool)

  /** A boot memory region; usable stands for type BOOT_MEM_USABLE. */
  datatype Region = Region(base: u64, length: u64, usable: bool)

  predicate Sized(s: State) { (s.frames + 7) / 8 <= |s.bitmap| }

  predicate Used(s: State, f: nat)
    requires Sized(s) && f < s.frames
  {
    BitOf(s.bitmap, f)
  }

  // ---------- marking ----------

  function MarkFree(s: State, f: nat): (r: State)
    requires Sized(s)
    ensures Sized(r) && r.frames == s.frames && r.ready == s.ready
  {
    if f >= s.frames || !BitOf(s.bitmap, f) then s
    else s.(bitmap := BitClear(s.bitmap, f), freeCount := s.freeCount + 1,
            usedCount := if s.usedCount > 0 then s.usedCount - 1 else 0,
            hint := if f < s.hint then f else s.hint)
  }

  function MarkUsed(s: State, f: nat): (r: State)
    requires Sized(s)
    ensures Sized(r) && r.frames == s.frames && r.ready == s.ready && r.hint == s.hint
  {
    if f >= s.frames || BitOf(s.bitmap, f) then s
    else s.(bitmap := BitSet(s.bitmap, f),
            freeCount := if s.freeCount > 0 then s.freeCount - 1 else 0,
            usedCount := s.usedCount + 1)
  }

  /** Frames lo..hi-1 in increasing order. */
  function FreeFrames(s: State, lo: nat, hi: nat): (r: State)
    requires Sized(s)
    ensures Sized(r) && r.frames == s.frames && r.ready == s.ready
    decreases hi
  {
    if hi <= lo then s else MarkFree(FreeFrames(s, lo, hi - 1), hi - 1)
  }

  function ReserveFrame(s: State, f: nat): (r: State)
    requires Sized(s) && f < s.frames
    ensures Sized(r) && r.frames == s.frames && r.ready == s.ready && r.hint == s.hint
  {
    var was := !BitOf(s.bitmap, f);
    var r := MarkUsed(s, f);
    if was then r.(reserved := (r.reserved + 1) % U64) else r
  }

  function ReserveFrames(s: State, lo: nat, hi: nat): (r: State)
    requires Sized(s) && hi <= s.frames
    ensures Sized(r) && r.frames == s.frames && r.ready == s.ready && r.hint == s.hint
    decreases hi
  {
    if hi <= lo then s else ReserveFrame(ReserveFrames(s, lo, hi - 1), hi - 1)
  }

  /** align_up on 64-bit values, in frames: the addition wraps. */
  function FrameUp(x: u64): nat { (x + 4095) % U64 / 4096 }

  function FrameDown(x: u64): nat { x / 4096 }

  function Min(a: nat, b: nat): nat { if a < b then a else b }

  function RangeFree(s: State, base: u64, length: u64): (r: State)
    requires Sized(s)
    ensures Sized(r) && r.frames == s.frames && r.ready == s.ready
  {
    if length == 0 || base + length >= U64 then s
    else
      var start, stop := FrameUp(base), FrameDown(base + length);
      if stop <= start || start >= s.frames then s
      else
        var s1 := if stop > s.frames then s.(ignored := (s.ignored + (stop - s.frames)) % U64) else s;
        FreeFrames(s1, start, Min(stop, s.frames))
  }

  function RangeUsed(s: State, base: u64, length: u64): (r: State)
    requires Sized(s)
    ensures Sized(r) && r.frames == s.frames && r.ready == s.ready && r.hint == s.hint
  {
    if length == 0 || base + length >= U64 then s
    else
      var start, stop := FrameDown(base), FrameUp(base + length);
      if stop <= start || start >= s.frames then s
      else ReserveFrames(s, start, Min(stop, s.frames))
  }

  // ---------- operations ----------

  function AllOnes(storage: seq<byte>, n: nat): (r: seq<byte>)
    requires n <= |storage|
    ensures |r| == |storage|
  {
    seq(n, i => 255) + storage[n..]
  }

  function Blank(storage: seq<byte>, frames: nat): (s: State)
    requires (frames + 7) / 8 <= |storage|
    ensures Sized(s) && s.frames == frames
  {
    State(AllOnes(storage, (frames + 7) / 8), frames, 0, frames, 0, 0, 0, false)
  }

  function FreeRegions(s: State, rs: seq<Region>): (r: State)
    requires Sized(s)
    ensures Sized(r) && r.frames == s.frames && r.ready == s.ready
  {
    if rs == [] then s
    else
      var t, x := FreeRegions(s, rs[..|rs| - 1]), rs[|rs| - 1];
      if x.usable then RangeFree(t, x.base, x.length) else t
  }

  function ReserveRegions(s: State, rs: seq<Region>): (r: State)
    requires Sized(s)
    ensures Sized(r) && r.frames == s.frames && r.ready == s.ready && r.hint == s.hint
  {
    if rs == [] then s
    else
      var t, x := ReserveRegions(s, rs[..|rs| - 1]), rs[|rs| - 1];
      if x.usable then t else RangeUsed(t, x.base, x.length)
  }

  predicate InitArgsOk(storage: seq<byte>, rs: seq<Region>, maxPhys: u64) {
    rs != [] && maxPhys != 0 && maxPhys % 4096 == 0 && (maxPhys / 4096 + 7) / 8 <= |storage|
  }

  /** pmm_init_from_map when it succeeds. */
  function Init(storage: seq<byte>, rs: seq<Region>, maxPhys: u64): (s: State)
    requires InitArgsOk(storage, rs, maxPhys)
    ensures Sized(s) && s.frames == maxPhys / 4096 && s.ready
  {
    var s := RangeUsed(FreeRegions(Blank(storage, maxPhys / 4096), rs), 0, 4096);
    ReserveRegions(s, rs).(ready := true)
  }

  datatype Allocated = Allocated(s: State, addr: nat)

  function Take(s: State, f: nat): Allocated
    requires Sized(s)
  {
    Allocated(MarkUsed(s, f).(hint := f + 1), f * 4096)
  }

  /** pmm_alloc_frame: from the hint up, then from 0 up to the hint. */
  function Alloc(s: State): Allocated
    requires Sized(s) && s.hint <= s.frames
  {
    if !s.ready || s.freeCount == 0 then Allocated(s, INVALID_FRAME)
    else
      var f := FirstClear(s.bitmap, s.hint, s.frames);
      if f < s.frames then Take(s, f)
      else
        var g := FirstClear(s.bitmap, 0, s.hint);
        if g < s.hint then Take(s, g) else Allocated(s, INVALID_FRAME)
  }

  predicate FreeAccepted(s: State, addr: u64)
    requires Sized(s)
  {
    s.ready && addr % 4096 == 0 && addr != 0 && addr < s.frames * 4096 && BitOf(s.bitmap, addr / 4096)
  }

  /** pmm_free_frame */
  function Free(s: State, addr: u64): (r: State)
    requires Sized(s)
    ensures Sized(r) && r.frames == s.frames
  {
    if FreeAccepted(s, addr) then MarkFree(s, addr / 4096) else s
  }

  /** pmm_reserve_range */
  function Reserve(s: State, base: u64, length: u64): (r: State)
    requires Sized(s)
    ensures Sized(r) && r.frames == s.frames
  {
    if !s.ready || length == 0 then s else RangeUsed(s, base, length)
  }
}
