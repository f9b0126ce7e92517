/**
 The imperative form of src/pmm.c: bitmap bytes, counters and hint changed in place.
 Each method equals its specification function.
 */
module PmmDevice {
  import opened Words
  import opened Bytes
  import opened Pmm

  class FrameAllocator {
    var bitmap: array<byte>
    var frames: nat
    var freeCount: nat
    var usedCount: nat
    var reserved: u64
    var ignored: u64
    var hint: nat
    var ready: bool

    ghost function Model(): State
      reads this, bitmap
    {
      State(bitmap[..], frames, freeCount, usedCount, reserved, ignored, hint, ready)
    }

    /** pmm_zero_state */
    constructor ()
      ensures Model() == State([], 0, 0, 0, 0, 0, 0, false) && fresh(bitmap)
    {
      bitmap := new byte[0];
      frames, freeCount, usedCount, reserved, ignored, hint, ready := 0, 0, 0, 0, 0, 0, false;
    }

    method MarkFrameFree(f: nat)
      requires Sized(Model())
      modifies this, bitmap
      ensures bitmap == old(bitmap) && Model() == MarkFree(old(Model()), f)
    {
      if f >= frames { return; }
      assert bitmap[f / 8] == Model().bitmap[f / 8];
      if TestBit(bitmap[f / 8], f % 8) {
        bitmap[f / 8] := ByteAndNot(bitmap[f / 8], f % 8);
        freeCount := freeCount + 1;
        if usedCount > 0 { usedCount := usedCount - 1; }
        if f < hint { hint := f; }
        assert bitmap[..] == BitClear(old(bitmap[..]), f);
      }
    }

    method MarkFrameUsed(f: nat)
      requires Sized(Model())
      modifies this, bitmap
      ensures bitmap == old(bitmap) && Model() == MarkUsed(old(Model()), f)
    {
      if f >= frames { return; }
      assert bitmap[f / 8] == Model().bitmap[f / 8];
      if !TestBit(bitmap[f / 8], f % 8) {
        bitmap[f / 8] := ByteOr(bitmap[f / 8], f % 8);
        if freeCount > 0 { freeCount := freeCount - 1; }
        usedCount := usedCount + 1;
        assert bitmap[..] == BitSet(old(bitmap[..]), f);
      }
    }

    method MarkRangeFree(base: u64, length: u64)
      requires Sized(Model())
      modifies this, bitmap
      ensures bitmap == old(bitmap) && Model() == RangeFree(old(Model()), base, length)
    {
      hide MarkFree, FreeFrames, FrameUp, FrameDown;
      if length == 0 || base + length >= U64 { return; }
      var start := FrameUp(base) * 4096;
      var stop := FrameDown(base + length) * 4096;
      PageMath(FrameUp(base), frames);
      PageMath(FrameDown(base + length), frames);
      if stop <= start { return; }
      if start >= frames * 4096 { return; }
      if stop > frames * 4096 {
        ignored := (ignored + (stop - frames * 4096) / 4096) % U64;
        stop := frames * 4096;
      }
      FreeFrom(start, stop);
    }

    method MarkRangeUsed(base: u64, length: u64)
      requires Sized(Model())
      modifies this, bitmap
      ensures bitmap == old(bitmap) && Model() == RangeUsed(old(Model()), base, length)
    {
      hide MarkUsed, BitOf, ReserveFrames, FrameUp, FrameDown;
      if length == 0 || base + length >= U64 { return; }
      var start := FrameDown(base) * 4096;
      var stop := FrameUp(base + length) * 4096;
      PageMath(FrameDown(base), frames);
      PageMath(FrameUp(base + length), frames);
      if stop <= start { return; }
      if start >= frames * 4096 { return; }
      if stop > frames * 4096 { stop := frames * 4096; }
      UseFrom(start, stop);
    }

    /** The loop of mark_range_free over page addresses. */
    method FreeFrom(start: nat, stop: nat)
      requires Sized(Model()) && start % 4096 == 0 && stop % 4096 == 0 && start <= stop
      modifies this, bitmap
      ensures bitmap == old(bitmap) && Model() == FreeFrames(old(Model()), start / 4096, stop / 4096)
    {
      hide MarkFree;
      var addr := start;
      while addr < stop
        invariant addr % 4096 == 0 && start <= addr <= stop && bitmap == old(bitmap)
        invariant Sized(Model()) && Model() == FreeFrames(old(Model()), start / 4096, addr / 4096)
      {
        MarkFrameFree(addr / 4096);
        addr := addr + 4096;
      }
    }

    /** The loop of mark_range_used over page addresses. */
    method UseFrom(start: nat, stop: nat)
      requires Sized(Model()) && start % 4096 == 0 && stop % 4096 == 0 && start <= stop && stop / 4096 <= frames
      modifies this, bitmap
      ensures bitmap == old(bitmap) && Model() == ReserveFrames(old(Model()), start / 4096, stop / 4096)
    {
      hide ReserveFrame;
      var addr := start;
      while addr < stop
        invariant addr % 4096 == 0 && start <= addr <= stop && bitmap == old(bitmap) && frames == old(frames)
        invariant Sized(Model()) && Model() == ReserveFrames(old(Model()), start / 4096, addr / 4096)
      {
        UseFrame(addr / 4096);
        addr := addr + 4096;
      }
    }

    /** One turn of it: a frame that was free also counts as reserved. */
    method UseFrame(f: nat)
      requires Sized(Model()) && f < frames
      modifies this, bitmap
      ensures bitmap == old(bitmap) && Model() == ReserveFrame(old(Model()), f)
    {
      hide MarkUsed, BitOf;
      var wasFree := IsClear(f);
      MarkFrameUsed(f);
      if wasFree { reserved := (reserved + 1) % U64; }
    }

    method IsClear(f: nat) returns (r: bool)
      requires Sized(Model()) && f < frames
      ensures r <==> !BitOf(Model().bitmap, f)
    {
      r := !TestBit(bitmap[f / 8], f % 8);
    }

    /** pmm_init_from_map: on bad arguments nothing changes. */
    method InitFromMap(rs: seq<Region>, storage: array<byte>, maxPhys: u64) returns (ok: bool)
      modifies this, storage
      ensures ok <==> InitArgsOk(old(storage[..]), rs, maxPhys)
      ensures if ok then bitmap == storage && Model() == Init(old(storage[..]), rs, maxPhys)
              else storage[..] == old(storage[..]) && bitmap == old(bitmap) && Model() == old(Model())
    {
      hide RangeUsed, FreeRegions, ReserveRegions;
      if |rs| == 0 { return false; }
      if maxPhys == 0 || maxPhys % 4096 != 0 { return false; }
      var n := maxPhys / 4096;
      var bytes := (n + 7) / 8;
      if storage.Length < bytes { return false; }
      bitmap := storage;
      frames, freeCount, usedCount, reserved, ignored, hint, ready := n, 0, n, 0, 0, 0, false;
      FillOnes(storage, bytes);
      ghost var b := Blank(old(storage[..]), n);
      assert Model() == b;
      FreeUsable(rs);
      MarkRangeUsed(0, 4096);
      ReserveOthers(rs);
      ready := true;
      return true;
    }

    /** The first pass over the regions: usable ones are freed. */
    method FreeUsable(rs: seq<Region>)
      requires Sized(Model())
      modifies this, bitmap
      ensures bitmap == old(bitmap) && Model() == FreeRegions(old(Model()), rs)
    {
      hide RangeFree;
      var i := 0;
      while i < |rs|
        invariant 0 <= i <= |rs| && bitmap == old(bitmap) && Model() == FreeRegions(old(Model()), rs[..i])
      {
        assert rs[..i + 1][..i] == rs[..i];
        if rs[i].usable { MarkRangeFree(rs[i].base, rs[i].length); }
        i := i + 1;
      }
      assert rs[..i] == rs;
    }

    /** The second pass: all other regions are reserved, over whatever the first one freed. */
    method ReserveOthers(rs: seq<Region>)
      requires Sized(Model())
      modifies this, bitmap
      ensures bitmap == old(bitmap) && Model() == ReserveRegions(old(Model()), rs)
    {
      hide RangeUsed;
      var i := 0;
      while i < |rs|
        invariant 0 <= i <= |rs| && bitmap == old(bitmap) && Model() == ReserveRegions(old(Model()), rs[..i])
      {
        assert rs[..i + 1][..i] == rs[..i];
        if !rs[i].usable { MarkRangeUsed(rs[i].base, rs[i].length); }
        i := i + 1;
      }
      assert rs[..i] == rs;
    }

    /** pmm_alloc_frame */
    method AllocFrame() returns (addr: nat)
      requires Sized(Model()) && hint <= frames
      modifies this, bitmap
      ensures bitmap == old(bitmap) && Allocated(Model(), addr) == Alloc(old(Model()))
    {
      hide BitOf, MarkUsed;
      if !ready || freeCount == 0 { return INVALID_FRAME; }
      var f := hint;
      while f < frames
        invariant hint <= f <= frames && Model() == old(Model()) && bitmap == old(bitmap)
        invariant FirstClear(Model().bitmap, hint, frames) == FirstClear(Model().bitmap, f, frames)
      {
        var clear := IsClear(f);
        if clear {
          MarkFrameUsed(f);
          hint := f + 1;
          return f * 4096;
        }
        f := f + 1;
      }
      f := 0;
      while f < hint
        invariant 0 <= f <= hint && Model() == old(Model()) && bitmap == old(bitmap)
        invariant FirstClear(Model().bitmap, 0, hint) == FirstClear(Model().bitmap, f, hint)
      {
        var clear := IsClear(f);
        if clear {
          MarkFrameUsed(f);
          hint := f + 1;
          return f * 4096;
        }
        f := f + 1;
      }
      return INVALID_FRAME;
    }

    /** pmm_free_frame */
    method FreeFrame(addr: u64) returns (ok: bool)
      requires Sized(Model())
      modifies this, bitmap
      ensures bitmap == old(bitmap) && Model() == Free(old(Model()), addr)
      ensures ok <==> FreeAccepted(old(Model()), addr)
    {
      if !ready { return false; }
      if addr % 4096 != 0 || addr == 0 || addr >= frames * 4096 { return false; }
      var clear := IsClear(addr / 4096);
      if clear { return false; }
      MarkFrameFree(addr / 4096);
      return true;
    }

    /** pmm_reserve_range */
    method ReserveRange(base: u64, length: u64) returns (ok: bool)
      requires Sized(Model())
      modifies this, bitmap
      ensures bitmap == old(bitmap) && Model() == Reserve(old(Model()), base, length)
      ensures ok <==> old(ready) && length != 0
    {
      if !ready || length == 0 { return false; }
      MarkRangeUsed(base, length);
      return true;
    }

    /** pmm_is_frame_free */
    method IsFrameFree(addr: u64) returns (r: bool)
      requires Sized(Model())
      ensures r <==> ready && addr % 4096 == 0 && addr < frames * 4096 && !Used(Model(), addr / 4096)
    {
      if !ready { return false; }
      if addr % 4096 != 0 || addr >= frames * 4096 { return false; }
      r := IsClear(addr / 4096);
    }
  }

  /** Page addresses compare, and subtract, as their frame numbers do. */
  lemma {:induction false} PageMath(f: nat, n: nat)
    ensures f * 4096 % 4096 == 0 && f * 4096 / 4096 == f && n * 4096 % 4096 == 0 && n * 4096 / 4096 == n
    ensures f >= n ==> (f * 4096 - n * 4096) / 4096 == f - n
  {
  }

  /** The loop that marks every frame used. */
  method FillOnes(storage: array<byte>, n: nat)
    requires n <= storage.Length
    modifies storage
    ensures storage[..] == AllOnes(old(storage[..]), n)
  {
    var i := 0;
    while i < n
      invariant 0 <= i <= n
      invariant forall k :: 0 <= k < i ==> storage[k] == 255
      invariant forall k :: i <= k < storage.Length ==> storage[k] == old(storage[k])
    {
      storage[i] := 255;
      i := i + 1;
    }
  }
}
