/**
 The RAM disk (kernel/block/ramblk.c) behind the block layer (kernel/block/block.c): an array
 of bytes that behaves as an array of blocks. Calls may be made to fail, as a driver's can.
 */
module RamBlk {
  import opened Words
  import opened Bytes
  import opened Bcache


  /** value != 0 && (value & (value - 1)) == 0 */
  predicate PowerOfTwo(v: nat) {
    v == 1 || (v > 0 && v % 2 == 0 && PowerOfTwo(v / 2))
  }

  lemma {:induction false} PowerOfTwoIs(v: nat)
    ensures PowerOfTwo(v) <==> exists k: nat :: v == Pow2(k)
  {
    hide PowerOfTwo, Pow2;
    if PowerOfTwo(v) { var k := PowerHas(v); }
    forall k: nat | v == Pow2(k) ensures PowerOfTwo(v) { PowerIsOne(k); }
  }

  lemma {:induction false} PowerHas(v: nat) returns (k: nat)
    requires PowerOfTwo(v)
    ensures v == Pow2(k)
    decreases v
  {
    k := 0;
    if v > 1 {
      k := PowerHas(v / 2);
      k := k + 1;
    }
  }

  lemma {:induction false} PowerIsOne(k: nat)
    ensures PowerOfTwo(Pow2(k))
  {
    if k > 0 { PowerIsOne(k - 1); }
  }

  // ---------- bytes as blocks ----------

  /** The byte offset of block i. */
  function Off(i: nat, bs: nat): nat { i * bs }

  lemma {:induction false} OffNext(i: nat, n: nat, bs: nat)
    ensures i < n ==> Off(i, bs) + bs <= Off(n, bs)
    ensures Off(i + n, bs) == Off(i, bs) + Off(n, bs) && Off(1, bs) == bs
  {
    Distributes(i, n, bs);
    if i < n {
      Distributes(i, n - i, bs);
      Distributes(n - i - 1, 1, bs);
    }
  }

  lemma {:induction false} Distributes(a: nat, b: nat, m: nat)
    ensures (a + b) * m == a * m + b * m && 1 * m == m && a * m >= 0
  {
  }

  function BlockAt(s: seq<byte>, bs: nat, n: nat, i: nat): (b: seq<byte>)
    requires |s| == Off(n, bs) && i < n
    ensures |b| == bs
  {
    OffNext(i, n, bs);
    s[Off(i, bs)..Off(i, bs) + bs]
  }

  /** The n blocks that make up s. */
  function BlocksOf(s: seq<byte>, bs: nat, n: nat): (r: seq<seq<byte>>)
    requires |s| == Off(n, bs)
    ensures |r| == n && forall i :: 0 <= i < n ==> |r[i]| == bs
  {
    hide Off, BlockAt;
    seq(n, i requires 0 <= i < n => BlockAt(s, bs, n, i))
  }

  /** Overwriting `count` blocks' worth of bytes at block `lba` changes those blocks and no other. */
  lemma {:induction false} SpliceBlocks(s: seq<byte>, bs: nat, n: nat, lba: nat, count: nat, x: seq<byte>)
    requires |s| == Off(n, bs) && |x| == Off(count, bs) && lba + count <= n
    ensures Off(lba, bs) + |x| <= |s|
    ensures forall i :: 0 <= i < n ==>
              BlocksOf(Splice(s, Off(lba, bs), x), bs, n)[i] ==
                if lba <= i < lba + count then BlocksOf(x, bs, count)[i - lba] else BlocksOf(s, bs, n)[i]
  {
    hide Splice, Off, BlockAt;
    OffNext(lba, count, bs);
    OffNext(lba + count, n, bs);
    forall i | 0 <= i < n
      ensures BlocksOf(Splice(s, Off(lba, bs), x), bs, n)[i] ==
              if lba <= i < lba + count then BlocksOf(x, bs, count)[i - lba] else BlocksOf(s, bs, n)[i]
    {
      SpliceBlockAt(s, bs, n, lba, count, x, i);
    }
  }

  lemma {:induction false} SpliceBlockAt(s: seq<byte>, bs: nat, n: nat, lba: nat, count: nat, x: seq<byte>, i: nat)
    requires |s| == Off(n, bs) && |x| == Off(count, bs) && lba + count <= n && i < n && Off(lba, bs) + |x| <= |s|
    ensures BlockAt(Splice(s, Off(lba, bs), x), bs, n, i) ==
            if lba <= i < lba + count then BlockAt(x, bs, count, i - lba) else BlockAt(s, bs, n, i)
  {
    hide Splice, Off;
    OffNext(i, n, bs);
    OffNext(lba, count, bs);
    if lba <= i < lba + count {
      OffNext(lba, i - lba, bs);
      OffNext(i - lba, count, bs);
      OneBlock(s, bs, Off(lba, bs), x, Off(i, bs), Off(i - lba, bs), true);
    } else {
      OffNext(i, lba, bs);
      OffNext(lba + count, i, bs);
      OneBlock(s, bs, Off(lba, bs), x, Off(i, bs), 0, false);
    }
  }

  lemma {:induction false} OneBlock(s: seq<byte>, bs: nat, o: nat, x: seq<byte>, p: nat, q: nat, inside: bool)
    requires o + |x| <= |s| && p + bs <= |s|
    requires if inside then p == o + q && q + bs <= |x| else p + bs <= o || o + |x| <= p
    ensures Splice(s, o, x)[p..p + bs] == if inside then x[q..q + bs] else s[p..p + bs]
  {
    if inside { SpliceInside(s, o, x, q, bs); } else { SpliceOther(s, o, x, p, bs); }
  }

  lemma {:induction false} SpliceInside(s: seq<byte>, o: nat, x: seq<byte>, q: nat, n: nat)
    requires o + |x| <= |s| && q + n <= |x|
    ensures Splice(s, o, x)[o + q..o + q + n] == x[q..q + n]
  {
    assert Splice(s, o, x)[o + q..o + q + n] == x[q..q + n];
  }

  /** One block: the array of blocks is updated at that index. */
  lemma {:induction false} SpliceOne(s: seq<byte>, bs: nat, n: nat, lba: nat, x: seq<byte>)
    requires |s| == Off(n, bs) && |x| == bs && lba < n
    ensures Off(lba, bs) + bs <= |s|
    ensures BlocksOf(Splice(s, Off(lba, bs), x), bs, n) == BlocksOf(s, bs, n)[lba := x]
    ensures BlocksOf(s, bs, n)[lba] == s[Off(lba, bs)..Off(lba, bs) + bs]
  {
    hide Off, Splice;
    OffNext(lba, n, bs);
    SpliceBlocks(s, bs, n, lba, 1, x);
    assert BlocksOf(x, bs, 1)[0] == x by { ZeroOff(bs); }
  }

  lemma {:induction false} ZeroOff(bs: nat)
    ensures Off(0, bs) == 0
  {
  }

  class RamDisk {
    const storage: array<byte>
    const blockSize: nat
    const blockCount: nat
    var faults: seq<Fault>

    ghost predicate Valid() {
      blockSize > 0 && storage.Length == Off(blockCount, blockSize) && storage.Length < U64
    }

    ghost function Model(): (d: Dev)
      requires Valid()
      reads this, storage
      ensures DevOk(d) && d.blockSize == blockSize
    {
      hide BlocksOf, Off;
      Dev(blockSize, BlocksOf(storage[..], blockSize, blockCount), faults)
    }

    constructor (storage: array<byte>, blockSize: nat, faults: seq<Fault>)
      requires blockSize > 0 && storage.Length % blockSize == 0 && storage.Length < U64
      ensures Valid() && this.storage == storage && this.blockSize == blockSize && this.faults == faults
    {
      this.storage := storage;
      this.blockSize := blockSize;
      this.blockCount := storage.Length / blockSize;
      this.faults := faults;
      new;
      Whole(storage.Length, blockSize);
    }

    /** mcsos_ramblk_rw: copy `count` blocks in or out; the offset is a 64-bit product. */
    method Rw(lba: nat, count: nat, buffer: seq<byte>, isWrite: bool) returns (st: Status, out: seq<byte>)
      requires Valid() && count * blockSize < U64 && (isWrite ==> |buffer| == count * blockSize)
      modifies storage
      ensures st == if lba * blockSize % U64 + count * blockSize <= storage.Length then Ok else Range
      ensures storage[..] ==
              if st == Ok && isWrite then Splice(old(storage[..]), lba * blockSize % U64, buffer) else old(storage[..])
      ensures st == Ok && !isWrite ==> out == storage[lba * blockSize % U64..lba * blockSize % U64 + count * blockSize]
    {
      out := [];
      var offset, n := lba * blockSize % U64, count * blockSize;
      if offset > storage.Length || n > storage.Length - offset { return Range, out; }
      if isWrite { CopyIn(offset, buffer); } else { out := CopyOut(offset, n); }
      return Ok, out;
    }

    /** mcsos_memcpy_u8 into the storage */
    method CopyIn(offset: nat, buffer: seq<byte>)
      requires offset + |buffer| <= storage.Length
      modifies storage
      ensures storage[..] == Splice(old(storage[..]), offset, buffer)
    {
      var i := 0;
      while i < |buffer|
        invariant 0 <= i <= |buffer|
        invariant forall k :: 0 <= k < storage.Length ==>
                  storage[k] == if offset <= k < offset + i then buffer[k - offset] else old(storage[k])
      {
        storage[offset + i] := buffer[i];
        i := i + 1;
      }
    }

    /** mcsos_memcpy_u8 out of the storage */
    method CopyOut(offset: nat, n: nat) returns (out: seq<byte>)
      requires offset + n <= storage.Length
      ensures out == storage[offset..offset + n]
    {
      out := [];
      var i := 0;
      while i < n
        invariant 0 <= i <= n && out == storage[offset..offset + i]
      {
        out := out + [storage[offset + i]];
        i := i + 1;
      }
    }

    /** What the driver does with the call now being made. */
    method TakeFault() returns (f: Fault)
      requires Valid()
      modifies this`faults
      ensures f == NextFault(old(Model())) && Model() == Advance(old(Model()))
    {
      hide BlocksOf;
      f := if faults == [] then Works else faults[0];
      faults := if faults == [] then [] else faults[1..];
    }

    /** mcsos_blk_read: a range check, then the driver. */
    method BlkRead(lba: nat, count: nat) returns (st: Status, data: seq<byte>)
      requires Valid()
      modifies this`faults, storage
      ensures storage[..] == old(storage[..])
      ensures var v := ValidateRange(blockCount, lba, count);
              if v != Ok then st == v && faults == old(faults)
              else st == (if NextFault(old(Model())).Fails? then Io else Ok) && faults == Advance(old(Model())).faults
      ensures st == Ok ==> Off(lba, blockSize) + Off(count, blockSize) <= storage.Length
      ensures data == if st == Ok then storage[Off(lba, blockSize)..Off(lba, blockSize) + Off(count, blockSize)] else []
    {
      hide BlocksOf, Off;
      data := [];
      var v := ValidateRange(blockCount, lba, count);
      if v != Ok { return v, data; }
      var f := TakeFault();
      if f.Fails? { return Io, data; }
      InSize(lba, count);
      st, data := Rw(lba, count, [], false);
    }

    /** mcsos_blk_write: a range check, then the driver, which may fail and leave its own bytes there. */
    method BlkWrite(lba: nat, count: nat, data: seq<byte>) returns (st: Status)
      requires Valid() && |data| == Off(count, blockSize)
      modifies this`faults, storage
      ensures var v := ValidateRange(blockCount, lba, count);
              if v != Ok then st == v && faults == old(faults) && storage[..] == old(storage[..])
              else
                var f := NextFault(old(Model()));
                && st == (if f.Fails? then Io else Ok) && faults == Advance(old(Model())).faults
                && Off(lba, blockSize) + Off(count, blockSize) <= storage.Length
                && storage[..] ==
                   match f
                   case Works => Splice(old(storage[..]), Off(lba, blockSize), data)
                   case Fails(junk) =>
                     if |junk| == |data| then Splice(old(storage[..]), Off(lba, blockSize), junk) else old(storage[..])
    {
      hide BlocksOf, Off;
      var v := ValidateRange(blockCount, lba, count);
      if v != Ok { return v; }
      var f := TakeFault();
      InSize(lba, count);
      var out;
      match f
      case Works => st, out := Rw(lba, count, data, true);
      case Fails(junk) =>
        if |junk| == |data| { st, out := Rw(lba, count, junk, true); }
        st := Io;
    }

    /** mcsos_blk_read of one block */
    method ReadOne(lba: nat) returns (st: Status, data: seq<byte>)
      requires Valid()
      modifies this`faults, storage
      ensures (Model(), st, data) == ReadBlock(old(Model()), lba)
    {
      hide BlocksOf, Off;
      OffNext(0, 0, blockSize);
      ghost var s := storage[..];
      if lba < blockCount { SpliceOne(s, blockSize, blockCount, lba, Zeros(blockSize)); }
      st, data := BlkRead(lba, 1);
    }

    /** mcsos_blk_write of one block */
    method WriteOne(lba: nat, data: seq<byte>) returns (st: Status)
      requires Valid() && |data| == blockSize
      modifies this`faults, storage
      ensures (Model(), st) == WriteBlock(old(Model()), lba, data)
    {
      hide BlocksOf, Off;
      OffNext(0, 0, blockSize);
      ghost var s, f := storage[..], NextFault(Model());
      if lba < blockCount {
        SpliceOne(s, blockSize, blockCount, lba, data);
        if f.Fails? && |f.junk| == blockSize { SpliceOne(s, blockSize, blockCount, lba, f.junk); }
      }
      st := BlkWrite(lba, 1, data);
    }

    /** A range that passes the check lies inside the storage, so its offset does not wrap. */
    lemma {:induction false} InSize(lba: nat, count: nat)
      requires Valid() && lba + count <= blockCount
      ensures Off(lba, blockSize) + Off(count, blockSize) <= storage.Length
      ensures lba * blockSize % U64 == Off(lba, blockSize) && count * blockSize == Off(count, blockSize)
    {
      OffNext(lba, count, blockSize);
      OffNext(lba + count, blockCount, blockSize);
    }
  }

  lemma {:induction false} Whole(n: nat, bs: nat)
    requires bs > 0 && n % bs == 0
    ensures n == n / bs * bs
  {
  }

  /** mcsos_ramblk_init: a block size that is a power of two from 512 up, and a whole number of blocks. */
  method InitRamDisk(storage: array<byte>, blockSize: nat, faults: seq<Fault>) returns (st: Status, disk: RamDisk?)
    requires storage.Length < U64
    ensures st == if blockSize < 512 || !PowerOfTwo(blockSize) then Inval
                  else if storage.Length < blockSize || storage.Length % blockSize != 0 then Inval
                  else Ok
    ensures st == Ok ==>
              && disk != null && fresh(disk) && disk.Valid() && disk.blockCount > 0 && DevOk(disk.Model())
              && disk.storage == storage && disk.blockSize == blockSize && disk.faults == faults
  {
    if blockSize < 512 || !PowerOfTwo(blockSize) { return Inval, null; }
    if storage.Length < blockSize || storage.Length % blockSize != 0 { return Inval, null; }
    disk := new RamDisk(storage, blockSize, faults);
    assert disk.blockCount != 0;
    return Ok, disk;
  }
}
