/**
 The imperative form of fs/mcsfs1/mcsfs1.c: block buffers read, changed and written back
 through a device, with the loops over bits, entries and direct blocks.
 */
module McsDevice {
  import opened Bytes
  import opened Mcsfs1
  import opened McsInv
  import opened McsOps
  import opened McsRuns

  // ---------- helpers that loop over one buffer ----------

  /** mcsfs_strlen_bound */
  method BoundedLength(w: seq<byte>) returns (n: nat)
    ensures n == StrLen(w, 0)
  {
    n := 0;
    while n < |w| && w[n] != 0
      invariant n <= |w| && StrLen(w, 0) == StrLen(w, n)
    {
      n := n + 1;
    }
  }

  /** mcsfs_memcmp on the first |y| bytes */
  method SameBytes(x: seq<byte>, y: seq<byte>) returns (same: bool)
    requires |y| <= |x|
    ensures same <==> x[..|y|] == y
  {
    var i := 0;
    while i < |y|
      invariant 0 <= i <= |y| && x[..i] == y[..i]
    {
      if x[i] != y[i] {
        assert x[..|y|][i] != y[i];
        return false;
      }
      i := i + 1;
    }
    return true;
  }

  /** find_dirent: the slot of a name, or 16 */
  method FindDirent(dir: Block, name: seq<byte>) returns (r: nat)
    ensures r == FindSlot(dir, name, 0)
  {
    hide Field;
    r := 0;
    while r < DIRENTS
      invariant 0 <= r <= DIRENTS && FindSlot(dir, name, 0) == FindSlot(dir, name, r)
    {
      if SlotIno(dir, r) != 0 {
        var w := NameWindow(dir, r);
        var n := BoundedLength(w);
        if n == |name| {
          var same := SameBytes(w, name);
          if same { return; }
        }
      }
      r := r + 1;
    }
  }

  method FindFreeDirent(dir: Block) returns (r: nat)
    ensures r == FreeSlot(dir, 0)
  {
    hide Field;
    r := 0;
    while r < DIRENTS
      invariant 0 <= r <= DIRENTS && FreeSlot(dir, 0) == FreeSlot(dir, r)
    {
      if SlotIno(dir, r) == 0 { return; }
      r := r + 1;
    }
  }

  /** The search loops of alloc_inode_block and alloc_data_block. */
  method FindClearBit(bm: Block, lo: nat, hi: nat) returns (r: nat)
    requires lo <= hi <= 4096
    ensures r == FirstClear(bm, lo, hi)
  {
    hide BitOf;
    r := lo;
    while r < hi
      invariant lo <= r <= hi && FirstClear(bm, lo, hi) == FirstClear(bm, r, hi)
    {
      if !BitOf(bm, r) { return; }
      r := r + 1;
    }
  }

  // ---------- the device and its operations ----------

  class Volume {
    const blocks: array<Block>

    ghost predicate Valid() { 16 <= blocks.Length <= 4096 }

    ghost function Disk(): Disk
      requires Valid()
      reads blocks
    {
      blocks[..]
    }

    constructor (n: nat)
      ensures blocks.Length == n && fresh(blocks)
    {
      blocks := new Block[n](i => ZeroBlock());
    }

    /** mcsfs1_format: refused on a device that is too small or too large. */
    method Format() returns (rc: Rc)
      modifies blocks
      ensures rc == if Valid() then Ok else Inval
      ensures rc == Ok ==> Disk() == FormatDisk(blocks.Length) && Good(Disk()) && Files(Disk()) == map[]
      ensures rc != Ok ==> blocks[..] == old(blocks[..])
    {
      hide SetMembers, NewInode, BitSet, Splice, Good, FsOk, Files, LowBits;
      if blocks.Length < 16 || blocks.Length > 4096 { return Inval; }
      var lba := 0;
      while lba < blocks.Length
        invariant 0 <= lba <= blocks.Length && forall i :: 0 <= i < lba ==> blocks[i] == ZeroBlock()
      {
        blocks[lba] := ZeroBlock();
        lba := lba + 1;
      }
      var z := seq<Block>(blocks.Length, i => ZeroBlock());
      assert blocks[..] == z;
      blocks[0] := SetMembers(ZeroBlock(), SuperMembers(blocks.Length));
      ghost var d1 := Disk();
      assert d1 == z[0 := SetMembers(ZeroBlock(), SuperMembers(blocks.Length))];
      var bb := ZeroBlock();
      LowBitsSteps();
      var b := 0;
      while b < DATA_START
        invariant 0 <= b <= DATA_START && bb == LowBits(b) && Disk() == d1
      {
        bb := BitSet(bb, b);
        b := b + 1;
      }
      StoreBmaps(BitSet(BitSet(ZeroBlock(), 0), ROOT_INO), BitSet(bb, ROOT_DIR));
      PutInode(ROOT_INO, NewInode(MODE_DIR, 512, ROOT_DIR));
      ghost var d3 := Disk();
      blocks[ROOT_DIR] := ZeroBlock();
      assert Disk() == d3[ROOT_DIR := ZeroBlock()];
      assert Disk() == FormatDisk(blocks.Length);
      FormatRefines(blocks.Length);
      return Ok;
    }

    /** store_bmaps */
    method StoreBmaps(ib: Block, bb: Block)
      requires Valid()
      modifies blocks
      ensures Disk() == StoreBitmaps(old(Disk()), ib, bb)
    {
      blocks[INODE_BMAP] := ib;
      blocks[BLOCK_BMAP] := bb;
      assert blocks[..] == old(blocks[..])[INODE_BMAP := ib][BLOCK_BMAP := bb];
    }

    /** write_inode: read the table block, patch it, write it back. */
    method PutInode(ino: nat, b: Inode)
      requires Valid() && 1 <= ino <= MAX_INODES
      modifies blocks
      ensures Disk() == WriteInode(old(Disk()), ino, b)
    {
      hide Splice;
      var lba, off := INODE_TABLE + (ino - 1) / 8, (ino - 1) % 8 * 60;
      var block := blocks[lba];
      block := Splice(block, off, b);
      blocks[lba] := block;
      assert blocks[..] == old(blocks[..])[lba := block];
    }

    /** mcsfs1_mount */
    method Mount() returns (rc: Rc)
      requires Valid()
      ensures rc == Mcsfs1.Mount(Disk())
    {
      hide Field;
      var sb := blocks[0];
      if Field(sb, 0, 4) != MAGIC || Field(sb, 4, 4) != 1 || Field(sb, 8, 4) != 512 { return Corrupt; }
      if Field(sb, 12, 4) != blocks.Length || Field(sb, 16, 4) != MAX_INODES { return Corrupt; }
      if Field(sb, 20, 4) != INODE_BMAP || Field(sb, 24, 4) != BLOCK_BMAP || Field(sb, 28, 4) != INODE_TABLE {
        return Corrupt;
      }
      if Field(sb, 36, 4) != ROOT_INO || Field(sb, 40, 4) != ROOT_DIR || Field(sb, 44, 4) != DATA_START {
        return Corrupt;
      }
      var root: Inode := GetInode(ROOT_INO);
      if Mode(root) != MODE_DIR || Direct(root, 0) != ROOT_DIR { return Corrupt; }
      return Ok;
    }

    /** read_inode */
    method GetInode(ino: nat) returns (b: Inode)
      requires Valid() && 1 <= ino <= MAX_INODES
      ensures b == ReadInode(Disk(), ino)
    {
      var lba, off := INODE_TABLE + (ino - 1) / 8, (ino - 1) % 8 * 60;
      b := blocks[lba][off..off + 60];
    }

    /** mcsfs1_create */
    method Create(name: seq<byte>) returns (rc: Rc)
      requires Valid()
      modifies blocks
      ensures Result(Disk(), rc) == Mcsfs1.Create(old(Disk()), name)
    {
      hide FindSlot, FreeSlot, FirstClear, NewInode, BitSet, SetSlot, Splice;
      if |name| == 0 || |name| > MAX_NAME { return NameTooLong; }
      var dir := blocks[ROOT_DIR];
      var found := FindDirent(dir, name);
      if found < DIRENTS { return Exist; }
      var slot := FindFreeDirent(dir);
      if slot == DIRENTS { return NoSpc; }
      var ib, bb := blocks[INODE_BMAP], blocks[BLOCK_BMAP];
      var ino := FindClearBit(ib, 2, 33);
      if ino == 33 { return NoSpc; }
      var blk := FindClearBit(bb, DATA_START, blocks.Length);
      if blk == blocks.Length { return NoSpc; }
      StoreBmaps(BitSet(ib, ino), BitSet(bb, blk));
      PutInode(ino, NewInode(MODE_FILE, 0, blk));
      ghost var d2 := Disk();
      blocks[ROOT_DIR] := SetSlot(dir, slot, ino, name);
      assert Disk() == d2[ROOT_DIR := SetSlot(dir, slot, ino, name)];
      assert Disk() == Install(old(Disk()), slot, ino, blk, name);
      return Ok;
    }

    /** The allocation loop of mcsfs1_write, with alloc_data_block in it. */
    method GrowInode(start: Inode, need: nat) returns (b: Inode, ok: bool)
      requires Valid() && need <= DIRECT
      modifies blocks
      ensures var g := Grow(old(Disk()), start, 0, need); Disk() == g.disk && ok == g.ok && (ok ==> b == g.inode)
    {
      hide FirstClear, BitSet, Direct, SetDirect;
      b := start;
      var i := 0;
      while i < need
        invariant 0 <= i <= need
        invariant Grow(old(Disk()), start, 0, need) == Grow(Disk(), b, i, need)
      {
        if Direct(b, i) == 0 {
          var ib, bb := blocks[INODE_BMAP], blocks[BLOCK_BMAP];
          var blk := FindClearBit(bb, DATA_START, blocks.Length);
          if blk == blocks.Length { return b, false; }
          StoreBmaps(ib, BitSet(bb, blk));
          b := SetDirect(b, i, blk);
        }
        i := i + 1;
      }
      return b, true;
    }

    /** The copy loop of mcsfs1_write, which stops at a block beyond the device. */
    method FillBlocks(b: Inode, buf: seq<byte>) returns (rc: Rc)
      requires Valid() && |buf| <= 4096
      modifies blocks
      ensures Need(|buf|) <= DIRECT
      ensures var k := OffDevice(b, blocks.Length, 0, Need(|buf|));
              Disk() == Fill(old(Disk()), b, buf, k) && rc == if k < Need(|buf|) then Range else Ok
    {
      hide Direct, Padded, Chunk;
      var need := Need(|buf|);
      NeedBounds(|buf|);
      var i, written := 0, 0;
      while i < need
        invariant 0 <= i <= need && written == (if 512 * i < |buf| then 512 * i else |buf|)
        invariant Disk() == Fill(old(Disk()), b, buf, i)
        invariant OffDevice(b, blocks.Length, 0, need) == OffDevice(b, blocks.Length, i, need)
      {
        var remain := |buf| - written;
        var chunk := if remain > 512 then 512 else remain;
        ghost var d := Disk();
        var block := Padded(buf[written..written + chunk], 512);
        assert block == Chunk(buf, i) by { ChunkIs(buf, i); }
        if Direct(b, i) >= blocks.Length { return Range; }
        blocks[Direct(b, i)] := block;
        assert Disk() == d[Direct(b, i) := block];
        written := written + chunk;
        i := i + 1;
      }
      return Ok;
    }

    /** mcsfs1_write */
    method Write(name: seq<byte>, buf: seq<byte>) returns (rc: Rc)
      requires Valid()
      modifies blocks
      ensures Result(Disk(), rc) == Mcsfs1.Write(old(Disk()), name, buf)
    {
      hide FindSlot, Grow, Fill, Need, Field, SetSize, OffDevice, Direct;
      if |buf| > 4096 { return Range; }
      if |name| == 0 || |name| > MAX_NAME { return NameTooLong; }
      var slot := FindDirent(blocks[ROOT_DIR], name);
      if slot == DIRENTS { return NoEnt; }
      var ino := SlotIno(blocks[ROOT_DIR], slot);
      if ino > MAX_INODES { return Inval; }
      var inode := GetInode(ino);
      if Mode(inode) != MODE_FILE { return IsDir; }
      var need := Need(|buf|);
      NeedBounds(|buf|);
      var ok;
      inode, ok := GrowInode(inode, need);
      if !ok { return NoSpc; }
      rc := FillBlocks(inode, buf);
      if rc != Ok { return; }
      PutInode(ino, SetSize(inode, |buf|));
      return Ok;
    }

    /** mcsfs1_read: what was copied into the caller's buffer, and the length reported. */
    method Read(name: seq<byte>, cap: nat) returns (rc: Rc, out: seq<byte>, len: nat)
      requires Valid()
      ensures (if rc != Ok then ReadErr(rc) else if len == |out| then ReadOk(out) else ReadShort(out, len))
              == Mcsfs1.Read(Disk(), name, cap)
    {
      hide FindSlot, Field, ReadInode, Unreadable, Mode, Size, Direct;
      out, len := [], 0;
      if |name| == 0 || |name| > MAX_NAME { return NameTooLong, out, len; }
      var slot := FindDirent(blocks[ROOT_DIR], name);
      if slot == DIRENTS { return NoEnt, out, len; }
      var ino := SlotIno(blocks[ROOT_DIR], slot);
      if ino > MAX_INODES { return Inval, out, len; }
      var inode := GetInode(ino);
      if Mode(inode) != MODE_FILE { return IsDir, out, len; }
      if cap < Size(inode) { return Range, out, len; }
      rc, out := CopyOut(inode);
      if rc == Ok { len := Size(inode); }
    }

    /** The copy loop of mcsfs1_read. */
    method CopyOut(b: Inode) returns (rc: Rc, out: seq<byte>)
      requires Valid()
      ensures var k := Visited(Size(b));
              var i := Unreadable(b, |Disk()|, 0, k);
              && rc == (if i == k then Ok else if Direct(b, i) == 0 then Corrupt else Range)
              && (rc == Ok ==> out == Cut(Gather(Disk(), b, k), Size(b)))
    {
      hide Size, Direct, Gather, Cut, Visited, Unreadable;
      var k := Visited(Size(b));
      VisitedMeans(Size(b));
      out := [];
      var remain, i := Size(b), 0;
      GatherNone(Disk(), b, Size(b));
      while i < DIRECT && remain > 0
        invariant 0 <= i <= k && remain == (if 512 * i < Size(b) then Size(b) - 512 * i else 0)
        invariant |Gather(Disk(), b, i)| == 512 * i && out == Cut(Gather(Disk(), b, i), Size(b))
        invariant Unreadable(b, |Disk()|, 0, k) == Unreadable(b, |Disk()|, i, k)
      {
        UnreadableNext(b, blocks.Length, i, k);
        if Direct(b, i) == 0 { return Corrupt, out; }
        if Direct(b, i) >= blocks.Length { return Range, out; }
        var block := blocks[Direct(b, i)];
        var chunk := if remain > 512 then 512 else remain;
        GatherNext(Disk(), b, i);
        CutNext(Gather(Disk(), b, i), block, Size(b));
        out := out + block[..chunk];
        remain := remain - chunk;
        i := i + 1;
      }
      UnreadableNext(b, blocks.Length, i, k);
      return Ok, out;
    }

    /** mcsfs1_unlink */
    method Unlink(name: seq<byte>) returns (rc: Rc)
      requires Valid()
      modifies blocks
      ensures Result(Disk(), rc) == Mcsfs1.Unlink(old(Disk()), name)
    {
      hide FindSlot, Field, BitClear, ClearBits, ClearSlot, Direct, ReadInode;
      if |name| == 0 || |name| > MAX_NAME { return NameTooLong; }
      var dir := blocks[ROOT_DIR];
      var slot := FindDirent(dir, name);
      if slot == DIRENTS { return NoEnt; }
      var ino := SlotIno(dir, slot);
      if ino > MAX_INODES { return Inval; }
      var inode := GetInode(ino);
      ghost var d0 := Disk();
      blocks[ROOT_DIR] := ClearSlot(dir, slot);
      assert Disk() == d0[ROOT_DIR := ClearSlot(dir, slot)];
      FreeInodeAndBlocks(ino, inode);
      assert Disk() == Remove(d0, slot, ino);
      return Ok;
    }

    /** free_inode_and_blocks */
    method FreeInodeAndBlocks(ino: nat, b: Inode)
      requires Valid() && 1 <= ino <= MAX_INODES
      modifies blocks
      ensures Disk() == StoreBitmaps(old(Disk()), BitClear(old(Disk())[INODE_BMAP], ino),
                                     ClearBits(old(Disk())[BLOCK_BMAP], b, blocks.Length, DIRECT))
    {
      hide BitClear, Direct;
      var ib, bb := blocks[INODE_BMAP], blocks[BLOCK_BMAP];
      ib := BitClear(ib, ino);
      var i := 0;
      while i < DIRECT
        invariant 0 <= i <= DIRECT && Disk() == old(Disk())
        invariant bb == ClearBits(old(Disk())[BLOCK_BMAP], b, blocks.Length, i)
      {
        if Direct(b, i) != 0 && Direct(b, i) < blocks.Length { bb := BitClear(bb, Direct(b, i)); }
        i := i + 1;
      }
      StoreBmaps(ib, bb);
    }

    /** mcsfs1_fsck */
    method Fsck() returns (rc: Rc)
      requires Valid()
      ensures rc == Mcsfs1.Fsck(Disk())
    {
      hide Field, BitOf, SuperOk, ReadInode, Mode, Size, Direct;
      rc := Mount();
      if rc != Ok { return; }
      var root := GetInode(ROOT_INO);
      if Size(root) > 4096 { return Corrupt; }
      if Field(blocks[0], 48, 4) != 1 { return Corrupt; }
      var ib, bb := blocks[INODE_BMAP], blocks[BLOCK_BMAP];
      var b := 0;
      while b < DATA_START
        invariant 0 <= b <= DATA_START && forall k :: 0 <= k < b ==> BitOf(bb, k)
      {
        if !BitOf(bb, b) { return Corrupt; }
        b := b + 1;
      }
      var dir := blocks[ROOT_DIR];
      var i := 0;
      while i < DIRENTS
        invariant 0 <= i <= DIRENTS
        invariant forall j :: 0 <= j < i ==>
                  SlotIno(dir, j) == 0 || (SlotIno(dir, j) <= MAX_INODES && BitOf(ib, SlotIno(dir, j)))
      {
        if SlotIno(dir, i) != 0 {
          if SlotIno(dir, i) > MAX_INODES || !BitOf(ib, SlotIno(dir, i)) { return Corrupt; }
        }
        i := i + 1;
      }
      return Ok;
    }
  }

  // ---------- small facts the methods use ----------

  lemma {:induction false} LowBitsSteps()
    ensures LowBits(0) == ZeroBlock() && forall b :: 0 <= b < DATA_START ==> LowBits(b + 1) == BitSet(LowBits(b), b)
    ensures LowBits(2) == BitSet(BitSet(ZeroBlock(), 0), 1)
  {
    hide BitSet;
    assert LowBits(1) == BitSet(ZeroBlock(), 0);
  }

  lemma {:induction false} UnreadableNext(b: Inode, n: nat, i: nat, k: nat)
    requires i <= k <= DIRECT
    ensures Unreadable(b, n, i, k) ==
            if i == k || Direct(b, i) == 0 || Direct(b, i) >= n then i else Unreadable(b, n, i + 1, k)
  {
  }

  lemma {:induction false} VisitedMeans(n: nat)
    ensures var k := Visited(n); (k < DIRECT ==> n <= 512 * k) && (k > 0 ==> 512 * (k - 1) < n)
  {
  }

  /** The first n bytes, or all there are. */
  function Cut(s: seq<byte>, n: nat): seq<byte> { if n <= |s| then s[..n] else s }

  lemma {:induction false} GatherNone(disk: Disk, b: Inode, n: nat)
    ensures Gather(disk, b, 0) == [] && Cut([], n) == []
  {
  }

  lemma {:induction false} GatherNext(disk: Disk, b: Inode, i: nat)
    requires i < DIRECT && Direct(b, i) < |disk|
    ensures Gather(disk, b, i + 1) == Gather(disk, b, i) + disk[Direct(b, i)]
  {
    hide Direct;
  }

  /** One more block, when the ones before it were not enough. */
  lemma {:induction false} CutNext(g: seq<byte>, block: Block, n: nat)
    requires |g| < n
    ensures Cut(g + block, n) == Cut(g, n) + block[..if n - |g| > 512 then 512 else n - |g|]
  {
    var c := if n - |g| > 512 then 512 else n - |g|;
    assert (g + block)[..|g| + c] == g + block[..c];
  }

  lemma {:induction false} ChunkIs(buf: seq<byte>, i: nat)
    ensures var lo := if 512 * i < |buf| then 512 * i else |buf|;
            var chunk := if |buf| - lo > 512 then 512 else |buf| - lo;
            Padded(buf[lo..lo + chunk], 512) == Chunk(buf, i)
  {
  }

}
