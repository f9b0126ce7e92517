/**
 mcsfs1_write replaces the contents of one file, or reports that there are not enough free
 blocks and leaves every file as it was; mcsfs1_read returns the contents.
 */
module McsWrite {
  import opened Bytes
  import opened Mcsfs1
  import opened McsInv
  import opened McsOps

  // ---------- taking the missing blocks ----------

  /** The inode b may replace that of entry `slot`: its blocks are sound and no other entry has them. */
  predicate Fits(disk: Disk, slot: nat, b: Inode)
    requires slot < DIRENTS && FsOk(disk)
  {
    InodeOk(disk, b) && forall k :: 0 <= k < DIRENTS && k != slot ==> Unshared(disk, k, b)
  }

  predicate Unshared(disk: Disk, k: nat, b: Inode)
    requires k < DIRENTS
  {
    Live(disk, k) && 1 <= InoOf(disk, k) <= MAX_INODES ==> NoShared(b, ReadInode(disk, InoOf(disk, k)))
  }

  lemma {:induction false} OwnFits(disk: Disk, slot: nat)
    requires FsOk(disk) && slot < DIRENTS && Live(disk, slot)
    ensures SlotOk(disk, slot) && Fits(disk, slot, ReadInode(disk, InoOf(disk, slot)))
  {
    hide SystemOk, InodeOk, NameAt, BitOf, NoShared;
    assert SlotOk(disk, slot);
    forall k | 0 <= k < DIRENTS && k != slot ensures Unshared(disk, k, ReadInode(disk, InoOf(disk, slot))) {
      assert SlotOk(disk, k);
      assert Apart(disk, slot, k);
    }
  }

  lemma {:induction false} ExtendInode(disk: Disk, b: Inode, i: nat, blk: nat)
    requires InodeOk(disk, b) && i < DIRECT && Direct(b, i) == 0
    requires DATA_START <= blk < |disk| && !BitOf(disk[BLOCK_BMAP], blk)
    ensures InodeOk(MarkBlock(disk, blk), SetDirect(b, i, blk))
  {
    hide Mode, Size, Direct, BitOf, BitSet, SetDirect;
    var c, d := SetDirect(b, i, blk), MarkBlock(disk, blk);
    SetDirectAt(b, i, blk);
    UnmarkedUnused(disk, b, blk);
    forall e | 0 <= e < DIRECT ensures BlockOk(d, c, e) {
      assert BlockOk(disk, b, e);
      assert Direct(c, e) == if e == i then blk else Direct(b, e);
      if Direct(c, e) != 0 { BitSetAt(disk[BLOCK_BMAP], blk, Direct(c, e)); }
    }
    forall e | 0 <= e < Need(Size(c)) ensures Direct(c, e) != 0 {
      NeedBounds(Size(c));
      assert Direct(b, e) != 0;
    }
  }

  lemma {:induction false} ExtendUnshared(disk: Disk, k: nat, b: Inode, i: nat, blk: nat)
    requires k < DIRENTS && SlotOk(disk, k) && Unshared(disk, k, b) && i < DIRECT
    requires DATA_START <= blk < |disk| && !BitOf(disk[BLOCK_BMAP], blk)
    ensures Unshared(MarkBlock(disk, blk), k, SetDirect(b, i, blk))
  {
    hide Mode, Size, Direct, BitOf, BitSet, SetDirect, InodeOk, NameOf, Field;
    if Live(disk, k) {
      var n := ReadInode(disk, InoOf(disk, k));
      SetDirectAt(b, i, blk);
      UnmarkedUnused(disk, n, blk);
      assert ReadInode(MarkBlock(disk, blk), InoOf(disk, k)) == n;
    }
  }

  lemma {:induction false} ExtendFits(disk: Disk, slot: nat, b: Inode, i: nat, blk: nat)
    requires FsOk(disk) && slot < DIRENTS && Fits(disk, slot, b) && i < DIRECT && Direct(b, i) == 0
    requires DATA_START <= blk < |disk| && !BitOf(disk[BLOCK_BMAP], blk)
    ensures var d := MarkBlock(disk, blk); FsOk(d) && Files(d) == Files(disk) && Fits(d, slot, SetDirect(b, i, blk))
  {
    hide SystemOk, SlotOk, Apart, InodeOk, MarkBlock, BitOf, Direct, SetDirect, Unshared, Files;
    MarkKeeps(disk, blk);
    ExtendInode(disk, b, i, blk);
    forall k | 0 <= k < DIRENTS && k != slot ensures Unshared(MarkBlock(disk, blk), k, SetDirect(b, i, blk)) {
      ExtendUnshared(disk, k, b, i, blk);
    }
  }

  /** The directory and every inode are the same on both disks. */
  predicate SameMeta(a: Disk, b: Disk) {
    && |a| == |b| && a[ROOT_DIR] == b[ROOT_DIR] && a[INODE_BMAP] == b[INODE_BMAP] && a[0] == b[0]
    && forall t :: INODE_TABLE <= t < ROOT_DIR ==> a[t] == b[t]
  }

  /** The free data blocks. */
  function FreeBlocks(disk: Disk): set<nat> {
    set x: nat | DATA_START <= x < |disk| && !BitOf(disk[BLOCK_BMAP], x)
  }

  /** How many of the direct blocks i..need-1 are not allocated. */
  function Missing(b: Inode, i: nat, need: nat): nat
    requires i <= need <= DIRECT
    decreases need - i
  {
    if i == need then 0 else (if Direct(b, i) == 0 then 1 else 0) + Missing(b, i + 1, need)
  }

  /** A write of len bytes reaches its first direct block, and every one that starts before len. */
  predicate Reached(d: nat, len: nat) { d == 0 || 512 * d < len }

  /** The direct blocks that such a write reaches and the inode lacks. */
  function Gaps(b: Inode, len: nat): set<nat> {
    set d: nat | d < 8 && Direct(b, d) == 0 && Reached(d, len)
  }

  lemma {:induction false} NeedIs(len: nat, d: nat)
    requires len <= 4096
    ensures Need(len) <= 8 && (d < Need(len) <==> Reached(d, len))
  {
  }

  /** The direct blocks i..need-1 that are not allocated. */
  function Empties(b: Inode, i: nat, need: nat): set<nat>
    requires i <= need <= DIRECT
  {
    set d: nat | i <= d < need && Direct(b, d) == 0
  }

  lemma {:induction false} EmptiesFirst(b: Inode, i: nat, need: nat)
    requires i < need <= DIRECT
    ensures Empties(b, i, need) == Empties(b, i + 1, need) + if Direct(b, i) == 0 then {i} else {}
    ensures i !in Empties(b, i + 1, need)
  {
    hide Direct;
  }

  lemma {:induction false} MissingCount(b: Inode, i: nat, need: nat)
    requires i <= need <= DIRECT
    ensures Missing(b, i, need) == |Empties(b, i, need)|
    decreases need - i
  {
    hide Direct;
    if i < need {
      MissingCount(b, i + 1, need);
      EmptiesFirst(b, i, need);
      hide Empties;
    } else {
      assert Empties(b, i, need) == {};
    }
  }

  lemma {:induction false} MissingIsGaps(b: Inode, len: nat)
    requires len <= 4096
    ensures Need(len) <= 8 && Missing(b, 0, Need(len)) == |Gaps(b, len)|
  {
    hide Direct, Missing, Need;
    NeedIs(len, 0);
    MissingCount(b, 0, Need(len));
    forall d: nat ensures d < Need(len) <==> Reached(d, len) && d < 8 { NeedIs(len, d); }
    assert Gaps(b, len) == Empties(b, 0, Need(len));
  }

  lemma {:induction false} MissingSame(b: Inode, c: Inode, i: nat, need: nat)
    requires i <= need <= DIRECT && forall d :: i <= d < need ==> Direct(c, d) == Direct(b, d)
    ensures Missing(c, i, need) == Missing(b, i, need)
    decreases need - i
  {
    hide Direct;
    if i < need { MissingSame(b, c, i + 1, need); }
  }

  lemma {:induction false} MarkTakesOne(disk: Disk)
    requires NextBlk(disk) < |disk|
    ensures |FreeBlocks(MarkBlock(disk, NextBlk(disk)))| == |FreeBlocks(disk)| - 1
  {
    hide BitOf, BitSet, FirstClear;
    var blk := NextBlk(disk);
    forall x: nat | x < |disk|
      ensures BitOf(BitSet(disk[BLOCK_BMAP], blk), x) <==> x == blk || BitOf(disk[BLOCK_BMAP], x)
    {
      BitSetAt(disk[BLOCK_BMAP], blk, x);
    }
    assert FreeBlocks(MarkBlock(disk, blk)) == FreeBlocks(disk) - {blk};
  }

  /**
   Growing a file succeeds exactly when enough data blocks are free. Either way the map of
   files is untouched; on success the enlarged inode fits in place of the old one.
   */
  lemma {:induction false} GrowKeeps(disk: Disk, slot: nat, b: Inode, i: nat, need: nat)
    requires FsOk(disk) && slot < DIRENTS && Fits(disk, slot, b) && i <= need <= DIRECT
    requires forall d :: 0 <= d < i ==> Direct(b, d) != 0
    ensures var g := Grow(disk, b, i, need);
            && FsOk(g.disk) && Files(g.disk) == Files(disk) && SameMeta(disk, g.disk)
            && (g.ok <==> Missing(b, i, need) <= |FreeBlocks(disk)|)
            && (g.ok ==> Fits(g.disk, slot, g.inode) && forall d :: 0 <= d < need ==> Direct(g.inode, d) != 0)
            && (!g.ok ==> FreeBlocks(g.disk) == {})
    decreases need - i
  {
    hide FsOk, Fits, Files, Direct, BitOf, MarkBlock, FirstClear, FreeBlocks, SetDirect;
    if i == need {
    } else if Direct(b, i) != 0 {
      GrowKeeps(disk, slot, b, i + 1, need);
    } else {
      var blk := NextBlk(disk);
      if blk == |disk| {
        NoneFree(disk);
      } else {
        var d, c := MarkBlock(disk, blk), SetDirect(b, i, blk);
        ExtendFits(disk, slot, b, i, blk);
        SetDirectAt(b, i, blk);
        MarkMeta(disk, blk);
        MarkTakesOne(disk);
        MissingSame(b, c, i + 1, need);
        forall e | 0 <= e < i + 1 ensures Direct(c, e) != 0 { assert e < i ==> Direct(b, e) != 0; }
        GrowKeeps(d, slot, c, i + 1, need);
      }
    }
  }

  lemma {:induction false} MarkMeta(disk: Disk, blk: nat)
    requires blk < |disk|
    ensures SameMeta(disk, MarkBlock(disk, blk))
  {
    hide BitSet;
  }

  lemma {:induction false} NoneFree(disk: Disk)
    requires NextBlk(disk) == |disk|
    ensures FreeBlocks(disk) == {}
  {
    hide BitOf;
  }

  // ---------- filling them ----------

  /** Every direct block below k is a data block of the device. */
  predicate Sound(disk: Disk, b: Inode, k: nat) {
    k <= DIRECT && SelfApart(b) && forall d :: 0 <= d < k ==> DATA_START <= Direct(b, d) < |disk|
  }

  /** Filling touches the inode's own blocks only, and puts each piece in its place. */
  lemma {:induction false} FillAt(disk: Disk, b: Inode, buf: seq<byte>, k: nat)
    requires Sound(disk, b, k)
    ensures var f := Fill(disk, b, buf, k);
            && (forall x :: 0 <= x < |disk| && (forall d :: 0 <= d < k ==> Direct(b, d) != x) ==> f[x] == disk[x])
            && (forall d :: 0 <= d < k ==> f[Direct(b, d)] == Chunk(buf, d))
  {
    hide Direct, Chunk;
    if k > 0 {
      FillAt(disk, b, buf, k - 1);
      forall d | 0 <= d < k - 1 ensures Direct(b, d) != Direct(b, k - 1) { assert Direct(b, d) != 0; }
    }
  }

  /** How much of the buffer the first k blocks hold. */
  function Held(buf: seq<byte>, k: nat): (n: nat)
    ensures n <= |buf|
  {
    if 512 * k < |buf| then 512 * k else |buf|
  }

  lemma {:induction false} ChunkPrefix(buf: seq<byte>, k: nat)
    ensures Held(buf, k) <= Held(buf, k + 1) <= Held(buf, k) + 512
    ensures Chunk(buf, k)[..Held(buf, k + 1) - Held(buf, k)] == buf[Held(buf, k)..Held(buf, k + 1)]
  {
    var x := buf[Held(buf, k)..Held(buf, k + 1)];
    assert Chunk(buf, k) == Padded(x, 512);
    assert Padded(x, 512)[..|x|] == x;
  }

  lemma {:induction false} JoinPrefix(part: seq<byte>, c: seq<byte>, buf: seq<byte>, n: nat)
    requires |part| <= n <= |buf| && n - |part| <= |c| && part == buf[..|part|] && c[..n - |part|] == buf[|part|..n]
    ensures (part + c)[..n] == buf[..n]
  {
    assert (part + c)[..n] == part + c[..n - |part|];
    assert buf[..|part|] + buf[|part|..n] == buf[..n];
  }

  /** The pieces in order are the buffer. */
  lemma {:induction false} GatherChunks(disk: Disk, b: Inode, buf: seq<byte>, k: nat)
    requires |buf| <= 4096 && k <= (|buf| + 511) / 512
    requires forall d :: 0 <= d < k ==> 0 <= Direct(b, d) < |disk| && disk[Direct(b, d)] == Chunk(buf, d)
    ensures |Gather(disk, b, k)| == 512 * k && Gather(disk, b, k)[..Held(buf, k)] == buf[..Held(buf, k)]
  {
    hide Direct, Chunk;
    if k > 0 {
      GatherChunks(disk, b, buf, k - 1);
      var part := Gather(disk, b, k - 1);
      assert Held(buf, k - 1) == 512 * (k - 1);
      assert part[..512 * (k - 1)] == part;
      ChunkPrefix(buf, k - 1);
      JoinPrefix(part, Chunk(buf, k - 1), buf, Held(buf, k));
    }
  }

  /** The disk after the data and the inode have been written. */
  function Stored(disk: Disk, ino: nat, b: Inode, buf: seq<byte>): (d: Disk)
    requires 1 <= ino <= MAX_INODES && |buf| <= 4096
    ensures |d| == |disk|
  {
    WriteInode(Fill(disk, b, buf, Need(|buf|)), ino, SetSize(b, |buf|))
  }

  /** What Stored changes: the file's data blocks and its inode. */
  lemma {:induction false} StoredAt(disk: Disk, ino: nat, b: Inode, buf: seq<byte>)
    requires 1 <= ino <= MAX_INODES && |buf| <= 4096 && Sound(disk, b, Need(|buf|))
    ensures var f := Stored(disk, ino, b, buf);
            && f[0] == disk[0] && f[INODE_BMAP] == disk[INODE_BMAP] && f[BLOCK_BMAP] == disk[BLOCK_BMAP]
              && f[ROOT_DIR] == disk[ROOT_DIR]
            && (forall i :: 1 <= i <= MAX_INODES ==>
                  ReadInode(f, i) == if i == ino then SetSize(b, |buf|) else ReadInode(disk, i))
            && (forall x :: DATA_START <= x < |disk| && (forall d :: 0 <= d < Need(|buf|) ==> Direct(b, d) != x) ==>
                  f[x] == disk[x])
            && (forall d :: 0 <= d < Need(|buf|) ==> f[Direct(b, d)] == Chunk(buf, d))
  {
    hide Direct, Chunk, SetSize, SelfApart, Fill, Splice, Need;
    var k := Need(|buf|);
    var g := Fill(disk, b, buf, k);
    FillAt(disk, b, buf, k);
    var f := Stored(disk, ino, b, buf);
    forall x | 0 <= x < DATA_START ensures g[x] == disk[x] {
      assert forall d :: 0 <= d < k ==> Direct(b, d) != x;
    }
    forall i | 1 <= i <= MAX_INODES
      ensures ReadInode(f, i) == if i == ino then SetSize(b, |buf|) else ReadInode(disk, i)
    {
      WriteInodeAt(g, ino, SetSize(b, |buf|), i);
      assert ReadInode(g, i) == ReadInode(disk, i);
    }
  }

  lemma {:induction false} FitsSound(disk: Disk, b: Inode, k: nat)
    requires InodeOk(disk, b) && k <= DIRECT && forall d :: 0 <= d < k ==> Direct(b, d) != 0
    ensures Sound(disk, b, k)
  {
    hide Mode, Size, Direct, BitOf, SelfApart;
    forall d | 0 <= d < k ensures DATA_START <= Direct(b, d) < |disk| { assert BlockOk(disk, b, d); }
  }

  lemma {:induction false} StoredSystem(disk: Disk, ino: nat, b: Inode, buf: seq<byte>)
    requires SystemOk(disk) && 2 <= ino <= MAX_INODES && |buf| <= 4096 && Sound(disk, b, Need(|buf|))
    ensures SystemOk(Stored(disk, ino, b, buf))
  {
    hide Field, BitOf, Direct, Mode, Size, ReadInode, Stored, Need;
    StoredAt(disk, ino, b, buf);
  }

  lemma {:induction false} StoredBlocks(disk: Disk, ino: nat, b: Inode, buf: seq<byte>, n: Inode)
    requires 1 <= ino <= MAX_INODES && |buf| <= 4096 && Sound(disk, b, Need(|buf|))
    requires InodeOk(disk, n) && NoShared(b, n)
    ensures BlocksKept(disk, Stored(disk, ino, b, buf), n)
  {
    hide BitOf, Direct, Mode, Size, ReadInode, Stored, SelfApart;
    NeedBounds(|buf|);
    StoredAt(disk, ino, b, buf);
    var f := Stored(disk, ino, b, buf);
    forall e | 0 <= e < DIRECT && 0 < Direct(n, e) < |disk|
      ensures disk[Direct(n, e)] == f[Direct(n, e)] && BitOf(f[BLOCK_BMAP], Direct(n, e))
    {
      assert BlockOk(disk, n, e);
      forall d | 0 <= d < Need(|buf|) ensures Direct(b, d) != Direct(n, e) { assert Direct(b, d) != 0; }
    }
  }

  lemma {:induction false} StoredKept(disk: Disk, slot: nat, b: Inode, buf: seq<byte>, j: nat)
    requires FsOk(disk) && slot < DIRENTS && Live(disk, slot) && SlotOk(disk, slot) && |buf| <= 4096
    requires Sound(disk, b, Need(|buf|)) && Fits(disk, slot, b) && j < DIRENTS && j != slot
    ensures SlotOk(disk, j) && Kept(disk, Stored(disk, InoOf(disk, slot), b, buf), j)
  {
    hide SystemOk, BitOf, NameOf, Field, InodeOk, NoShared, BlocksKept, Sound, Need, ReadInode, Stored;
    assert SlotOk(disk, j);
    assert Apart(disk, slot, j);
    StoredAt(disk, InoOf(disk, slot), b, buf);
    if Live(disk, j) {
      assert Unshared(disk, j, b);
      StoredBlocks(disk, InoOf(disk, slot), b, buf, ReadInode(disk, InoOf(disk, j)));
    }
  }

  lemma {:induction false} StoredForeign(disk: Disk, slot: nat, b: Inode, buf: seq<byte>, k: nat)
    requires FsOk(disk) && slot < DIRENTS && Live(disk, slot) && SlotOk(disk, slot) && |buf| <= 4096
    requires Sound(disk, b, Need(|buf|)) && Fits(disk, slot, b) && k < DIRENTS && k != slot && Live(disk, k)
    ensures Foreign(disk, Stored(disk, InoOf(disk, slot), b, buf), slot, k)
  {
    hide SystemOk, BitOf, NameOf, Field, InodeOk, Sound, Need, ReadInode, Stored, Direct, SetSize;
    assert SlotOk(disk, k);
    assert Apart(disk, slot, k);
    assert Unshared(disk, k, b);
    StoredAt(disk, InoOf(disk, slot), b, buf);
    SetSizeAt(b, |buf|);
  }

  lemma {:induction false} StoredInode(disk: Disk, ino: nat, b: Inode, buf: seq<byte>)
    requires 1 <= ino <= MAX_INODES && |buf| <= 4096 && InodeOk(disk, b) && Sound(disk, b, Need(|buf|))
    ensures var f := Stored(disk, ino, b, buf); InodeOk(f, SetSize(b, |buf|)) && FileData(f, SetSize(b, |buf|)) == buf
  {
    hide BitOf, Direct, Mode, Size, ReadInode, Stored, SetSize, Gather;
    NeedBounds(|buf|);
    StoredAt(disk, ino, b, buf);
    SetSizeAt(b, |buf|);
    var f, c := Stored(disk, ino, b, buf), SetSize(b, |buf|);
    forall d | 0 <= d < DIRECT ensures BlockOk(f, c, d) { assert BlockOk(disk, b, d); }
    GatherChunks(f, c, buf, (|buf| + 511) / 512);
    assert buf[..|buf|] == buf;
  }

  /** Storing through a fitting inode replaces that one file's contents. */
  lemma {:induction false} StoredRefines(disk: Disk, slot: nat, b: Inode, buf: seq<byte>)
    requires FsOk(disk) && slot < DIRENTS && Live(disk, slot) && SlotOk(disk, slot) && |buf| <= 4096
    requires Fits(disk, slot, b) && forall d :: 0 <= d < Need(|buf|) ==> Direct(b, d) != 0
    ensures var f := Stored(disk, InoOf(disk, slot), b, buf);
            FsOk(f) && Files(f) == Files(disk)[NameAt(disk, slot) := buf]
  {
    hide SystemOk, BitOf, NameOf, Field, InodeOk, NoShared, ReadInode, Stored, Foreign, Kept, Sound, FileData,
      SetSize, Files;
    var ino := InoOf(disk, slot);
    var f := Stored(disk, ino, b, buf);
    NeedBounds(|buf|);
    FitsSound(disk, b, Need(|buf|));
    StoredSystem(disk, ino, b, buf);
    StoredAt(disk, ino, b, buf);
    StoredInode(disk, ino, b, buf);
    forall j | 0 <= j < DIRENTS && j != slot
      ensures SlotOk(disk, j) && Kept(disk, f, j)
    {
      StoredKept(disk, slot, b, buf, j);
    }
    forall k | 0 <= k < DIRENTS && k != slot && Live(disk, k)
      ensures Foreign(disk, f, slot, k)
    {
      StoredForeign(disk, slot, b, buf, k);
    }
    OneEntry(disk, f, slot);
    OneFile(disk, f, slot, NameAt(disk, slot));
  }

  // ---------- the two operations ----------

  /** The data blocks a write of len bytes to this file has to find. */
  function Wanted(disk: Disk, name: seq<byte>, len: nat): nat
    requires FsOk(disk) && name in Files(disk)
  {
    FindIsFiles(disk, name);
    |Gaps(ReadInode(disk, InoOf(disk, FindSlot(disk[ROOT_DIR], name, 0))), len)|
  }

  /**
   write replaces the contents of an existing file and changes no other; it fails for lack of
   space exactly when too few data blocks are free, and then no file has changed.
   */
  lemma {:induction false} WriteRefines(disk: Disk, name: seq<byte>, buf: seq<byte>)
    requires FsOk(disk) && CString(name) && |name| < MAX_NAME
    ensures var r := Write(disk, name, buf);
            && FsOk(r.disk)
            && Files(r.disk) == (if r.rc == Ok then Files(disk)[name := buf] else Files(disk))
            && r.rc in {Ok, NoSpc, Range, NameTooLong, NoEnt}
            && (r.rc == Range <==> |buf| > 4096)
            && (|buf| <= 4096 ==> (r.rc == NameTooLong <==> |name| == 0))
            && (|buf| <= 4096 && |name| > 0 ==> (r.rc == NoEnt <==> name !in Files(disk)))
            && (|buf| <= 4096 && name in Files(disk) ==>
                  (r.rc == Ok <==> Wanted(disk, name, |buf|) <= |FreeBlocks(disk)|))
            && (r.rc in {Range, NameTooLong, NoEnt} ==> r.disk == disk)
  {
    hide FsOk, Files, FindSlot, NameAt, DataAt, InodeOk, WriteFile, FreeBlocks, Gaps;
    EmptyName(disk);
    FindIsFiles(disk, name);
    var slot := FindSlot(disk[ROOT_DIR], name, 0);
    if |buf| <= 4096 && |name| > 0 && slot < DIRENTS {
      WriteFileRefines(disk, slot, buf);
    }
  }

  lemma {:induction false} WriteFileRefines(disk: Disk, slot: nat, buf: seq<byte>)
    requires FsOk(disk) && slot < DIRENTS && Live(disk, slot) && SlotOk(disk, slot) && |buf| <= 4096
    ensures var r := WriteFile(disk, InoOf(disk, slot), buf);
            && FsOk(r.disk) && (r.rc == Ok || r.rc == NoSpc)
            && Files(r.disk) == (if r.rc == Ok then Files(disk)[NameAt(disk, slot) := buf] else Files(disk))
            && (r.rc == Ok <==> |Gaps(ReadInode(disk, InoOf(disk, slot)), |buf|)| <= |FreeBlocks(disk)|)
  {
    hide FsOk, Fits, Files, Direct, BitOf, FreeBlocks, Missing, Grow, NameAt, Need, Fill, SetSize, Field;
    hide OffDevice, Gaps;
    var ino := InoOf(disk, slot);
    var b := ReadInode(disk, ino);
    MissingIsGaps(b, |buf|);
    OwnFits(disk, slot);
    GrowKeeps(disk, slot, b, 0, Need(|buf|));
    var g := Grow(disk, b, 0, Need(|buf|));
    if g.ok {
      AllOnDevice(g.disk, slot, g.inode, Need(|buf|));
      MetaSlot(disk, g.disk, slot);
      StoredRefines(g.disk, slot, g.inode, buf);
    }
  }

  /** On a consistent disk no write stops midway at a bad block number. */
  lemma {:induction false} AllOnDevice(disk: Disk, slot: nat, b: Inode, k: nat)
    requires FsOk(disk) && slot < DIRENTS && Fits(disk, slot, b) && k <= DIRECT
    requires forall d :: 0 <= d < k ==> Direct(b, d) != 0
    ensures OffDevice(b, |disk|, 0, k) == k
  {
    hide FsOk, Direct, Mode, Size, SelfApart, BitOf;
    FitsSound(disk, b, k);
  }

  lemma {:induction false} MetaSlot(a: Disk, b: Disk, slot: nat)
    requires FsOk(a) && FsOk(b) && SameMeta(a, b) && slot < DIRENTS
    ensures InoOf(a, slot) == InoOf(b, slot) && NameAt(a, slot) == NameAt(b, slot) && SlotOk(b, slot)
  {
    hide SystemOk, Field, NameOf, InodeOk, BitOf;
  }

  /** read returns exactly the contents of the named file. */
  lemma {:induction false} ReadRefines(disk: Disk, name: seq<byte>, cap: nat)
    requires FsOk(disk) && CString(name) && |name| < MAX_NAME
    ensures Read(disk, name, cap) ==
              if |name| == 0 then ReadErr(NameTooLong)
              else if name !in Files(disk) then ReadErr(NoEnt)
              else if cap < |Files(disk)[name]| then ReadErr(Range)
              else ReadOk(Files(disk)[name])
  {
    hide FsOk, Files, FindSlot, NameAt, InodeOk, ReadFile, FileData;
    EmptyName(disk);
    FindIsFiles(disk, name);
    var slot := FindSlot(disk[ROOT_DIR], name, 0);
    if |name| > 0 && slot < DIRENTS {
      ReadFileRefines(disk, ReadInode(disk, InoOf(disk, slot)), cap);
    }
  }

  lemma {:induction false} ReadFileRefines(disk: Disk, b: Inode, cap: nat)
    requires InodeOk(disk, b)
    ensures |FileData(disk, b)| == Size(b)
    ensures ReadFile(b, disk, cap) == if cap < Size(b) then ReadErr(Range) else ReadOk(FileData(disk, b))
  {
    hide Mode, Size, Direct, BitOf, SelfApart, Gather;
    NeedBounds(Size(b));
    var k := (Size(b) + 511) / 512;
    forall d | 0 <= d < k ensures 0 < Direct(b, d) < |disk| { assert BlockOk(disk, b, d); }
    GatherLength(disk, b, k);
  }

  lemma {:induction false} GatherLength(disk: Disk, b: Inode, k: nat)
    requires k <= DIRECT && forall d :: 0 <= d < k ==> 0 <= Direct(b, d) < |disk|
    ensures |Gather(disk, b, k)| == 512 * k
  {
    hide Direct;
    if k > 0 { GatherLength(disk, b, k - 1); }
  }
}
