/**
 The MCSFS1 calls said of raw bytes: what a write needs and takes, what fsck and mount refuse,
 what a format, a create and an unlink leave on the disk, and what a read answers, on every disk.
 */
module McsReplies {
  import opened Bytes
  import opened Mcsfs1
  import opened McsInv
  import opened McsOps
  import opened McsWrite
  import opened McsRuns

  // ---------- inodes in bytes ----------

  /** The n-byte member at offset off of inode ino: 60 bytes each, eight to a block, from block 3. */
  function InoField(disk: Disk, ino: nat, off: nat, n: nat): nat
    requires 1 <= ino <= 32 && off + n <= 60
  {
    Field(disk[3 + (ino - 1) / 8], 60 * ((ino - 1) % 8) + off, n)
  }

  /** direct[d] of inode ino */
  function Ptr(disk: Disk, ino: nat, d: nat): nat
    requires 1 <= ino <= 32 && d < 8
  {
    InoField(disk, ino, 8 + 4 * d, 4)
  }

  lemma {:induction false} InodeIs(disk: Disk, ino: nat, off: nat, n: nat)
    requires 1 <= ino <= 32 && off + n <= 60
    ensures Field(ReadInode(disk, ino), off, n) == InoField(disk, ino, off, n)
  {
    hide Decode;
    SliceOfSlice(disk[InodeLba(ino)], InodeOff(ino), 60, off, off + n);
  }

  lemma {:induction false} PtrIs(disk: Disk, ino: nat)
    requires 1 <= ino <= 32
    ensures forall d :: 0 <= d < 8 ==> Direct(ReadInode(disk, ino), d) == Ptr(disk, ino, d)
  {
    hide Field, ReadInode, InoField;
    forall d | 0 <= d < 8 ensures Direct(ReadInode(disk, ino), d) == Ptr(disk, ino, d) {
      InodeIs(disk, ino, 8 + 4 * d, 4);
    }
  }

  lemma {:induction false} HeadIs(disk: Disk, ino: nat)
    requires 1 <= ino <= 32
    ensures Mode(ReadInode(disk, ino)) == InoField(disk, ino, 0, 2)
    ensures Size(ReadInode(disk, ino)) == InoField(disk, ino, 4, 4)
  {
    hide Field, ReadInode, InoField;
    InodeIs(disk, ino, 0, 2);
    InodeIs(disk, ino, 4, 4);
  }

  // ---------- what a write needs and takes ----------

  /** The direct blocks of an inode that a write of len bytes reaches and has to allocate. */
  function Fresh(disk: Disk, ino: nat, len: nat): set<nat>
    requires 1 <= ino <= 32
  {
    set d: nat | d < 8 && Ptr(disk, ino, d) == 0 && Reached(d, len)
  }

  lemma {:induction false} MissingIsFresh(disk: Disk, ino: nat, len: nat)
    requires 1 <= ino <= 32 && len <= 4096
    ensures Need(len) <= 8 && Missing(ReadInode(disk, ino), 0, Need(len)) == |Fresh(disk, ino, len)|
  {
    hide Direct, Missing, Need, ReadInode, Ptr, Reached;
    PtrIs(disk, ino);
    MissingIsGaps(ReadInode(disk, ino), len);
    assert Fresh(disk, ino, len) == Gaps(ReadInode(disk, ino), len);
  }

  /** Growing fills exactly the empty direct blocks below need, and takes one free block for each. */
  lemma {:induction false} GrowFills(disk: Disk, b: Inode, i: nat, need: nat)
    requires i <= need <= DIRECT
    ensures var g := Grow(disk, b, i, need);
            && (g.ok <==> Missing(b, i, need) <= |FreeBlocks(disk)|)
            && (g.ok ==>
                  && |FreeBlocks(g.disk)| == |FreeBlocks(disk)| - Missing(b, i, need)
                  && forall d :: 0 <= d < 8 ==>
                       if i <= d < need && Direct(b, d) == 0 then 8 <= Direct(g.inode, d) < |disk|
                       else Direct(g.inode, d) == Direct(b, d))
    decreases need - i
  {
    hide Direct, BitOf, MarkBlock, FirstClear, FreeBlocks, SetDirect;
    if i < need {
      if Direct(b, i) != 0 {
        GrowFills(disk, b, i + 1, need);
      } else {
        var blk := NextBlk(disk);
        if blk < |disk| {
          var c := SetDirect(b, i, blk);
          SetDirectAt(b, i, blk);
          MarkTakesOne(disk);
          MissingSame(b, c, i + 1, need);
          GrowFills(MarkBlock(disk, blk), c, i + 1, need);
        } else {
          NoneFree(disk);
        }
      }
    }
  }

  /**
   mcsfs1_write to the file of entry j: NOSPC exactly if it reaches more empty direct blocks than
   data blocks are free. Otherwise those are filled, each with one free block, the others stay,
   and the size is the length written.
   */
  lemma {:induction false} WriteSays(disk: Disk, j: nat, buf: seq<byte>)
    requires FsOk(disk) && j < 16 && Live(disk, j) && |buf| <= 4096
    ensures SlotOk(disk, j)
    ensures var r, ino := Write(disk, NameAt(disk, j), buf), InoOf(disk, j);
            var taken := Fresh(disk, ino, |buf|);
            && r.rc == (if |taken| > |FreeBlocks(disk)| then NoSpc else Ok)
            && (r.rc == Ok ==>
                  && |FreeBlocks(r.disk)| == |FreeBlocks(disk)| - |taken|
                  && InoField(r.disk, ino, 4, 4) == |buf|
                  && forall d :: 0 <= d < 8 ==>
                       && (Ptr(r.disk, ino, d) != 0 <==> Ptr(disk, ino, d) != 0 || d == 0 || 512 * d < |buf|)
                       && (Ptr(disk, ino, d) != 0 ==> Ptr(r.disk, ino, d) == Ptr(disk, ino, d)))
            && (r.rc == NoSpc ==> FreeBlocks(r.disk) == {})
            && (|buf| <= 512 ==> r.rc == Ok)
  {
    hide FsOk, Files, FindSlot, NameAt, InodeOk, WriteFile, FreeBlocks, Ptr, Fresh, Need, InoField, ReadInode;
    FsOkSlot(disk, j);
    var name, ino := NameAt(disk, j), InoOf(disk, j);
    NameFound(disk, j);
    var r := Write(disk, name, buf);
    assert r == WriteFile(disk, ino, buf);
    WriteFileSays(disk, j, buf);
    if |buf| <= 512 { SmallWrite(disk, j, |buf|); }
  }

  lemma {:induction false} NameFound(disk: Disk, j: nat)
    requires FsOk(disk) && j < 16 && Live(disk, j)
    ensures FindSlot(disk[ROOT_DIR], NameAt(disk, j), 0) == j && 0 < |NameAt(disk, j)| <= MAX_NAME
  {
    hide FsOk, Files, FindSlot, NameAt, InodeOk, ReadInode, BitOf, DataAt;
    FsOkSlot(disk, j);
    FindIsFiles(disk, NameAt(disk, j));
    var s := FindSlot(disk[ROOT_DIR], NameAt(disk, j), 0);
    OneName(disk, j, s);
  }

  /** A file always has its first block, so a write within it needs none. */
  lemma {:induction false} SmallWrite(disk: Disk, j: nat, len: nat)
    requires j < 16 && Live(disk, j) && SlotOk(disk, j) && len <= 512
    ensures Fresh(disk, InoOf(disk, j), len) == {}
  {
    hide NameAt, ReadInode, BitOf, Field, Ptr;
    var ino := InoOf(disk, j);
    PtrIs(disk, ino);
    NeedIs(Size(ReadInode(disk, ino)), 0);
    assert Direct(ReadInode(disk, ino), 0) != 0;
  }

  lemma {:induction false} WriteFileSays(disk: Disk, j: nat, buf: seq<byte>)
    requires FsOk(disk) && j < 16 && Live(disk, j) && SlotOk(disk, j) && |buf| <= 4096
    ensures var r, ino := WriteFile(disk, InoOf(disk, j), buf), InoOf(disk, j);
            var taken := Fresh(disk, ino, |buf|);
            && r.rc == (if |taken| > |FreeBlocks(disk)| then NoSpc else Ok)
            && (r.rc == Ok ==>
                  && |FreeBlocks(r.disk)| == |FreeBlocks(disk)| - |taken|
                  && InoField(r.disk, ino, 4, 4) == |buf|
                  && forall d :: 0 <= d < 8 ==>
                       && (Ptr(r.disk, ino, d) != 0 <==> Ptr(disk, ino, d) != 0 || Reached(d, |buf|))
                       && (Ptr(disk, ino, d) != 0 ==> Ptr(r.disk, ino, d) == Ptr(disk, ino, d)))
            && (r.rc == NoSpc ==> FreeBlocks(r.disk) == {})
  {
    hide FsOk, Files, NameAt, InodeOk, FreeBlocks, Ptr, Fresh, Need, InoField, ReadInode, Grow, Fits, Fill, SetSize;
    hide Direct, Missing, OffDevice, Field, BitOf, Reached, SameMeta;
    var ino := InoOf(disk, j);
    var b := ReadInode(disk, ino);
    MissingIsFresh(disk, ino, |buf|);
    var need := Need(|buf|);
    WriteFileRefines(disk, j, buf);
    OwnFits(disk, j);
    GrowKeeps(disk, j, b, 0, need);
    GrowFills(disk, b, 0, need);
    var g := Grow(disk, b, 0, need);
    if g.ok {
      AllOnDevice(g.disk, j, g.inode, need);
      FitsInode(g.disk, j, g.inode);
      FitsSound(g.disk, g.inode, need);
      StoredAt(g.disk, ino, g.inode, buf);
      SetSizeAt(g.inode, |buf|);
      var f := WriteFile(disk, ino, buf).disk;
      assert f == Stored(g.disk, ino, g.inode, buf);
      SameFree(g.disk, f);
      HeadIs(f, ino);
      PtrIs(f, ino);
      PtrIs(disk, ino);
      forall d | 0 <= d < 8 ensures d < need <==> Reached(d, |buf|) { NeedIs(|buf|, d); }
    }
  }

  lemma {:induction false} SameFree(a: Disk, b: Disk)
    requires |a| == |b| && a[BLOCK_BMAP] == b[BLOCK_BMAP]
    ensures FreeBlocks(a) == FreeBlocks(b)
  {
  }

  /** The bytes an OK write leaves: the buffer, then zeros to the end of the last block it reaches. */
  lemma {:induction false} WriteData(disk: Disk, j: nat, buf: seq<byte>, d: nat, k: nat)
    requires FsOk(disk) && j < 16 && Live(disk, j) && |buf| <= 4096 && d < 8 && (d == 0 || 512 * d < |buf|) && k < 512
    requires Write(disk, NameAt(disk, j), buf).rc == Ok
    ensures SlotOk(disk, j)
    ensures var f := Write(disk, NameAt(disk, j), buf).disk;
            var x := Ptr(f, InoOf(disk, j), d);
            8 <= x < |f| && f[x][k] == if 512 * d + k < |buf| then buf[512 * d + k] else 0
  {
    hide FsOk, Files, FindSlot, NameAt, InodeOk, FreeBlocks, Ptr, Need, InoField, ReadInode, Grow, Fits, Fill, SetSize;
    hide Direct, Missing, OffDevice, Field, BitOf, SameMeta, Chunk, SelfApart;
    FsOkSlot(disk, j);
    NameFound(disk, j);
    var ino := InoOf(disk, j);
    var b, need := ReadInode(disk, ino), Need(|buf|);
    NeedIs(|buf|, d);
    OwnFits(disk, j);
    GrowKeeps(disk, j, b, 0, need);
    var g := Grow(disk, b, 0, need);
    assert Write(disk, NameAt(disk, j), buf) == WriteFile(disk, ino, buf);
    AllOnDevice(g.disk, j, g.inode, need);
    FitsInode(g.disk, j, g.inode);
    FitsSound(g.disk, g.inode, need);
    StoredAt(g.disk, ino, g.inode, buf);
    SetSizeAt(g.inode, |buf|);
    var f := WriteFile(disk, ino, buf).disk;
    assert f == Stored(g.disk, ino, g.inode, buf);
    PtrIs(f, ino);
    ChunkAt(buf, d, k);
  }

  lemma {:induction false} ChunkAt(buf: seq<byte>, d: nat, k: nat)
    requires k < 512
    ensures Chunk(buf, d)[k] == if 512 * d + k < |buf| then buf[512 * d + k] else 0
  {
  }

  // ---------- fsck and mount ----------

  predicate SuperSane(disk: Disk) {
    var sb := disk[0];
    && Field(sb, 0, 4) == 0x31465343 && Field(sb, 4, 4) == 1 && Field(sb, 8, 4) == 512 && Field(sb, 12, 4) == |disk|
    && Field(sb, 16, 4) == 32 && Field(sb, 20, 4) == 1 && Field(sb, 24, 4) == 2 && Field(sb, 28, 4) == 3
    && Field(sb, 36, 4) == 1 && Field(sb, 40, 4) == 7 && Field(sb, 44, 4) == 8
  }

  /** Inode 1 is a directory at block 7. */
  predicate RootSane(disk: Disk) { InoField(disk, 1, 0, 2) == 2 && Ptr(disk, 1, 0) == 7 }

  /** Entry j is unused or names a marked inode. */
  predicate EntrySane(disk: Disk, j: nat)
    requires j < 16
  {
    var ino := Field(disk[7], 32 * j, 4);
    ino != 0 ==> ino <= 32 && BitOf(disk[1], ino)
  }

  /** mcsfs1_mount answers OK exactly if superblock and root are sane, else CORRUPT. */
  lemma {:induction false} MountSays(disk: Disk)
    ensures Mount(disk) == if SuperSane(disk) && RootSane(disk) then Ok else Corrupt
  {
    hide Field, ReadInode, InoField;
    HeadIs(disk, 1);
    PtrIs(disk, 1);
  }

  /** mcsfs1_fsck: also a small root, a clean flag of 1, marks on blocks 0 to 7, and sane entries. */
  lemma {:induction false} FsckSays(disk: Disk)
    ensures Fsck(disk) ==
            if SuperSane(disk) && RootSane(disk) && InoField(disk, 1, 4, 4) <= 4096 && Field(disk[0], 48, 4) == 1
               && (forall b :: 0 <= b < 8 ==> BitOf(disk[2], b)) && (forall j :: 0 <= j < 16 ==> EntrySane(disk, j))
            then Ok else Corrupt
  {
    hide Field, ReadInode, InoField, BitOf;
    HeadIs(disk, 1);
    PtrIs(disk, 1);
    forall j | 0 <= j < 16
      ensures EntrySane(disk, j) <==>
              SlotIno(disk[ROOT_DIR], j) == 0
              || (SlotIno(disk[ROOT_DIR], j) <= MAX_INODES && BitOf(disk[INODE_BMAP], SlotIno(disk[ROOT_DIR], j)))
    {
      assert SlotIno(disk[ROOT_DIR], j) == Field(disk[7], 32 * j, 4);
    }
  }

  // ---------- format ----------

  /** A fresh inode: mode, one link, size, first block, and zeros. */
  predicate FreshInode(disk: Disk, ino: nat, mode: nat, size: nat, blk: nat)
    requires 1 <= ino <= 32
  {
    && InoField(disk, ino, 0, 2) == mode && InoField(disk, ino, 2, 2) == 1 && InoField(disk, ino, 4, 4) == size
    && Ptr(disk, ino, 0) == blk && ReadInode(disk, ino)[12..60] == Zeros(48)
  }

  lemma {:induction false} NewInodeBytes(mode: nat, size: nat, blk: nat)
    requires mode < 256 && size < 0x1_0000_0000 && blk < 0x1_0000_0000
    ensures Field(NewInode(mode, size, blk), 2, 2) == 1 && NewInode(mode, size, blk)[12..60] == Zeros(48)
  {
    hide SetMembers, Decode;
    Pow256Values();
    var ms := [Member(0, 2, mode), Member(2, 2, 1), Member(4, 4, size), Member(8, 4, blk)];
    MemberAt(Zeros(60), ms, 1);
    MembersOther(Zeros(60), ms, 12, 48);
    assert Zeros(60)[12..60] == Zeros(48);
  }

  lemma {:induction false} FreshIs(disk: Disk, ino: nat, mode: nat, size: nat, blk: nat)
    requires 1 <= ino <= 32 && mode < 256 && size < 0x1_0000_0000 && blk < 0x1_0000_0000
    requires ReadInode(disk, ino) == NewInode(mode, size, blk)
    ensures FreshInode(disk, ino, mode, size, blk)
  {
    hide Field, ReadInode, InoField, NewInode;
    NewInodeAt(mode, size, blk);
    NewInodeBytes(mode, size, blk);
    HeadIs(disk, ino);
    InodeIs(disk, ino, 2, 2);
    PtrIs(disk, ino);
  }

  /**
   A format: the superblock, bits 0 and 1, bits 0 to 7, the root inode, and zeros everywhere else.
   */
  lemma {:induction false} FormatSays(n: nat, x: nat)
    requires 16 <= n <= 4096 && x < 4096
    ensures var disk := FormatDisk(n);
            && |disk| == n && SuperSane(disk) && Field(disk[0], 32, 4) == 4 && Field(disk[0], 48, 4) == 1
            && disk[0][52..512] == Zeros(460)
            && (BitOf(disk[1], x) <==> x < 2) && (BitOf(disk[2], x) <==> x < 8)
            && FreshInode(disk, 1, 2, 512, 7) && disk[3][60..512] == Zeros(452)
            && (forall b :: 4 <= b < n ==> disk[b] == ZeroBlock())
  {
    hide SetMembers, Field, NewInode, Splice, BitSet, BitOf, SuperOk, LowBits, FreshInode;
    var disk := FormatDisk(n);
    FormatSuper(n);
    FormatTail(n);
    LowBitsAt(2, x);
    LowBitsAt(8, x);
    BitSetAt(LowBits(8), 7, x);
    assert disk[1] == LowBits(2) && disk[2] == BitSet(LowBits(8), 7);
    FormatInode(n);
    FreshIs(disk, 1, 2, 512, 7);
    SuperIs(disk);
  }

  lemma {:induction false} SuperIs(disk: Disk)
    ensures SuperOk(disk) <==> SuperSane(disk)
  {
    hide Field;
  }

  lemma {:induction false} FormatTail(n: nat)
    requires 16 <= n <= 4096
    ensures var sb := FormatDisk(n)[0]; Field(sb, 32, 4) == 4 && sb[52..512] == Zeros(460)
  {
    hide SetMembers, Field, NewInode, Splice, BitSet, LowBits;
    var ms := SuperMembers(n);
    assert ms[8] == Member(32, 4, 4);
    MemberAt(ZeroBlock(), ms, 8);
    MembersOther(ZeroBlock(), ms, 52, 460);
    assert ZeroBlock()[52..512] == Zeros(460);
    assert FormatDisk(n)[0] == SetMembers(ZeroBlock(), ms);
  }

  lemma {:induction false} FormatInode(n: nat)
    requires 16 <= n <= 4096
    ensures ReadInode(FormatDisk(n), 1) == NewInode(2, 512, 7) && FormatDisk(n)[3][60..512] == Zeros(452)
    ensures forall b :: 4 <= b < n ==> FormatDisk(n)[b] == ZeroBlock()
  {
    hide SetMembers, Field, NewInode, Splice, BitSet, LowBits;
    var b := NewInode(2, 512, 7);
    assert FormatDisk(n)[3] == Splice(ZeroBlock(), 0, b);
    SpliceSame(ZeroBlock(), 0, b);
    SpliceOther(ZeroBlock(), 0, b, 60, 452);
    assert ZeroBlock()[60..512] == Zeros(452);
  }

  // ---------- names ----------

  /** Every call refuses exactly the empty names and those of more than 27 characters. */
  lemma {:induction false} NamesRefused(disk: Disk, name: seq<byte>, buf: seq<byte>, cap: nat)
    ensures Create(disk, name).rc == NameTooLong <==> |name| == 0 || |name| > 27
    ensures Unlink(disk, name).rc == NameTooLong <==> |name| == 0 || |name| > 27
    ensures Read(disk, name, cap) == ReadErr(NameTooLong) <==> |name| == 0 || |name| > 27
    ensures |buf| <= 4096 ==> (Write(disk, name, buf).rc == NameTooLong <==> |name| == 0 || |name| > 27)
    ensures |buf| > 4096 ==> Write(disk, name, buf) == Result(disk, Range)
    ensures |name| == 0 || |name| > 27 ==> Create(disk, name).disk == disk && Unlink(disk, name).disk == disk
  {
    hide FindSlot, FreeSlot, ReadInode, Install, Remove, NextIno, NextBlk, Grow, Fill, Unreadable, Gather, OffDevice;
  }

  /** An entry has a name exactly if it is used and holds the name and then a zero, or the end of the block. */
  lemma {:induction false} MatchSays(dir: Block, name: seq<byte>, j: nat)
    requires j < 16 && CString(name) && 0 < |name| <= 27
    ensures Match(dir, name, j) <==>
            && Field(dir, 32 * j, 4) != 0 && dir[32 * j + 5..32 * j + 5 + |name|] == name
            && (32 * j + 5 + |name| == 512 || dir[32 * j + 5 + |name|] == 0)
  {
    hide Decode;
    var w, o, n := NameWindow(dir, j), 32 * j + 5, |name|;
    SliceOfSlice(dir, o, |w|, 0, n);
    assert n < |w| ==> w[n] == dir[o + n];
    WindowIs(w, name);
  }

  lemma {:induction false} WindowIs(w: seq<byte>, name: seq<byte>)
    requires CString(name) && |name| <= |w|
    ensures NameOf(w) == name <==> w[..|name|] == name && (|name| == |w| || w[|name|] == 0)
  {
    var n := StrLen(w, 0);
    if w[..|name|] == name && (|name| == |w| || w[|name|] == 0) {
      forall k | 0 <= k < |name| ensures w[k] != 0 { assert w[k] == w[..|name|][k]; }
      assert n == |name|;
    }
  }

  // ---------- create and unlink, on any disk ----------

  /** The lowest unused entry, inode and data block. */
  predicate Lowest(disk: Disk, slot: nat, ino: nat, blk: nat) {
    && slot < 16 && Field(disk[7], 32 * slot, 4) == 0 && (forall k :: 0 <= k < slot ==> Field(disk[7], 32 * k, 4) != 0)
    && 2 <= ino <= 32 && !BitOf(disk[1], ino) && (forall i :: 2 <= i < ino ==> BitOf(disk[1], i))
    && 8 <= blk < |disk| && !BitOf(disk[2], blk) && (forall b :: 8 <= b < blk ==> BitOf(disk[2], b))
  }

  /** f is disk with an empty file of that name at entry slot, inode ino and block blk, and nothing else changed. */
  ghost predicate Created(disk: Disk, f: Disk, name: seq<byte>, slot: nat, ino: nat, blk: nat)
    requires slot < 16 && 1 <= ino <= 32 && |name| <= 27
  {
    && |f| == |disk| && FreshInode(f, ino, 1, 0, blk)
    && Field(f[7], 32 * slot, 4) == ino && f[7][32 * slot + 4] == 1
    && f[7][32 * slot + 5..32 * slot + 32] == Padded(name, 27)
    && (forall k :: 0 <= k < 16 && k != slot ==> f[7][32 * k..32 * k + 32] == disk[7][32 * k..32 * k + 32])
    && (forall i :: 1 <= i <= 32 && i != ino ==> ReadInode(f, i) == ReadInode(disk, i))
    && (forall x :: 0 <= x < 4096 ==> (BitOf(f[1], x) <==> x == ino || BitOf(disk[1], x)))
    && (forall x :: 0 <= x < 4096 ==> (BitOf(f[2], x) <==> x == blk || BitOf(disk[2], x)))
    && f[0] == disk[0] && (forall b :: 8 <= b < |disk| ==> f[b] == disk[b])
  }

  /**
   mcsfs1_create with an admissible name: EXIST if an entry has it, NOSPC if entries, inodes or data
   blocks have run out, both with no change; otherwise the lowest of each is taken.
   */
  lemma {:induction false} CreateSays(disk: Disk, name: seq<byte>)
    requires 0 < |name| <= 27
    ensures var r := Create(disk, name);
            if exists j :: 0 <= j < 16 && Match(disk[7], name, j) then r == Result(disk, Exist)
            else if (forall j :: 0 <= j < 16 ==> Field(disk[7], 32 * j, 4) != 0)
                    || (forall i :: 2 <= i <= 32 ==> BitOf(disk[1], i))
                    || (forall b :: 8 <= b < |disk| ==> BitOf(disk[2], b)) then r == Result(disk, NoSpc)
            else r.rc == Ok && exists slot, ino, blk ::
              Lowest(disk, slot, ino, blk) && Created(disk, r.disk, name, slot, ino, blk)
  {
    hide Match, BitOf, Field, Install, FreeSlot, FindSlot, FirstClear, Created;
    var slot, ino, blk := FreeSlot(disk[7], 0), NextIno(disk), NextBlk(disk);
    var s := FindSlot(disk[7], name, 0);
    EntriesUsed(disk, slot);
    assert s < 16 ==> Match(disk[7], name, s);
    if Create(disk, name).rc == Ok {
      assert Lowest(disk, slot, ino, blk);
      InstallSays(disk, slot, ino, blk, name);
    }
  }

  lemma {:induction false} EntriesUsed(disk: Disk, slot: nat)
    requires slot <= 16 && forall k :: 0 <= k < slot ==> SlotIno(disk[7], k) != 0
    ensures forall k :: 0 <= k < slot ==> Field(disk[7], 32 * k, 4) != 0
  {
    hide Field;
    forall k | 0 <= k < slot ensures Field(disk[7], 32 * k, 4) != 0 { assert SlotIno(disk[7], k) != 0; }
  }

  lemma {:induction false} InstallSays(disk: Disk, slot: nat, ino: nat, blk: nat, name: seq<byte>)
    requires slot < 16 && 2 <= ino <= 32 && 8 <= blk < |disk| && |name| <= 27
    ensures Created(disk, Install(disk, slot, ino, blk, name), name, slot, ino, blk)
  {
    hide Install, BitOf, BitSet, Field, ReadInode, SetSlot, FreshInode, NewInode, Padded;
    var f := Install(disk, slot, ino, blk, name);
    InstalledIs(disk, slot, ino, blk, name);
    InstallRest(disk, slot, ino, blk, name);
    InstallInode(disk, slot, ino, blk, name, ino);
    FreshIs(f, ino, 1, 0, blk);
    SlotBytes(disk[7], slot, ino, name);
    SlotType(disk[7], slot, ino, name);
    forall i | 1 <= i <= 32 && i != ino ensures ReadInode(f, i) == ReadInode(disk, i) {
      InstallInode(disk, slot, ino, blk, name, i);
    }
    forall k | 0 <= k < 16 && k != slot ensures f[7][32 * k..32 * k + 32] == disk[7][32 * k..32 * k + 32] {
      SlotOther(disk[7], slot, ino, name, k);
    }
    forall x | 0 <= x < 4096
      ensures (BitOf(f[1], x) <==> x == ino || BitOf(disk[1], x)) && (BitOf(f[2], x) <==> x == blk || BitOf(disk[2], x))
    {
      BitSetAt(disk[1], ino, x);
      BitSetAt(disk[2], blk, x);
    }
  }

  lemma {:induction false} InstallRest(disk: Disk, slot: nat, ino: nat, blk: nat, name: seq<byte>)
    requires slot < 16 && 2 <= ino <= 32 && 8 <= blk < |disk| && |name| <= 27
    ensures var f := Install(disk, slot, ino, blk, name);
            f[0] == disk[0] && forall b :: 8 <= b < |disk| ==> f[b] == disk[b]
  {
    hide BitSet, SetSlot, NewInode, Splice;
  }

  lemma {:induction false} SlotType(dir: Block, slot: nat, ino: nat, name: seq<byte>)
    requires slot < 16 && ino <= 32 && |name| <= 27
    ensures SetSlot(dir, slot, ino, name)[32 * slot + 4] == 1
  {
    hide Padded, Encode;
    var x: seq<byte> := Encode(ino, 4) + [1] + Padded(name, 27);
    assert x[4] == 1;
  }

  lemma {:induction false} SlotOther(dir: Block, slot: nat, ino: nat, name: seq<byte>, k: nat)
    requires slot < 16 && ino <= 32 && |name| <= 27 && k < 16 && k != slot
    ensures SetSlot(dir, slot, ino, name)[32 * k..32 * k + 32] == dir[32 * k..32 * k + 32]
  {
    hide Padded, Encode;
    SpliceOther(dir, 32 * slot, Encode(ino, 4) + [MODE_FILE] + Padded(name, 27), 32 * k, 32);
  }

  /** Entry j is the first with that name. */
  predicate FirstMatch(disk: Disk, name: seq<byte>, j: nat) {
    j < 16 && Match(disk[7], name, j) && forall k :: 0 <= k < j ==> !Match(disk[7], name, k)
  }

  lemma {:induction false} FirstFound(disk: Disk, name: seq<byte>, j: nat)
    requires FirstMatch(disk, name, j)
    ensures FindSlot(disk[7], name, 0) == j && Field(disk[7], 32 * j, 4) == SlotIno(disk[7], j) >= 1
  {
    hide NameOf, Field;
  }

  /**
   mcsfs1_unlink through entry j: INVAL for an inode number above 32; otherwise the entry is zeroed,
   the inode's bit and its blocks' bits are cleared, and nothing else changes.
   */
  lemma {:induction false} UnlinkSays(disk: Disk, name: seq<byte>, j: nat, x: nat)
    requires 0 < |name| <= 27 && FirstMatch(disk, name, j) && x < 4096
    ensures var r, ino := Unlink(disk, name), Field(disk[7], 32 * j, 4);
            if ino == 0 || ino > 32 then r == Result(disk, Inval)
            else
              && r.rc == Ok && |r.disk| == |disk| && r.disk[7][32 * j..32 * j + 32] == Zeros(32)
              && (forall k :: 0 <= k < 16 && k != j ==> r.disk[7][32 * k..32 * k + 32] == disk[7][32 * k..32 * k + 32])
              && (BitOf(r.disk[1], x) <==> x != ino && BitOf(disk[1], x))
              && (BitOf(r.disk[2], x) <==>
                    BitOf(disk[2], x) && !(0 < x < |disk| && exists d :: 0 <= d < 8 && Ptr(disk, ino, d) == x))
              && (forall b :: 0 <= b < |disk| && b !in {1, 2, 7} ==> r.disk[b] == disk[b])
  {
    hide Match, BitOf, Field, Remove, FindSlot, ReadInode, Ptr;
    FirstFound(disk, name, j);
    var ino := Field(disk[7], 32 * j, 4);
    if ino <= 32 {
      RemoveSays(disk, j, ino);
      BitClearAt(disk[1], ino, x);
      ClearBitsAt(disk[2], ReadInode(disk, ino), |disk|, DIRECT, x);
      PtrIs(disk, ino);
    }
  }

  lemma {:induction false} RemoveSays(disk: Disk, j: nat, ino: nat)
    requires j < 16 && 1 <= ino <= 32
    ensures var f := Remove(disk, j, ino);
            && |f| == |disk| && f[1] == BitClear(disk[1], ino)
            && f[2] == ClearBits(disk[2], ReadInode(disk, ino), |disk|, DIRECT)
            && f[7][32 * j..32 * j + 32] == Zeros(32)
            && (forall k :: 0 <= k < 16 && k != j ==> f[7][32 * k..32 * k + 32] == disk[7][32 * k..32 * k + 32])
            && (forall b :: 0 <= b < |disk| && b !in {1, 2, 7} ==> f[b] == disk[b])
  {
    hide ClearBits, BitClear, ReadInode, Splice;
    var f := Remove(disk, j, ino);
    assert f[7] == Splice(disk[7], 32 * j, Zeros(32));
    SpliceSame(disk[7], 32 * j, Zeros(32));
    forall k | 0 <= k < 16 && k != j ensures f[7][32 * k..32 * k + 32] == disk[7][32 * k..32 * k + 32] {
      SpliceOther(disk[7], 32 * j, Zeros(32), 32 * k, 32);
    }
  }

  // ---------- read, and write refused, on any disk ----------

  /** The first of the direct blocks that a read of size bytes visits and cannot read. */
  predicate FirstBad(disk: Disk, ino: nat, size: nat, i: nat)
    requires 1 <= ino <= 32
  {
    && i < 8 && 512 * i < size && (forall d :: 0 <= d < i ==> 0 < Ptr(disk, ino, d) < |disk|)
    && !(0 < Ptr(disk, ino, i) < |disk|)
  }

  /**
   mcsfs1_read through entry j: INVAL for an inode number above 32, ISDIR unless it is a file, RANGE
   if the buffer is too small, CORRUPT at a missing block and RANGE at one beyond the device.
   */
  lemma {:induction false} ReadRefuses(disk: Disk, name: seq<byte>, cap: nat, j: nat, i: nat)
    requires 0 < |name| <= 27 && FirstMatch(disk, name, j)
    ensures var r, ino := Read(disk, name, cap), Field(disk[7], 32 * j, 4);
            && ino != 0
            && if ino > 32 then r == ReadErr(Inval)
               else if InoField(disk, ino, 0, 2) != 1 then r == ReadErr(IsDir)
               else if InoField(disk, ino, 4, 4) > cap then r == ReadErr(Range)
               else FirstBad(disk, ino, InoField(disk, ino, 4, 4), i) ==>
                 r == ReadErr(if Ptr(disk, ino, i) == 0 then Corrupt else Range)
  {
    hide Match, Field, FindSlot, ReadInode, Ptr, InoField, Gather, Unreadable;
    FirstFound(disk, name, j);
    var ino := Field(disk[7], 32 * j, 4);
    if ino <= 32 {
      HeadIs(disk, ino);
      PtrIs(disk, ino);
      if FirstBad(disk, ino, InoField(disk, ino, 4, 4), i) {
        VisitedIs(InoField(disk, ino, 4, 4), i);
        assert Unreadable(ReadInode(disk, ino), |disk|, 0, Visited(InoField(disk, ino, 4, 4))) == i;
      }
    }
  }

  lemma {:induction false} VisitedIs(size: nat, i: nat)
    ensures i < Visited(size) <==> i < 8 && 512 * i < size
  {
  }

  /** Otherwise it answers OK, and byte k is byte k % 512 of direct block k / 512; at most 4096 bytes are copied. */
  lemma {:induction false} ReadSays(disk: Disk, name: seq<byte>, cap: nat, j: nat, k: nat)
    requires 0 < |name| <= 27 && FirstMatch(disk, name, j)
    requires var ino := Field(disk[7], 32 * j, 4);
             && 1 <= ino <= 32 && InoField(disk, ino, 0, 2) == 1 && InoField(disk, ino, 4, 4) <= cap
             && k < 4096 && k < InoField(disk, ino, 4, 4)
             && forall d :: 0 <= d < 8 && 512 * d < InoField(disk, ino, 4, 4) ==> 0 < Ptr(disk, ino, d) < |disk|
    ensures var r, ino := Read(disk, name, cap), Field(disk[7], 32 * j, 4);
            var size := InoField(disk, ino, 4, 4);
            && (if size <= 4096 then r.ReadOk? && |r.data| == size
                else r.ReadShort? && |r.data| == 4096 && r.claimed == size)
            && r.data[k] == disk[Ptr(disk, ino, k / 512)][k % 512]
  {
    hide Match, Field, FindSlot, ReadInode, Ptr, InoField, Gather, Unreadable, Visited, Direct;
    FirstFound(disk, name, j);
    var ino := Field(disk[7], 32 * j, 4);
    var b, size := ReadInode(disk, ino), InoField(disk, ino, 4, 4);
    HeadIs(disk, ino);
    PtrIs(disk, ino);
    var n := Visited(size);
    forall d | 0 <= d < n ensures 0 < Direct(b, d) < |disk| { VisitedIs(size, d); }
    assert Unreadable(b, |disk|, 0, n) == n;
    VisitedIs(size, k / 512);
    VisitedCovers(size);
    GatherLength(disk, b, n);
    GatherAt(disk, b, n, k / 512, k % 512);
    assert k == 512 * (k / 512) + k % 512;
  }

  lemma {:induction false} VisitedCovers(size: nat)
    ensures if size <= 4096 then size <= 512 * Visited(size) else Visited(size) == 8
  {
  }

  lemma {:induction false} GatherAt(disk: Disk, b: Inode, k: nat, d: nat, o: nat)
    requires d < k <= 8 && o < 512 && forall e :: 0 <= e < k ==> 0 < Direct(b, e) < |disk|
    ensures |Gather(disk, b, k)| == 512 * k && Gather(disk, b, k)[512 * d + o] == disk[Direct(b, d)][o]
  {
    hide Direct;
    GatherLength(disk, b, k);
    GatherLength(disk, b, k - 1);
    if d < k - 1 { GatherAt(disk, b, k - 1, d, o); }
  }

  /** A name that no entry has: NOENT for read, write and unlink, and no change. */
  lemma {:induction false} NobodySays(disk: Disk, name: seq<byte>, buf: seq<byte>, cap: nat)
    requires 0 < |name| <= 27 && |buf| <= 4096 && forall j :: 0 <= j < 16 ==> !Match(disk[7], name, j)
    ensures Read(disk, name, cap) == ReadErr(NoEnt)
    ensures Write(disk, name, buf) == Result(disk, NoEnt) && Unlink(disk, name) == Result(disk, NoEnt)
  {
    hide Match, WriteFile, ReadFile, Remove;
    assert FindSlot(disk[7], name, 0) == 16;
  }

  /** A write through entry j: INVAL for an inode number above 32, ISDIR unless it is a file, and no change. */
  lemma {:induction false} WriteRefuses(disk: Disk, name: seq<byte>, buf: seq<byte>, j: nat)
    requires 0 < |name| <= 27 && FirstMatch(disk, name, j) && |buf| <= 4096
    ensures var r, ino := Write(disk, name, buf), Field(disk[7], 32 * j, 4);
            && ino != 0
            && (ino > 32 ==> r == Result(disk, Inval))
            && (ino <= 32 && InoField(disk, ino, 0, 2) != 1 ==> r == Result(disk, IsDir))
  {
    hide Match, Field, FindSlot, ReadInode, InoField, Grow, Fill, OffDevice, SetSize;
    FirstFound(disk, name, j);
    var ino := Field(disk[7], 32 * j, 4);
    if ino <= 32 { HeadIs(disk, ino); }
  }

  /** On any disk, a write to a file answers NOSPC, then RANGE for a block beyond the device, and else OK. */
  lemma {:induction false} WriteAnswers(disk: Disk, name: seq<byte>, buf: seq<byte>, j: nat)
    requires 0 < |name| <= 27 && FirstMatch(disk, name, j) && |buf| <= 4096
    requires 1 <= Field(disk[7], 32 * j, 4) <= 32 && InoField(disk, Field(disk[7], 32 * j, 4), 0, 2) == 1
    ensures var ino := Field(disk[7], 32 * j, 4);
            Write(disk, name, buf).rc ==
            if |Fresh(disk, ino, |buf|)| > |FreeBlocks(disk)| then NoSpc
            else if exists d :: 0 <= d < 8 && Reached(d, |buf|) && Ptr(disk, ino, d) >= |disk| then Range
            else Ok
  {
    hide Match, Field, FindSlot, ReadInode, InoField, Ptr, Grow, Fill, OffDevice, SetSize, Direct, Need, FreeBlocks;
    hide Fresh, Missing;
    FirstFound(disk, name, j);
    var ino := Field(disk[7], 32 * j, 4);
    HeadIs(disk, ino);
    PtrIs(disk, ino);
    MissingIsFresh(disk, ino, |buf|);
    var need := Need(|buf|);
    GrowFills(disk, ReadInode(disk, ino), 0, need);
    forall d: nat ensures d < need <==> Reached(d, |buf|) { NeedIs(|buf|, d); }
  }
}
