/**
 Blocks that are marked but belong to no file. mcsfs1_write marks blocks one by one before
 it stores the inode, so a write that runs out of space leaves what it had marked behind;
 here is exactly when that happens, over every run.
 */
module McsLoss {
  import opened Bytes
  import opened Mcsfs1
  import opened McsInv
  import opened McsOps
  import opened McsWrite
  import opened McsRuns

  // ---------- owned and lost blocks ----------

  predicate HasBlock(b: Inode, x: nat) {
    exists d :: 0 <= d < DIRECT && Direct(b, d) == x
  }

  /** Block x is in the inode of live entry j. */
  predicate Owns(disk: Disk, j: nat, x: nat)
    requires j < DIRENTS
  {
    Live(disk, j) && 1 <= InoOf(disk, j) <= MAX_INODES && HasBlock(ReadInode(disk, InoOf(disk, j)), x)
  }

  predicate OwnedElsewhere(disk: Disk, slot: nat, x: nat) {
    exists j :: 0 <= j < DIRENTS && j != slot && Owns(disk, j, x)
  }

  predicate Referenced(disk: Disk, x: nat) {
    exists j :: 0 <= j < DIRENTS && Owns(disk, j, x)
  }

  /** The data blocks that are marked and in no live entry's inode. */
  function Lost(disk: Disk): set<nat> {
    set x: nat | DATA_START <= x < |disk| && BitOf(disk[BLOCK_BMAP], x) && !Referenced(disk, x)
  }

  /** A write of an existing file that needs more data blocks than the free ones, while there are some. */
  ghost predicate Overdraws(disk: Disk, op: Op) {
    && FsOk(disk) && op.DoWrite? && |op.data| <= 4096 && op.name in Files(disk)
    && 0 < |FreeBlocks(disk)| < Wanted(disk, op.name, |op.data|)
  }

  // ---------- what the operations do to them ----------

  lemma {:induction false} ReferencedSplit(disk: Disk, slot: nat, x: nat)
    requires slot < DIRENTS
    ensures Referenced(disk, x) <==> Owns(disk, slot, x) || OwnedElsewhere(disk, slot, x)
  {
    hide Owns;
  }

  lemma {:induction false} KeptOwns(a: Disk, b: Disk, j: nat, x: nat)
    requires j < DIRENTS && SlotOk(a, j) && Kept(a, b, j)
    ensures Owns(a, j, x) <==> Owns(b, j, x)
  {
    hide Field, NameOf, HasBlock, BitOf, InodeOk, ReadInode, BlocksKept;
  }

  /** Entries that are kept own what they did. */
  lemma {:induction false} OthersOwn(a: Disk, b: Disk, slot: nat, x: nat)
    requires slot < DIRENTS && forall j :: 0 <= j < DIRENTS && j != slot ==> SlotOk(a, j) && Kept(a, b, j)
    ensures OwnedElsewhere(a, slot, x) <==> OwnedElsewhere(b, slot, x)
  {
    hide SlotOk, Kept, Owns;
    forall j | 0 <= j < DIRENTS && j != slot ensures Owns(a, j, x) <==> Owns(b, j, x) { KeptOwns(a, b, j, x); }
  }

  /** A free block is in no file. */
  lemma {:induction false} FreeUnowned(disk: Disk, j: nat, x: nat)
    requires FsOk(disk) && j < DIRENTS && DATA_START <= x < |disk| && !BitOf(disk[BLOCK_BMAP], x)
    ensures !Owns(disk, j, x)
  {
    hide SystemOk, BitOf, NameOf, Field, InodeOk;
    assert SlotOk(disk, j);
    if Live(disk, j) { UnmarkedUnused(disk, ReadInode(disk, InoOf(disk, j)), x); }
  }

  lemma {:induction false} FreeUnreferenced(disk: Disk, x: nat)
    requires FsOk(disk) && DATA_START <= x < |disk| && !BitOf(disk[BLOCK_BMAP], x)
    ensures !Referenced(disk, x)
  {
    hide FsOk, Owns, BitOf;
    forall j | 0 <= j < DIRENTS ensures !Owns(disk, j, x) { FreeUnowned(disk, j, x); }
  }

  // ---------- create ----------

  lemma {:induction false} NewInodeHas(blk: nat, x: nat)
    requires 0 < blk < 4096 && x != 0
    ensures HasBlock(NewInode(MODE_FILE, 0, blk), x) <==> x == blk
  {
    hide NewInode, Direct;
    NewInodeAt(MODE_FILE, 0, blk);
  }

  lemma {:induction false} InstallLost(disk: Disk, slot: nat, ino: nat, blk: nat, name: seq<byte>)
    requires FsOk(disk) && CString(name) && 0 < |name| < MAX_NAME
    requires slot < DIRENTS && !Live(disk, slot) && 2 <= ino <= MAX_INODES && DATA_START <= blk < |disk|
    requires !BitOf(disk[INODE_BMAP], ino) && !BitOf(disk[BLOCK_BMAP], blk)
    ensures var d := Install(disk, slot, ino, blk, name);
            Lost(d) == Lost(disk) && FreeBlocks(d) == FreeBlocks(disk) - {blk}
  {
    hide FsOk, Install, BitOf, BitSet, Kept, Owns, SlotOk, Referenced, OwnedElsewhere;
    var d := Install(disk, slot, ino, blk, name);
    InstalledIs(disk, slot, ino, blk, name);
    forall j | 0 <= j < DIRENTS && j != slot ensures SlotOk(disk, j) && Kept(disk, d, j) {
      FsOkSlot(disk, j);
      InstallOthers(disk, slot, ino, blk, name, j);
    }
    forall x | DATA_START <= x < |disk|
      ensures (BitOf(d[BLOCK_BMAP], x) <==> x == blk || BitOf(disk[BLOCK_BMAP], x))
      ensures Referenced(d, x) <==> x == blk || Referenced(disk, x)
    {
      BitSetAt(disk[BLOCK_BMAP], blk, x);
      OthersOwn(disk, d, slot, x);
      ReferencedSplit(disk, slot, x);
      ReferencedSplit(d, slot, x);
      InstallOwns(disk, slot, ino, blk, name, x);
    }
  }

  lemma {:induction false} InstallOwns(disk: Disk, slot: nat, ino: nat, blk: nat, name: seq<byte>, x: nat)
    requires slot < DIRENTS && !Live(disk, slot) && 2 <= ino <= MAX_INODES && DATA_START <= blk < |disk| && x != 0
    requires CString(name) && 0 < |name| < MAX_NAME
    ensures !Owns(disk, slot, x) && (Owns(Install(disk, slot, ino, blk, name), slot, x) <==> x == blk)
  {
    hide Install, NewInode, HasBlock, InodeOk, BitOf, NameOf, Field, FileData;
    InstallNew(disk, slot, ino, blk, name);
    NewInodeHas(blk, x);
  }

  // ---------- unlink ----------

  lemma {:induction false} RemoveLost(disk: Disk, slot: nat)
    requires FsOk(disk) && slot < DIRENTS && Live(disk, slot)
    ensures SlotOk(disk, slot) && Lost(Remove(disk, slot, InoOf(disk, slot))) == Lost(disk)
  {
    FsOkSlot(disk, slot);
    var ino := InoOf(disk, slot);
    var d, n := Remove(disk, slot, ino), ReadInode(disk, ino);
    assert |d| == |disk| && d[BLOCK_BMAP] == ClearBits(disk[BLOCK_BMAP], n, |disk|, DIRECT) by {
      RemoveBits(disk, slot, ino);
    }
    hide Remove, BitOf, ClearBits, Kept, Owns, SlotOk, Referenced, OwnedElsewhere, HasBlock, ReadInode;
    forall j | 0 <= j < DIRENTS && j != slot ensures SlotOk(disk, j) && Kept(disk, d, j) {
      FsOkSlot(disk, j);
      FsOkApart(disk, slot, j);
      RemoveKept(disk, slot, j);
    }
    RemovedDead(disk, slot, ino);
    hide FsOk;
    forall x | DATA_START <= x < |disk|
      ensures BitOf(d[BLOCK_BMAP], x) && !Referenced(d, x) <==> BitOf(disk[BLOCK_BMAP], x) && !Referenced(disk, x)
    {
      ClearedHas(disk[BLOCK_BMAP], n, |disk|, x);
      OthersOwn(disk, d, slot, x);
      ReferencedSplit(disk, slot, x);
      ReferencedSplit(d, slot, x);
      OwnsIs(disk, slot, x);
      DeadOwns(d, slot, x);
    }
  }

  lemma {:induction false} FsOkApart(disk: Disk, j: nat, k: nat)
    requires FsOk(disk) && j < DIRENTS && k < DIRENTS && j != k
    ensures SlotOk(disk, j) && SlotOk(disk, k) && Apart(disk, j, k)
  {
    hide SystemOk, SlotOk;
  }

  lemma {:induction false} RemoveBits(disk: Disk, slot: nat, ino: nat)
    requires slot < DIRENTS && 1 <= ino <= MAX_INODES
    ensures var d := Remove(disk, slot, ino);
            |d| == |disk| && d[BLOCK_BMAP] == ClearBits(disk[BLOCK_BMAP], ReadInode(disk, ino), |disk|, DIRECT)
  {
    hide ClearBits, ClearSlot, BitClear, ReadInode;
  }

  lemma {:induction false} ClearedHas(bb: Block, n: Inode, size: nat, x: nat)
    requires 0 < x < size <= 4096
    ensures BitOf(ClearBits(bb, n, size, DIRECT), x) <==> BitOf(bb, x) && !HasBlock(n, x)
  {
    hide BitOf, ClearBits, Direct;
    ClearBitsAt(bb, n, size, DIRECT, x);
  }

  lemma {:induction false} OwnsIs(disk: Disk, slot: nat, x: nat)
    requires slot < DIRENTS && Live(disk, slot) && SlotOk(disk, slot)
    ensures Owns(disk, slot, x) <==> HasBlock(ReadInode(disk, InoOf(disk, slot)), x)
  {
    hide HasBlock, ReadInode, InodeOk, BitOf, NameOf;
  }

  lemma {:induction false} DeadOwns(disk: Disk, slot: nat, x: nat)
    requires slot < DIRENTS && !Live(disk, slot)
    ensures !Owns(disk, slot, x)
  {
  }

  // ---------- write ----------

  lemma {:induction false} SetDirectHas(b: Inode, i: nat, blk: nat, x: nat)
    requires i < DIRECT && Direct(b, i) == 0 && blk < 4096 && x != 0
    ensures HasBlock(SetDirect(b, i, blk), x) <==> HasBlock(b, x) || x == blk
  {
    hide Direct, SetDirect;
    SetDirectAt(b, i, blk);
    var c := SetDirect(b, i, blk);
    assert Direct(c, i) == blk;
    forall d | 0 <= d < DIRECT && Direct(b, d) == x ensures HasBlock(c, x) { assert Direct(c, d) == x; }
    forall d | 0 <= d < DIRECT && Direct(c, d) == x ensures HasBlock(b, x) || x == blk {
      assert d != i ==> Direct(b, d) == x;
    }
  }

  /**
   Growing marks exactly the blocks it adds to the inode. If it fails, it has marked every
   data block there was.
   */
  lemma {:induction false} GrowTakes(disk: Disk, b: Inode, i: nat, need: nat, x: nat)
    requires i <= need <= DIRECT && DATA_START <= x < |disk|
    ensures var g := Grow(disk, b, i, need);
            && |g.disk| == |disk|
            && (g.ok ==>
                  && (BitOf(disk[BLOCK_BMAP], x) ==> BitOf(g.disk[BLOCK_BMAP], x))
                  && (HasBlock(g.inode, x) <==>
                        HasBlock(b, x) || (BitOf(g.disk[BLOCK_BMAP], x) && !BitOf(disk[BLOCK_BMAP], x))))
            && (!g.ok ==> BitOf(g.disk[BLOCK_BMAP], x))
    decreases need - i
  {
    hide Direct, BitOf, BitSet, SetDirect, HasBlock, FirstClear;
    if i < need {
      if Direct(b, i) != 0 {
        GrowTakes(disk, b, i + 1, need, x);
      } else {
        var blk := NextBlk(disk);
        if blk < |disk| {
          BitSetAt(disk[BLOCK_BMAP], blk, x);
          SetDirectHas(b, i, blk, x);
          GrowTakes(MarkBlock(disk, blk), SetDirect(b, i, blk), i + 1, need, x);
        }
      }
    }
  }

  lemma {:induction false} MetaOwns(a: Disk, b: Disk, x: nat)
    requires SameMeta(a, b)
    ensures Referenced(a, x) <==> Referenced(b, x)
    ensures forall slot :: OwnedElsewhere(a, slot, x) <==> OwnedElsewhere(b, slot, x)
  {
    hide HasBlock, Field;
    forall j | 0 <= j < DIRENTS ensures Owns(a, j, x) <==> Owns(b, j, x) {}
    hide Owns;
  }

  /** A write that runs out of space has marked every data block, and no file has any more than before. */
  lemma {:induction false} FailedLost(disk: Disk, slot: nat, need: nat)
    requires FsOk(disk) && slot < DIRENTS && Live(disk, slot) && SlotOk(disk, slot) && need <= DIRECT
    requires !Grow(disk, ReadInode(disk, InoOf(disk, slot)), 0, need).ok
    ensures var d := Grow(disk, ReadInode(disk, InoOf(disk, slot)), 0, need).disk;
            FreeBlocks(d) == {} && Lost(d) == Lost(disk) + FreeBlocks(disk)
  {
    hide FsOk, Grow, BitOf, Referenced, OwnedElsewhere, HasBlock, ReadInode, Direct, Fits, Files, Missing, InodeOk;
    hide NameOf, Field;
    var b := ReadInode(disk, InoOf(disk, slot));
    OwnFits(disk, slot);
    GrowKeeps(disk, slot, b, 0, need);
    var d := Grow(disk, b, 0, need).disk;
    forall x | DATA_START <= x < |disk|
      ensures BitOf(d[BLOCK_BMAP], x) && (Referenced(d, x) <==> Referenced(disk, x))
      ensures !BitOf(disk[BLOCK_BMAP], x) ==> !Referenced(disk, x)
    {
      GrowTakes(disk, b, 0, need, x);
      MetaOwns(disk, d, x);
      if !BitOf(disk[BLOCK_BMAP], x) { FreeUnreferenced(disk, x); }
    }
  }

  /** A write that succeeds loses nothing: what it marks it also puts in the inode. */
  lemma {:induction false} StoredLost(disk: Disk, slot: nat, buf: seq<byte>)
    requires FsOk(disk) && slot < DIRENTS && Live(disk, slot) && SlotOk(disk, slot) && |buf| <= 4096
    requires Need(|buf|) <= DIRECT && Grow(disk, ReadInode(disk, InoOf(disk, slot)), 0, Need(|buf|)).ok
    ensures var g := Grow(disk, ReadInode(disk, InoOf(disk, slot)), 0, Need(|buf|));
            Lost(Stored(g.disk, InoOf(disk, slot), g.inode, buf)) == Lost(disk)
  {
    hide FsOk, Grow, BitOf, Referenced, OwnedElsewhere, HasBlock, ReadInode, Direct, Fits, Files, Missing, InodeOk;
    hide Stored, Need, Kept, SetSize, SelfApart, NameOf, Field;
    var ino := InoOf(disk, slot);
    var b := ReadInode(disk, ino);
    OwnFits(disk, slot);
    GrowKeeps(disk, slot, b, 0, Need(|buf|));
    var g := Grow(disk, b, 0, Need(|buf|));
    MetaSlot(disk, g.disk, slot);
    FitsInode(g.disk, slot, g.inode);
    FitsSound(g.disk, g.inode, Need(|buf|));
    var f := Stored(g.disk, ino, g.inode, buf);
    forall j | 0 <= j < DIRENTS && j != slot ensures SlotOk(g.disk, j) && Kept(g.disk, f, j) {
      StoredKept(g.disk, slot, g.inode, buf, j);
    }
    StoredAt(g.disk, ino, g.inode, buf);
    forall x | DATA_START <= x < |disk|
      ensures BitOf(f[BLOCK_BMAP], x) && !Referenced(f, x) <==> BitOf(disk[BLOCK_BMAP], x) && !Referenced(disk, x)
    {
      GrowTakes(disk, b, 0, Need(|buf|), x);
      MetaOwns(disk, g.disk, x);
      OthersOwn(g.disk, f, slot, x);
      ReferencedSplit(disk, slot, x);
      ReferencedSplit(f, slot, x);
      OwnsIs(disk, slot, x);
      StoredOwns(g.disk, slot, g.inode, buf, x);
    }
  }

  lemma {:induction false} StoredOwns(disk: Disk, slot: nat, b: Inode, buf: seq<byte>, x: nat)
    requires slot < DIRENTS && Live(disk, slot) && SlotOk(disk, slot) && |buf| <= 4096 && Sound(disk, b, Need(|buf|))
    ensures Owns(Stored(disk, InoOf(disk, slot), b, buf), slot, x) <==> HasBlock(b, x)
  {
    hide Stored, Sound, ReadInode, SetSize, Direct, InodeOk, BitOf, NameOf, Field, Need;
    StoredAt(disk, InoOf(disk, slot), b, buf);
    SetSizeAt(b, |buf|);
    var c := SetSize(b, |buf|);
    forall d | 0 <= d < DIRECT ensures Direct(b, d) == Direct(c, d) {}
  }

  // ---------- one call, every run ----------

  /**
   What one call does to the lost blocks: nothing, except that a write which needs more blocks
   than are free turns every free block into a lost one.
   */
  lemma {:induction false} PerformLost(disk: Disk, op: Op)
    requires Good(disk) && OpOk(op)
    ensures var d := Perform(disk, op).disk;
            && Lost(d) == Lost(disk) + (if Overdraws(disk, op) then FreeBlocks(disk) else {})
            && (Overdraws(disk, op) ==> FreeBlocks(d) == {} && Perform(disk, op).rc == NoSpc)
  {
    hide FsOk, Files, FindSlot, FreeSlot, FirstClear, Install, Remove, WriteFile, Field, ReadInode, NameOf, BitOf;
    hide Lost, FreeBlocks, Tight, Gaps;
    FindIsFiles(disk, op.name);
    EmptyName(disk);
    var s := FindSlot(disk[ROOT_DIR], op.name, 0);
    match op
    case DoCreate(name) =>
      if Create(disk, name).rc == Ok {
        InstallLost(disk, FreeSlot(disk[ROOT_DIR], 0), NextIno(disk), NextBlk(disk), name);
      }
    case DoWrite(name, data) =>
      if |data| <= 4096 && NameOk(name) && s < DIRENTS { WriteLost(disk, s, data); }
    case DoUnlink(name) =>
      if NameOk(name) && s < DIRENTS { RemoveLost(disk, s); }
  }

  lemma {:induction false} WriteLost(disk: Disk, slot: nat, buf: seq<byte>)
    requires FsOk(disk) && slot < DIRENTS && Live(disk, slot) && SlotOk(disk, slot) && |buf| <= 4096
    ensures var r := WriteFile(disk, InoOf(disk, slot), buf);
            var short := |FreeBlocks(disk)| < |Gaps(ReadInode(disk, InoOf(disk, slot)), |buf|)|;
            && r.rc == (if short then NoSpc else Ok)
            && Lost(r.disk) == Lost(disk) + (if short then FreeBlocks(disk) else {})
            && (short ==> FreeBlocks(r.disk) == {})
  {
    hide FsOk, Grow, Lost, FreeBlocks, ReadInode, Direct, Fits, Files, Missing, Stored, Need, WriteFile, Field;
    hide InodeOk, NameOf, BitOf, Gaps;
    var ino := InoOf(disk, slot);
    var b := ReadInode(disk, ino);
    MissingIsGaps(b, |buf|);
    WriteFileIs(disk, slot, buf);
    if Grow(disk, b, 0, Need(|buf|)).ok {
      StoredLost(disk, slot, buf);
    } else {
      FailedLost(disk, slot, Need(|buf|));
    }
  }

  /** On a consistent disk a write either grows and stores, or stops where growing stopped. */
  lemma {:induction false} WriteFileIs(disk: Disk, slot: nat, buf: seq<byte>)
    requires FsOk(disk) && slot < DIRENTS && Live(disk, slot) && SlotOk(disk, slot) && |buf| <= 4096
    requires Need(|buf|) <= DIRECT
    ensures var b, r := ReadInode(disk, InoOf(disk, slot)), WriteFile(disk, InoOf(disk, slot), buf);
            var g := Grow(disk, b, 0, Need(|buf|));
            && (g.ok <==> Missing(b, 0, Need(|buf|)) <= |FreeBlocks(disk)|)
            && r == if g.ok then Result(Stored(g.disk, InoOf(disk, slot), g.inode, buf), Ok) else Result(g.disk, NoSpc)
  {
    hide FsOk, Grow, FreeBlocks, ReadInode, Direct, Fits, Files, Missing, Stored, Need, OffDevice, Mode, Size, Field;
    hide Fill, SetSize, WriteInode, NameOf, BitOf, SelfApart;
    var ino := InoOf(disk, slot);
    var b := ReadInode(disk, ino);
    OwnFits(disk, slot);
    GrowKeeps(disk, slot, b, 0, Need(|buf|));
    var g := Grow(disk, b, 0, Need(|buf|));
    if g.ok {
      AllOnDevice(g.disk, slot, g.inode, Need(|buf|));
      StoredIs(g.disk, ino, g.inode, buf);
    }
  }

  lemma {:induction false} StoredIs(disk: Disk, ino: nat, b: Inode, buf: seq<byte>)
    requires 1 <= ino <= MAX_INODES && |buf| <= 4096
    ensures Stored(disk, ino, b, buf) == WriteInode(Fill(disk, b, buf, Need(|buf|)), ino, SetSize(b, |buf|))
  {
    hide Fill, SetSize, WriteInode, Need;
  }

  /**
   Over every run: a lost block stays lost, and none is lost at the end if and only if none was
   at the start and no call of the run was a write that needed more blocks than were free.
   */
  lemma {:induction false} RunLost(disk: Disk, ops: seq<Op>)
    requires Good(disk) && forall i :: 0 <= i < |ops| ==> OpOk(ops[i])
    ensures Lost(disk) <= Lost(Run(disk, ops))
    ensures Lost(Run(disk, ops)) == {} <==>
            Lost(disk) == {} && forall i :: 0 <= i < |ops| ==> !Overdraws(Run(disk, ops[..i]), ops[i])
    decreases |ops|
  {
    hide Good, Lost, Overdraws, Perform, OpOk;
    if ops != [] {
      var d, rest := Perform(disk, ops[0]).disk, ops[1..];
      assert OpOk(ops[0]);
      PerformRefines(disk, ops[0]);
      PerformLost(disk, ops[0]);
      OverdrawsFree(disk, ops[0]);
      RunLost(d, rest);
      assert ops[..0] == [] && Run(disk, ops[..0]) == disk;
      forall i | 0 < i < |ops| ensures Run(disk, ops[..i]) == Run(d, rest[..i - 1]) && ops[i] == rest[i - 1] {
        assert ops[..i][1..] == rest[..i - 1];
      }
      if forall i :: 0 <= i < |rest| ==> !Overdraws(Run(d, rest[..i]), rest[i]) {
        forall i | 0 < i < |ops| ensures !Overdraws(Run(disk, ops[..i]), ops[i]) {
          assert !Overdraws(Run(d, rest[..i - 1]), rest[i - 1]);
        }
      } else {
        var i :| 0 <= i < |rest| && Overdraws(Run(d, rest[..i]), rest[i]);
        assert Overdraws(Run(disk, ops[..i + 1]), ops[i + 1]);
      }
    }
  }

  lemma {:induction false} OverdrawsFree(disk: Disk, op: Op)
    ensures Overdraws(disk, op) ==> FreeBlocks(disk) != {}
  {
    hide FsOk, Files, Wanted, BitOf;
  }

  /** From a format: blocks are lost exactly if some write of the run needed more than were free. */
  lemma {:induction false} FormattedLoss(n: nat, ops: seq<Op>)
    requires 16 <= n <= 4096 && forall i :: 0 <= i < |ops| ==> OpOk(ops[i])
    ensures Lost(Run(FormatDisk(n), ops)) == {} <==>
            forall i :: 0 <= i < |ops| ==> !Overdraws(Run(FormatDisk(n), ops[..i]), ops[i])
  {
    hide FormatDisk, Good, Overdraws, Run, OpOk, BitOf, Referenced;
    FormatRefines(n);
    RunLost(FormatDisk(n), ops);
    assert Lost(FormatDisk(n)) == {} by {
      assert forall x :: x in Lost(FormatDisk(n)) ==> x in FreeBlocks(FormatDisk(n));
    }
  }

  // ---------- it happens ----------

  /** What a create leaves of the free blocks, the new entry and a one-block entry it had before. */
  lemma {:induction false} CreateLeaves(disk: Disk, name: seq<byte>, j: nat)
    requires Good(disk) && CString(name) && 0 < |name| < MAX_NAME && Create(disk, name).rc == Ok && j < DIRENTS
    ensures var d, s := Create(disk, name).disk, FreeSlot(disk[ROOT_DIR], 0);
            && |FreeBlocks(d)| == |FreeBlocks(disk)| - 1
            && s < DIRENTS && Live(d, s) && NameAt(d, s) == name && OneBlock(d, s)
            && (Live(disk, j) && OneBlock(disk, j) ==> Live(d, j) && NameAt(d, j) == NameAt(disk, j) && OneBlock(d, j))
  {
    hide FsOk, Install, Create, FindSlot, FreeSlot, NextIno, NextBlk, BitOf, NameAt, Tight, OneBlock, SlotOk;
    var s, ino, blk := FreeSlot(disk[ROOT_DIR], 0), NextIno(disk), NextBlk(disk);
    CreateIs(disk, name);
    assert blk in FreeBlocks(disk);
    InstallLost(disk, s, ino, blk, name);
    TakeOne(FreeBlocks(disk), blk);
    InstallOneBlock(disk, s, ino, blk, name);
    if Live(disk, j) {
      FsOkSlot(disk, j);
      InstallOthers(disk, s, ino, blk, name, j);
      KeptOneBlock(disk, Install(disk, s, ino, blk, name), j);
    }
  }

  lemma {:induction false} TakeOne(s: set<nat>, x: nat)
    requires x in s
    ensures |s - {x}| == |s| - 1
  {
  }

  lemma {:induction false} InstallOneBlock(disk: Disk, slot: nat, ino: nat, blk: nat, name: seq<byte>)
    requires slot < DIRENTS && 2 <= ino <= MAX_INODES && DATA_START <= blk < |disk|
    requires CString(name) && 0 < |name| < MAX_NAME
    ensures var d := Install(disk, slot, ino, blk, name); Live(d, slot) && NameAt(d, slot) == name && OneBlock(d, slot)
  {
    hide Install, NewInode, Direct, InodeOk, BitOf, NameOf, Field, FileData;
    InstallNew(disk, slot, ino, blk, name);
    NewInodeAt(MODE_FILE, 0, blk);
  }

  lemma {:induction false} KeptOneBlock(a: Disk, b: Disk, j: nat)
    requires j < DIRENTS && SlotOk(a, j) && Kept(a, b, j) && Live(a, j)
    ensures Live(b, j) && NameAt(b, j) == NameAt(a, j) && (OneBlock(a, j) ==> OneBlock(b, j))
  {
    hide Direct, InodeOk, BitOf, NameOf, Field, ReadInode, BlocksKept;
  }

  /** Entry j has its first direct block and no other. */
  predicate OneBlock(disk: Disk, j: nat)
    requires j < DIRENTS
  {
    && 1 <= InoOf(disk, j) <= MAX_INODES
    && var b := ReadInode(disk, InoOf(disk, j));
       Direct(b, 0) != 0 && forall d :: 1 <= d < DIRECT ==> Direct(b, d) == 0
  }

  /** A full-size write to a file of one block has to find seven. */
  lemma {:induction false} WantsSeven(disk: Disk, slot: nat)
    requires FsOk(disk) && slot < DIRENTS && Live(disk, slot) && OneBlock(disk, slot)
    ensures NameAt(disk, slot) in Files(disk) && Wanted(disk, NameAt(disk, slot), 4096) == 7
  {
    hide FsOk, Files, FindSlot, NameAt, ReadInode, Direct, Field;
    var name := NameAt(disk, slot);
    FindIsFiles(disk, name);
    FilesUpToAt(disk, DIRENTS, slot);
    FilesIs(disk);
    OneName(disk, slot, FindSlot(disk[ROOT_DIR], name, 0));
    var b := ReadInode(disk, InoOf(disk, slot));
    assert Gaps(b, 4096) == Upto(1, 8);
  }

  /** One create, seen through the lemmas above. */
  lemma {:induction false} CreateStep(disk: Disk, name: seq<byte>, j: nat) returns (s: nat)
    requires Good(disk) && Lost(disk) == {} && CString(name) && 0 < |name| < MAX_NAME && j < DIRENTS
    requires name !in Files(disk) && |Files(disk)| < DIRENTS && |FreeBlocks(disk)| > 0
    ensures var d := Perform(disk, DoCreate(name)).disk;
            && Good(d) && Lost(d) == {} && Files(d) == Files(disk)[name := []]
            && |FreeBlocks(d)| == |FreeBlocks(disk)| - 1
            && s < DIRENTS && Live(d, s) && NameAt(d, s) == name && OneBlock(d, s)
            && (Live(disk, j) && OneBlock(disk, j) ==> Live(d, j) && NameAt(d, j) == NameAt(disk, j) && OneBlock(d, j))
  {
    assert FreeBlocks(disk) != {};
    hide FsOk, Files, Create, FreeSlot, OneBlock, NameAt, Lost, BitOf, Tight, Live, FreeBlocks;
    PerformRefines(disk, DoCreate(name));
    NotOverdrawn(disk, name);
    PerformLost(disk, DoCreate(name));
    CreateLeaves(disk, name, j);
    s := FreeSlot(disk[ROOT_DIR], 0);
  }

  lemma {:induction false} NotOverdrawn(disk: Disk, name: seq<byte>)
    ensures !Overdraws(disk, DoCreate(name))
  {
  }

  /** Two creates take two blocks and leave the first file with one. */
  lemma {:induction false} TwoCreates(disk: Disk, a: seq<byte>, b: seq<byte>) returns (s: nat)
    requires Good(disk) && Lost(disk) == {} && Files(disk) == map[] && |FreeBlocks(disk)| > 2 && a != b
    requires CString(a) && 0 < |a| < MAX_NAME && CString(b) && 0 < |b| < MAX_NAME
    ensures var two := Run(disk, [DoCreate(a), DoCreate(b)]);
            && Good(two) && Lost(two) == {} && |FreeBlocks(two)| == |FreeBlocks(disk)| - 2
            && s < DIRENTS && Live(two, s) && NameAt(two, s) == a && OneBlock(two, s)
  {
    hide FsOk, Files, Perform, OneBlock, NameAt, Lost, BitOf, Tight, Live, FreeBlocks, Run;
    s := CreateStep(disk, a, 0);
    var one := Perform(disk, DoCreate(a)).disk;
    assert Files(one).Keys == {a} && |Files(one)| == 1;
    var t := CreateStep(one, b, s);
    RunTwo(disk, DoCreate(a), DoCreate(b));
  }

  lemma {:induction false} RunTwo(disk: Disk, a: Op, b: Op)
    ensures Run(disk, [a, b]) == Perform(Perform(disk, a).disk, b).disk
  {
    hide Perform, Run;
    RunCons(disk, a, [b]);
    RunCons(Perform(disk, a).disk, b, []);
    RunNothing(Perform(Perform(disk, a).disk, b).disk);
    assert [a, b] == [a] + [b] && [b] == [b] + [];
  }

  lemma {:induction false} RunCons(disk: Disk, a: Op, rest: seq<Op>)
    ensures Run(disk, [a] + rest) == Run(Perform(disk, a).disk, rest)
  {
    hide Perform;
    assert ([a] + rest)[1..] == rest;
  }

  lemma {:induction false} RunThree(disk: Disk, a: Op, b: Op, c: Op)
    ensures Run(disk, [a, b, c]) == Perform(Run(disk, [a, b]), c).disk
  {
    hide Perform, Run;
    RunCons(disk, a, [b, c]);
    RunTwo(Perform(disk, a).disk, b, c);
    RunTwo(disk, a, b);
    assert [a, b, c] == [a] + [b, c];
  }

  /** A full-size write to a file of one block, with fewer than seven but some blocks free, loses them all. */
  lemma {:induction false} FullWriteLoses(disk: Disk, slot: nat, data: seq<byte>)
    requires Good(disk) && Lost(disk) == {} && slot < DIRENTS && Live(disk, slot) && OneBlock(disk, slot)
    requires |data| == 4096 && 0 < |FreeBlocks(disk)| < 7
    requires OpOk(DoWrite(NameAt(disk, slot), data))
    ensures var w := DoWrite(NameAt(disk, slot), data);
            && Overdraws(disk, w) && Lost(Perform(disk, w).disk) == FreeBlocks(disk)
            && FreeBlocks(Perform(disk, w).disk) == {}
  {
    hide FsOk, Files, Perform, Wanted, OneBlock, NameAt, Lost, BitOf, Tight, Live, FreeBlocks;
    WantsSeven(disk, slot);
    PerformLost(disk, DoWrite(NameAt(disk, slot), data));
  }

  /**
   The smallest device: create two files, then write 4096 bytes to the first. Six blocks are
   free, seven are needed; the write fails and all six are lost.
   */
  lemma {:induction false} LossHappens()
    ensures var d, a, b, w := FormatDisk(16), DoCreate([97]), DoCreate([98]), DoWrite([97], Zeros(4096));
            && Overdraws(Run(d, [a, b]), w)
            && |Lost(Run(d, [a, b, w]))| == 6 && FreeBlocks(Run(d, [a, b, w])) == {}
  {
    hide FormatDisk, FsOk, Files, Perform, OneBlock, NameAt, Lost, BitOf, Tight, Live, FreeBlocks, Run, Overdraws;
    var d, a, b, w := FormatDisk(16), DoCreate([97]), DoCreate([98]), DoWrite([97], Zeros(4096));
    FormatRefines(16);
    FormattedLoss(16, []);
    RunNothing(d);
    EightFree();
    var s := TwoCreates(d, [97], [98]);
    FullWriteLoses(Run(d, [a, b]), s, Zeros(4096));
    RunThree(d, a, b, w);
  }

  lemma {:induction false} RunNothing(disk: Disk)
    ensures Run(disk, []) == disk
  {
  }

  lemma {:induction false} EightFree()
    ensures |FreeBlocks(FormatDisk(16))| == 8
  {
    hide FormatDisk, Good, Files, BitOf;
    FormatRefines(16);
    assert FreeBlocks(FormatDisk(16)) == Upto(8, 16);
  }
}
