/**
 Every MCSFS1 operation keeps a consistent disk consistent and does to the map of files
 exactly what its name says.
 */
module McsOps {
  import opened Bytes
  import opened Mcsfs1
  import opened McsInv

  // ---------- entries that an operation leaves alone ----------

  /** Entry j, its inode, its bitmap bits and its blocks are the same on b as on a. */
  predicate Kept(a: Disk, b: Disk, j: nat)
    requires j < DIRENTS && SlotOk(a, j)
  {
    && |a| == |b| && InoOf(a, j) == InoOf(b, j)
    && (Live(a, j) ==>
          && NameAt(a, j) == NameAt(b, j)
          && BitOf(b[INODE_BMAP], InoOf(a, j))
          && ReadInode(a, InoOf(a, j)) == ReadInode(b, InoOf(a, j))
          && BlocksKept(a, b, ReadInode(a, InoOf(a, j))))
  }

  predicate BlocksKept(a: Disk, b: Disk, n: Inode) {
    |a| == |b| && forall d :: 0 <= d < DIRECT && 0 < Direct(n, d) < |a| ==>
      a[Direct(n, d)] == b[Direct(n, d)] && BitOf(b[BLOCK_BMAP], Direct(n, d))
  }

  lemma {:induction false} GatherSame(a: Disk, b: Disk, n: Inode, k: nat)
    requires k <= DIRECT && BlocksKept(a, b, n) && forall d :: 0 <= d < k ==> 0 < Direct(n, d) < |a|
    ensures Gather(a, n, k) == Gather(b, n, k)
  {
    hide Direct, BitOf;
    if k > 0 { GatherSame(a, b, n, k - 1); }
  }

  lemma {:induction false} NeedBounds(len: nat)
    requires len <= 4096
    ensures (len + 511) / 512 <= Need(len) <= DIRECT && Need(len) >= 1
  {
  }

  lemma {:induction false} DataSame(a: Disk, b: Disk, n: Inode)
    requires InodeOk(a, n) && BlocksKept(a, b, n)
    ensures FileData(a, n) == FileData(b, n)
  {
    hide Mode, Size, Direct, BitOf, SelfApart, Gather;
    NeedBounds(Size(n));
    var k := (Size(n) + 511) / 512;
    forall d | 0 <= d < k ensures 0 < Direct(n, d) < |a| { assert BlockOk(a, n, d); }
    GatherSame(a, b, n, k);
  }

  lemma {:induction false} KeptInodeOk(a: Disk, b: Disk, n: Inode)
    requires InodeOk(a, n) && BlocksKept(a, b, n)
    ensures InodeOk(b, n)
  {
    hide Mode, Size, Direct, BitOf, SelfApart;
    forall d | 0 <= d < DIRECT ensures BlockOk(b, n, d) { assert BlockOk(a, n, d); }
  }

  lemma {:induction false} KeptOk(a: Disk, b: Disk, j: nat)
    requires j < DIRENTS && SlotOk(a, j) && Kept(a, b, j)
    ensures SlotOk(b, j) && SameFile(a, b, j)
  {
    hide Field, BitOf, NameOf, InodeOk, FileData, ReadInode, BlocksKept;
    if Live(a, j) {
      KeptInodeOk(a, b, ReadInode(a, InoOf(a, j)));
      DataSame(a, b, ReadInode(a, InoOf(a, j)));
    }
  }

  /** One entry changes: consistency follows from the others being kept and the new one being apart. */
  lemma {:induction false} OneEntry(a: Disk, b: Disk, slot: nat)
    requires FsOk(a) && SystemOk(b) && slot <= DIRENTS
    requires forall j :: 0 <= j < DIRENTS && j != slot ==> SlotOk(a, j) && Kept(a, b, j)
    requires slot < DIRENTS ==> SlotOk(b, slot)
    requires slot < DIRENTS && Live(b, slot) ==> forall k :: 0 <= k < DIRENTS && k != slot && Live(a, k) ==>
             Foreign(a, b, slot, k)
    ensures FsOk(b)
    ensures forall j :: 0 <= j < DIRENTS ==> SlotOk(a, j) && SlotOk(b, j)
    ensures forall j :: 0 <= j < DIRENTS && j != slot ==> SameFile(a, b, j)
  {
    hide SystemOk, Field, BitOf, NameOf, InodeOk, FileData, ReadInode, NoShared, BlocksKept;
    forall j | 0 <= j < DIRENTS ensures SlotOk(a, j) && SlotOk(b, j) && (j != slot ==> SameFile(a, b, j)) {
      assert SlotOk(a, j);
      if j != slot { KeptOk(a, b, j); }
    }
    forall j, k | 0 <= j < DIRENTS && 0 <= k < DIRENTS && j != k ensures Apart(b, j, k) {
      assert Apart(a, j, k);
      if j != slot { assert Kept(a, b, j); }
      if k != slot { assert Kept(a, b, k); }
      if slot < DIRENTS && Live(b, slot) && Live(b, j) && Live(b, k) {
        if j == slot { assert Foreign(a, b, slot, k); }
        if k == slot {
          assert Foreign(a, b, slot, j);
          SharedFlip(ReadInode(b, InoOf(b, slot)), ReadInode(a, InoOf(a, j)));
        }
      }
    }
  }

  /** The entry in `slot` on b shares nothing with entry k of a. */
  predicate Foreign(a: Disk, b: Disk, slot: nat, k: nat)
    requires slot < DIRENTS && k < DIRENTS
  {
    && 1 <= InoOf(b, slot) <= MAX_INODES && 1 <= InoOf(a, k) <= MAX_INODES
    && NameAt(b, slot) != NameAt(a, k) && InoOf(b, slot) != InoOf(a, k)
    && NoShared(ReadInode(b, InoOf(b, slot)), ReadInode(a, InoOf(a, k)))
  }

  lemma {:induction false} SharedFlip(x: Inode, y: Inode)
    requires NoShared(x, y)
    ensures NoShared(y, x)
  {
    hide Direct;
  }

  /** A marked block that no entry uses: what a failed write may leave, and nothing else changes. */
  lemma {:induction false} MarkKeeps(disk: Disk, blk: nat)
    requires FsOk(disk) && blk < |disk|
    ensures FsOk(MarkBlock(disk, blk)) && Files(MarkBlock(disk, blk)) == Files(disk)
    ensures forall j :: 0 <= j < DIRENTS ==> SlotOk(disk, j) && Kept(disk, MarkBlock(disk, blk), j)
  {
    hide Field, BitOf, NameOf, InodeOk, FileData, BitSet, Files, NoShared;
    var b := MarkBlock(disk, blk);
    MarkSystem(disk, blk);
    forall j | 0 <= j < DIRENTS ensures SlotOk(disk, j) && Kept(disk, b, j) {
      assert SlotOk(disk, j);
      if Live(disk, j) { MarkBlocks(disk, blk, ReadInode(disk, InoOf(disk, j))); }
    }
    OneEntry(disk, b, DIRENTS);
    SameFiles(disk, b);
  }

  lemma {:induction false} SameFiles(a: Disk, b: Disk)
    requires FsOk(a) && FsOk(b)
    requires forall j :: 0 <= j < DIRENTS ==> SlotOk(a, j) && SlotOk(b, j) && SameFile(a, b, j)
    ensures Files(a) == Files(b)
  {
    hide FsOk, SlotOk, SameFile, Files;
    forall name
      ensures (name in Files(a) <==> name in Files(b)) && (name in Files(a) ==> Files(a)[name] == Files(b)[name])
    {
      FilesDiffer(a, b, DIRENTS, name);
    }
  }

  lemma {:induction false} MarkSystem(disk: Disk, blk: nat)
    requires SystemOk(disk) && blk < |disk|
    ensures SystemOk(MarkBlock(disk, blk))
  {
    hide Field, BitOf, BitSet;
    forall b | 0 <= b < DATA_START
      ensures BitOf(BitSet(disk[BLOCK_BMAP], blk), b)
    {
      BitSetAt(disk[BLOCK_BMAP], blk, b);
    }
  }

  lemma {:induction false} MarkBlocks(disk: Disk, blk: nat, n: Inode)
    requires InodeOk(disk, n) && blk < |disk|
    ensures BlocksKept(disk, MarkBlock(disk, blk), n)
  {
    hide Field, BitOf, BitSet, Mode, Size, Direct, SelfApart;
    forall d | 0 <= d < DIRECT && 0 < Direct(n, d) < |disk|
      ensures disk[Direct(n, d)] == MarkBlock(disk, blk)[Direct(n, d)]
              && BitOf(BitSet(disk[BLOCK_BMAP], blk), Direct(n, d))
    {
      assert BlockOk(disk, n, d);
      BitSetAt(disk[BLOCK_BMAP], blk, Direct(n, d));
    }
  }

  // ---------- create ----------

  lemma {:induction false} InstallSystem(disk: Disk, slot: nat, ino: nat, blk: nat, name: seq<byte>)
    requires SystemOk(disk) && slot < DIRENTS && 2 <= ino <= MAX_INODES && blk < |disk| && |name| <= MAX_NAME
    ensures SystemOk(Install(disk, slot, ino, blk, name))
  {
    hide Field, BitOf, BitSet, SetSlot, NewInode, ReadInode, Mode, Size, Direct;
    var d1 := StoreBitmaps(disk, BitSet(disk[INODE_BMAP], ino), BitSet(disk[BLOCK_BMAP], blk));
    var d := Install(disk, slot, ino, blk, name);
    forall b | 0 <= b < DATA_START
      ensures BitOf(BitSet(disk[BLOCK_BMAP], blk), b)
    {
      BitSetAt(disk[BLOCK_BMAP], blk, b);
    }
    BitSetAt(disk[INODE_BMAP], ino, 0);
    BitSetAt(disk[INODE_BMAP], ino, 1);
    InstallInode(disk, slot, ino, blk, name, ROOT_INO);
  }

  lemma {:induction false} InstallInode(disk: Disk, slot: nat, ino: nat, blk: nat, name: seq<byte>, i: nat)
    requires slot < DIRENTS && 2 <= ino <= MAX_INODES && blk < |disk| && |name| <= MAX_NAME && 1 <= i <= MAX_INODES
    ensures ReadInode(Install(disk, slot, ino, blk, name), i) ==
            if i == ino then NewInode(MODE_FILE, 0, blk) else ReadInode(disk, i)
  {
    hide SetSlot, NewInode, Splice;
    var d1 := StoreBitmaps(disk, BitSet(disk[INODE_BMAP], ino), BitSet(disk[BLOCK_BMAP], blk));
    WriteInodeAt(d1, ino, NewInode(MODE_FILE, 0, blk), i);
    assert ReadInode(d1, i) == ReadInode(disk, i);
  }

  lemma {:induction false} InstallKept(disk: Disk, slot: nat, ino: nat, blk: nat, name: seq<byte>, j: nat)
    requires slot < DIRENTS && 2 <= ino <= MAX_INODES && blk < |disk| && |name| <= MAX_NAME
    requires j < DIRENTS && j != slot && SlotOk(disk, j) && !BitOf(disk[INODE_BMAP], ino)
    requires |NameAt(disk, j)| < MAX_NAME
    ensures Kept(disk, Install(disk, slot, ino, blk, name), j)
  {
    hide Field, BitOf, BitSet, NameOf, NewInode, Mode, Size, SelfApart;
    var d := Install(disk, slot, ino, blk, name);
    OtherSlot(disk[ROOT_DIR], slot, Encode(ino, 4) + [MODE_FILE] + Padded(name, MAX_NAME), j);
    if Live(disk, j) {
      var i := InoOf(disk, j);
      BitSetAt(disk[INODE_BMAP], ino, i);
      InstallInode(disk, slot, ino, blk, name, i);
      var n := ReadInode(disk, i);
      forall e | 0 <= e < DIRECT && 0 < Direct(n, e) < |disk|
        ensures disk[Direct(n, e)] == d[Direct(n, e)] && BitOf(d[BLOCK_BMAP], Direct(n, e))
      {
        assert BlockOk(disk, n, e);
        BitSetAt(disk[BLOCK_BMAP], blk, Direct(n, e));
      }
    }
  }

  /** A dead entry's name is irrelevant, but may be anything; a terminated one is kept. */
  lemma {:induction false} DeadKept(disk: Disk, slot: nat, x: seq<byte>, j: nat)
    requires slot < DIRENTS && j < DIRENTS && j != slot && |x| == 32
    ensures SlotIno(Splice(disk[ROOT_DIR], 32 * slot, x), j) == SlotIno(disk[ROOT_DIR], j)
  {
    SpliceOther(disk[ROOT_DIR], 32 * slot, x, 32 * j, 4);
  }

  lemma {:induction false} InstallOthers(disk: Disk, slot: nat, ino: nat, blk: nat, name: seq<byte>, j: nat)
    requires slot < DIRENTS && 2 <= ino <= MAX_INODES && blk < |disk| && |name| <= MAX_NAME
    requires j < DIRENTS && j != slot && SlotOk(disk, j) && !BitOf(disk[INODE_BMAP], ino)
    ensures Kept(disk, Install(disk, slot, ino, blk, name), j)
  {
    hide Field, BitOf, NameOf, InodeOk, Splice;
    if Live(disk, j) {
      InstallKept(disk, slot, ino, blk, name, j);
    } else {
      DeadKept(disk, slot, Encode(ino, 4) + [MODE_FILE] + Padded(name, MAX_NAME), j);
    }
  }

  lemma {:induction false} InstallNew(disk: Disk, slot: nat, ino: nat, blk: nat, name: seq<byte>)
    requires slot < DIRENTS && 2 <= ino <= MAX_INODES && DATA_START <= blk < |disk| && CString(name)
             && 0 < |name| < MAX_NAME
    ensures var d := Install(disk, slot, ino, blk, name);
            && SlotOk(d, slot) && Live(d, slot) && NameAt(d, slot) == name && InoOf(d, slot) == ino
            && ReadInode(d, ino) == NewInode(MODE_FILE, 0, blk) && DataAt(d, slot) == []
  {
    hide Field, BitOf, BitSet, NameOf, NewInode, SetSlot;
    var d := Install(disk, slot, ino, blk, name);
    NewSlot(disk[ROOT_DIR], slot, ino, name);
    InstallInode(disk, slot, ino, blk, name, ino);
    BitSetAt(disk[INODE_BMAP], ino, ino);
    BitSetAt(disk[BLOCK_BMAP], blk, blk);
    NewInodeAt(MODE_FILE, 0, blk);
  }

  /** An unmarked block is in no consistent inode. */
  lemma {:induction false} UnmarkedUnused(disk: Disk, n: Inode, blk: nat)
    requires InodeOk(disk, n) && blk < |disk| && !BitOf(disk[BLOCK_BMAP], blk) && blk != 0
    ensures forall d :: 0 <= d < DIRECT ==> Direct(n, d) != blk
  {
    hide BitOf, Mode, Size, Direct, SelfApart;
    forall d | 0 <= d < DIRECT ensures Direct(n, d) != blk { assert BlockOk(disk, n, d); }
  }

  lemma {:induction false} InstallForeign(disk: Disk, slot: nat, ino: nat, blk: nat, name: seq<byte>, k: nat)
    requires slot < DIRENTS && 2 <= ino <= MAX_INODES && DATA_START <= blk < |disk| && CString(name)
             && 0 < |name| < MAX_NAME
    requires !BitOf(disk[INODE_BMAP], ino) && !BitOf(disk[BLOCK_BMAP], blk)
    requires k < DIRENTS && k != slot && SlotOk(disk, k) && Live(disk, k) && NameAt(disk, k) != name
    ensures Foreign(disk, Install(disk, slot, ino, blk, name), slot, k)
  {
    hide Field, BitOf, BitSet, NameOf, NewInode, SetSlot, InodeOk, Install, FileData, Direct;
    InstallNew(disk, slot, ino, blk, name);
    NewInodeAt(MODE_FILE, 0, blk);
    UnmarkedUnused(disk, ReadInode(disk, InoOf(disk, k)), blk);
  }

  lemma {:induction false} InstalledIs(d: Disk, slot: nat, ino: nat, blk: nat, name: seq<byte>)
    requires slot < DIRENTS && 2 <= ino <= MAX_INODES && blk < |d| && |name| <= MAX_NAME
    ensures var e := Install(d, slot, ino, blk, name);
            && |e| == |d| && e[ROOT_DIR] == SetSlot(d[ROOT_DIR], slot, ino, name)
            && e[INODE_BMAP] == BitSet(d[INODE_BMAP], ino) && e[BLOCK_BMAP] == BitSet(d[BLOCK_BMAP], blk)
  {
    hide BitSet, SetSlot, NewInode, Splice;
  }

  /** What a successful create has found and written. */
  lemma {:induction false} CreateIs(disk: Disk, name: seq<byte>)
    requires Create(disk, name).rc == Ok
    ensures var s, ino, blk := FreeSlot(disk[ROOT_DIR], 0), NextIno(disk), NextBlk(disk);
            && s < DIRENTS && !Live(disk, s) && 2 <= ino <= MAX_INODES && !BitOf(disk[INODE_BMAP], ino)
            && DATA_START <= blk < |disk| && !BitOf(disk[BLOCK_BMAP], blk) && |name| <= MAX_NAME
            && Create(disk, name).disk == Install(disk, s, ino, blk, name)
  {
    hide FindSlot, FreeSlot, FirstClear, BitOf, Field, Install;
  }

  /** create adds exactly one empty file, or changes nothing. */
  lemma {:induction false} CreateRefines(disk: Disk, name: seq<byte>)
    requires FsOk(disk) && CString(name) && |name| < MAX_NAME
    ensures var r := Create(disk, name);
            && FsOk(r.disk)
            && Files(r.disk) == (if r.rc == Ok then Files(disk)[name := []] else Files(disk))
            && (r.rc == Ok ==> name !in Files(disk) && r.disk != disk)
            && (r.rc == Exist <==> name in Files(disk) && |name| > 0)
            && (r.rc == NameTooLong <==> |name| == 0)
            && r.rc in {Ok, Exist, NameTooLong, NoSpc} && (r.rc != Ok ==> r.disk == disk)
  {
    hide FsOk, Install, FindSlot, FreeSlot, FirstClear, Files, BitOf, SlotOk, NameAt, InoOf, DataAt;
    FindIsFiles(disk, name);
    EmptyName(disk);
    var r := Create(disk, name);
    if r.rc == Ok {
      var slot, ino, blk := FreeSlot(disk[ROOT_DIR], 0), NextIno(disk), NextBlk(disk);
      var d := r.disk;
      InstallRefines(disk, slot, ino, blk, name);
    }
  }

  lemma {:induction false} EmptyName(disk: Disk)
    requires FsOk(disk)
    ensures [] !in Files(disk)
  {
    hide FsOk, Files, FindSlot;
    FindIsFiles(disk, []);
  }

  lemma {:induction false} InstallRefines(disk: Disk, slot: nat, ino: nat, blk: nat, name: seq<byte>)
    requires FsOk(disk) && CString(name) && 0 < |name| < MAX_NAME && name !in Files(disk)
    requires slot < DIRENTS && !Live(disk, slot) && 2 <= ino <= MAX_INODES && DATA_START <= blk < |disk|
    requires !BitOf(disk[INODE_BMAP], ino) && !BitOf(disk[BLOCK_BMAP], blk)
    ensures var d := Install(disk, slot, ino, blk, name);
            FsOk(d) && Files(d) == Files(disk)[name := []] && d != disk
  {
    hide Install, Files, BitOf, NameAt, DataAt, InodeOk, SystemOk, NoShared, Foreign, Kept;
    var d := Install(disk, slot, ino, blk, name);
    FindIsFiles(disk, name);
    InstallSystem(disk, slot, ino, blk, name);
    InstallNew(disk, slot, ino, blk, name);
    forall j | 0 <= j < DIRENTS && j != slot ensures SlotOk(disk, j) && Kept(disk, d, j) {
      assert SlotOk(disk, j);
      InstallOthers(disk, slot, ino, blk, name, j);
    }
    forall k | 0 <= k < DIRENTS && k != slot && Live(disk, k) ensures Foreign(disk, d, slot, k) {
      assert SlotOk(disk, k);
      InstallForeign(disk, slot, ino, blk, name, k);
    }
    OneEntry(disk, d, slot);
    OneFile(disk, d, slot, name);
  }

  /** If only entry `slot` changed, from dead to a live `name`, the map gained that name. */
  lemma {:induction false} OneFile(a: Disk, b: Disk, slot: nat, name: seq<byte>)
    requires FsOk(a) && FsOk(b) && slot < DIRENTS
    requires forall j :: 0 <= j < DIRENTS ==> SlotOk(a, j) && SlotOk(b, j)
    requires forall j :: 0 <= j < DIRENTS && j != slot ==> SameFile(a, b, j)
    requires SlotOk(b, slot) && Live(b, slot) && NameAt(b, slot) == name && (Live(a, slot) ==> NameAt(a, slot) == name)
    ensures Files(b) == Files(a)[name := DataAt(b, slot)]
  {
    hide FsOk, SameFile, Files, NameAt, DataAt, InodeOk, BitOf;
    FilesUpToAt(b, DIRENTS, slot);
    assert name in Files(b) && Files(b)[name] == DataAt(b, slot) by { FilesIs(b); }
    forall n | n != name ensures (n in Files(a) <==> n in Files(b)) && (n in Files(a) ==> Files(a)[n] == Files(b)[n]) {
      FilesDiffer(a, b, slot, n);
    }
  }

  lemma {:induction false} FilesIs(disk: Disk)
    requires FsOk(disk)
    ensures Files(disk) == FilesUpTo(disk, DIRENTS)
  {
  }

  // ---------- unlink ----------

  lemma {:induction false} ClearBitsAt(bb: Block, b: Inode, n: nat, k: nat, x: nat)
    requires k <= DIRECT && n <= 4096 && x < 4096
    ensures BitOf(ClearBits(bb, b, n, k), x) <==>
            BitOf(bb, x) && !(exists d :: 0 <= d < k && Direct(b, d) == x && x != 0 && x < n)
  {
    hide BitOf, BitClear, Direct;
    if k > 0 {
      ClearBitsAt(bb, b, n, k - 1, x);
      if Direct(b, k - 1) != 0 && Direct(b, k - 1) < n {
        BitClearAt(ClearBits(bb, b, n, k - 1), Direct(b, k - 1), x);
      }
    }
  }

  lemma {:induction false} RemoveSystem(disk: Disk, slot: nat, ino: nat)
    requires SystemOk(disk) && slot < DIRENTS && 2 <= ino <= MAX_INODES && InodeOk(disk, ReadInode(disk, ino))
    ensures SystemOk(Remove(disk, slot, ino))
  {
    hide Field, BitOf, BitClear, ClearBits, ClearSlot, Mode, Size, Direct, SelfApart;
    var n, d := ReadInode(disk, ino), Remove(disk, slot, ino);
    forall b | 0 <= b < DATA_START ensures BitOf(d[BLOCK_BMAP], b) {
      ClearBitsAt(disk[BLOCK_BMAP], n, |disk|, DIRECT, b);
      forall e | 0 <= e < DIRECT ensures Direct(n, e) != b || b == 0 { assert BlockOk(disk, n, e); }
    }
    BitClearAt(disk[INODE_BMAP], ino, 0);
    BitClearAt(disk[INODE_BMAP], ino, 1);
    assert ReadInode(d, ROOT_INO) == ReadInode(disk, ROOT_INO);
  }

  lemma {:induction false} RemoveKept(disk: Disk, slot: nat, j: nat)
    requires slot < DIRENTS && j < DIRENTS && j != slot && SlotOk(disk, slot) && SlotOk(disk, j) && Live(disk, slot)
             && Apart(disk, slot, j)
    ensures Kept(disk, Remove(disk, slot, InoOf(disk, slot)), j)
  {
    hide Field, BitOf, BitClear, ClearBits, NameOf, Mode, Size, SelfApart;
    var ino := InoOf(disk, slot);
    var d := Remove(disk, slot, ino);
    DeadKept(disk, slot, Zeros(32), j);
    if Live(disk, j) {
      OtherSlot(disk[ROOT_DIR], slot, Zeros(32), j);
      var i := InoOf(disk, j);
      BitClearAt(disk[INODE_BMAP], ino, i);
      var n, m := ReadInode(disk, i), ReadInode(disk, ino);
      assert ReadInode(d, i) == n;
      forall e | 0 <= e < DIRECT && 0 < Direct(n, e) < |disk|
        ensures disk[Direct(n, e)] == d[Direct(n, e)] && BitOf(d[BLOCK_BMAP], Direct(n, e))
      {
        assert BlockOk(disk, n, e);
        ClearBitsAt(disk[BLOCK_BMAP], m, |disk|, DIRECT, Direct(n, e));
      }
    }
  }

  /** unlink removes exactly the named file. */
  lemma {:induction false} UnlinkRefines(disk: Disk, name: seq<byte>)
    requires FsOk(disk) && CString(name) && |name| < MAX_NAME
    ensures var r := Unlink(disk, name);
            && FsOk(r.disk)
            && Files(r.disk) == Files(disk) - {name}
            && (r.rc == Ok <==> name in Files(disk))
            && (|name| == 0 ==> r.rc == NameTooLong) && (|name| > 0 && name !in Files(disk) ==> r.rc == NoEnt)
            && (r.rc != Ok ==> r.disk == disk)
  {
    hide FsOk, Remove, FindSlot, Files, NameAt, DataAt, InodeOk;
    FindIsFiles(disk, name);
    EmptyName(disk);
    var slot := FindSlot(disk[ROOT_DIR], name, 0);
    if |name| > 0 && slot < DIRENTS {
      RemoveRefines(disk, slot);
    } else {
      assert Files(disk) - {name} == Files(disk);
    }
  }

  lemma {:induction false} RemoveRefines(disk: Disk, slot: nat)
    requires FsOk(disk) && slot < DIRENTS && Live(disk, slot)
    ensures SlotOk(disk, slot)
    ensures var d := Remove(disk, slot, InoOf(disk, slot));
            FsOk(d) && Files(d) == Files(disk) - {NameAt(disk, slot)}
  {
    hide Remove, Files, BitOf, NameAt, DataAt, InodeOk, SystemOk, NoShared, Foreign, Kept;
    assert SlotOk(disk, slot);
    var d := Remove(disk, slot, InoOf(disk, slot));
    RemoveSystem(disk, slot, InoOf(disk, slot));
    RemovedDead(disk, slot, InoOf(disk, slot));
    forall j | 0 <= j < DIRENTS && j != slot ensures SlotOk(disk, j) && Kept(disk, d, j) {
      assert SlotOk(disk, j);
      assert Apart(disk, slot, j);
      RemoveKept(disk, slot, j);
    }
    OneEntry(disk, d, slot);
    NoFile(disk, d, slot);
  }

  lemma {:induction false} RemovedDead(disk: Disk, slot: nat, ino: nat)
    requires slot < DIRENTS && 1 <= ino <= MAX_INODES
    ensures !Live(Remove(disk, slot, ino), slot)
  {
    hide Field, BitClear, ClearBits, ClearSlot;
    ClearedSlot(disk[ROOT_DIR], slot);
  }

  lemma {:induction false} NoFile(a: Disk, b: Disk, slot: nat)
    requires FsOk(a) && FsOk(b) && slot < DIRENTS && Live(a, slot) && !Live(b, slot)
    requires forall j :: 0 <= j < DIRENTS ==> SlotOk(a, j) && SlotOk(b, j)
    requires forall j :: 0 <= j < DIRENTS && j != slot ==> SameFile(a, b, j)
    ensures Files(b) == Files(a) - {NameAt(a, slot)}
  {
    hide FsOk, Files, NameAt, DataAt, SlotOk;
    var name := NameAt(a, slot);
    forall n | n != name ensures (n in Files(a) <==> n in Files(b)) && (n in Files(a) ==> Files(a)[n] == Files(b)[n]) {
      FilesDiffer(a, b, slot, n);
    }
    FindIsFiles(b, name);
    var t := FindSlot(b[ROOT_DIR], name, 0);
    assert t < DIRENTS ==> SameFile(a, b, t);
    if t < DIRENTS { OneName(a, slot, t); }
  }
}
