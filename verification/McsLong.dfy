/**
 What becomes of a name of exactly 27 characters: mcsfs1_create accepts it but stores it
 without a terminator, so whether it is found again depends on the next directory entry.
 */
module McsLong {
  import opened Bytes
  import opened Mcsfs1
  import opened McsInv
  import opened McsOps
  import opened McsWrite
  import opened McsRuns

  /** The first byte of an entry is zero exactly when a small inode number is. */
  lemma {:induction false} FirstByte(dir: Block, j: nat)
    requires j < DIRENTS && SlotIno(dir, j) < 256
    ensures dir[32 * j] == 0 <==> SlotIno(dir, j) == 0
  {
    var s := dir[32 * j..32 * j + 4];
    assert s[0] == dir[32 * j] && Decode(s) == s[0] + 256 * Decode(s[1..]);
  }

  /** An entry written with a 27-character name holds exactly its characters. */
  lemma {:induction false} LongSlot(dir: Block, slot: nat, ino: nat, name: seq<byte>)
    requires slot < DIRENTS && ino <= MAX_INODES && |name| == MAX_NAME
    ensures var d := SetSlot(dir, slot, ino, name);
            SlotIno(d, slot) == ino && d[32 * slot + 5..32 * slot + 32] == name
  {
    hide SetSlot, Field;
    SlotBytes(dir, slot, ino, name);
    assert Padded(name, MAX_NAME) == name;
  }

  /** Rewriting one entry leaves the inode number and the 27 name bytes of every other one. */
  lemma {:induction false} ElsewhereSame(dir: Block, slot: nat, ino: nat, name: seq<byte>, k: nat)
    requires slot < DIRENTS && k < DIRENTS && k != slot && ino <= MAX_INODES && |name| <= MAX_NAME
    ensures var d := SetSlot(dir, slot, ino, name);
            && SlotIno(d, k) == SlotIno(dir, k)
            && d[32 * k + 5..32 * k + 32] == dir[32 * k + 5..32 * k + 32]
            && (|NameOf(NameWindow(dir, k))| < MAX_NAME ==> NameOf(NameWindow(d, k)) == NameOf(NameWindow(dir, k)))
  {
    hide Decode, NameOf;
    var x: seq<byte> := Encode(ino, 4) + [MODE_FILE] + Padded(name, MAX_NAME);
    SpliceOther(dir, 32 * slot, x, 32 * k, 4);
    SpliceOther(dir, 32 * slot, x, 32 * k + 5, 27);
    if |NameOf(NameWindow(dir, k))| < MAX_NAME { OtherSlot(dir, slot, x, k); }
  }

  /** Lookup succeeds exactly when some entry matches. */
  lemma {:induction false} FoundIff(dir: Block, name: seq<byte>, j: nat)
    requires j < DIRENTS && forall k :: 0 <= k < DIRENTS && k != j ==> !Match(dir, name, k)
    ensures FindSlot(dir, name, 0) == if Match(dir, name, j) then j else DIRENTS
  {
    hide Match;
  }

  /**
   After a successful create of a 27-character name in entry j < 15 of a consistent disk,
   lookup finds the name if and only if entry j + 1 is dead.
   */
  lemma {:induction false} CreatedLongFoundIff(disk: Disk, name: seq<byte>)
    requires FsOk(disk) && CString(name) && |name| == MAX_NAME && Create(disk, name).rc == Ok
    ensures var j, dir := FreeSlot(disk[ROOT_DIR], 0), Create(disk, name).disk[ROOT_DIR];
            && j < DIRENTS
            && (j < 15 ==> FindSlot(dir, name, 0) == if Live(disk, j + 1) then DIRENTS else j)
  {
    hide FsOk, Match, FindSlot, FreeSlot, FirstClear, Field, SetSlot, NewInode, BitSet, Splice, NameOf;
    var j, ino := FreeSlot(disk[ROOT_DIR], 0), NextIno(disk);
    var dir := SetSlot(disk[ROOT_DIR], j, ino, name);
    assert Create(disk, name).disk[ROOT_DIR] == dir;
    if j < 15 {
      LongSlot(disk[ROOT_DIR], j, ino, name);
      ElsewhereSame(disk[ROOT_DIR], j, ino, name, j + 1);
      SmallIno(disk, j + 1);
      FirstByte(dir, j + 1);
      LongNameFoundIff(dir, j, name);
      forall k | 0 <= k < DIRENTS && k != j ensures !Match(dir, name, k) { ShortElsewhere(disk, j, ino, name, k); }
      FoundIff(dir, name, j);
    }
  }

  lemma {:induction false} SmallIno(disk: Disk, k: nat)
    requires FsOk(disk) && k < DIRENTS
    ensures SlotIno(disk[ROOT_DIR], k) <= MAX_INODES && (Live(disk, k) ==> |NameAt(disk, k)| < MAX_NAME)
  {
    hide SystemOk, InodeOk, BitOf, NameOf, Field;
    assert SlotOk(disk, k);
  }

  /** The other entries keep their short names, so none of them is the long one. */
  lemma {:induction false} ShortElsewhere(disk: Disk, j: nat, ino: nat, name: seq<byte>, k: nat)
    requires FsOk(disk) && j < DIRENTS && k < DIRENTS && k != j && ino <= MAX_INODES && |name| == MAX_NAME
    ensures !Match(SetSlot(disk[ROOT_DIR], j, ino, name), name, k)
  {
    hide FsOk, NameOf, Field, SetSlot, Splice;
    SmallIno(disk, k);
    ElsewhereSame(disk[ROOT_DIR], j, ino, name, k);
  }

  /** On any disk: an entry holding a 27-character name is found exactly while the next entry is dead. */
  lemma {:induction false} LongFoundIffNextDead(disk: Disk, j: nat, name: seq<byte>)
    requires j < 15 && Live(disk, j) && CString(name) && |name| == MAX_NAME && InoOf(disk, j + 1) < 256
    requires disk[ROOT_DIR][32 * j + 5..32 * j + 32] == name
    ensures Match(disk[ROOT_DIR], name, j) <==> !Live(disk, j + 1)
  {
    hide Match, Field;
    LongNameFoundIff(disk[ROOT_DIR], j, name);
    FirstByte(disk[ROOT_DIR], j + 1);
  }

  /** The window of an entry with a 27-character name never reads as a shorter one. */
  lemma {:induction false} LongIsNotShort(dir: Block, j: nat, name: seq<byte>, other: seq<byte>)
    requires j < DIRENTS && CString(name) && |name| == MAX_NAME && |other| < MAX_NAME
    requires dir[32 * j + 5..32 * j + 32] == name
    ensures !Match(dir, other, j)
  {
    hide Field;
    var w := NameWindow(dir, j);
    forall k | 0 <= k < 27 ensures w[k] == name[k] { assert w[k] == dir[32 * j + 5..32 * j + 32][k]; }
    assert StrLen(w, 0) >= 27;
  }

  /** Lookup of a shorter name goes on as if the long one were not there. */
  lemma {:induction false} LongFindsOthers(disk: Disk, j: nat, ino: nat, name: seq<byte>, other: seq<byte>)
    requires FsOk(disk) && j < DIRENTS && !Live(disk, j) && ino <= MAX_INODES
    requires CString(name) && |name| == MAX_NAME && |other| < MAX_NAME
    ensures FindSlot(SetSlot(disk[ROOT_DIR], j, ino, name), other, 0) == FindSlot(disk[ROOT_DIR], other, 0)
  {
    hide FsOk, Match, FindSlot, Field, SetSlot, NameOf;
    var dir := SetSlot(disk[ROOT_DIR], j, ino, name);
    LongSlot(disk[ROOT_DIR], j, ino, name);
    LongIsNotShort(dir, j, name, other);
    DeadNoMatch(disk[ROOT_DIR], other, j);
    forall k | 0 <= k < DIRENTS ensures Match(dir, other, k) <==> Match(disk[ROOT_DIR], other, k) {
      if k != j {
        SmallIno(disk, k);
        ElsewhereSame(disk[ROOT_DIR], j, ino, name, k);
        SameMatch(disk[ROOT_DIR], dir, other, k);
      }
    }
    SameFind(disk[ROOT_DIR], dir, other, 0);
  }

  /** Creating a 27-character name leaves every file with a shorter name readable as before. */
  lemma {:induction false} LongLeavesOthers(disk: Disk, name: seq<byte>, other: seq<byte>, cap: nat)
    requires FsOk(disk) && CString(name) && |name| == MAX_NAME && Create(disk, name).rc == Ok && |other| < MAX_NAME
    ensures Read(Create(disk, name).disk, other, cap) == Read(disk, other, cap)
  {
    hide FsOk, FindSlot, FreeSlot, NextIno, NextBlk, Field, SetSlot, Install, Create, ReadFile, SlotOk, BitOf;
    hide ReadInode, Match, NameAt;
    var j, ino, blk := FreeSlot(disk[ROOT_DIR], 0), NextIno(disk), NextBlk(disk);
    CreateIs(disk, name);
    InstalledIs(disk, j, ino, blk, name);
    LongFindsOthers(disk, j, ino, name, other);
    var s := FindSlot(disk[ROOT_DIR], other, 0);
    if s < DIRENTS {
      MatchIsName(disk, s, other);
      LongReads(disk, j, ino, blk, name, s, cap);
    }
  }

  lemma {:induction false} LongReads(disk: Disk, j: nat, ino: nat, blk: nat, name: seq<byte>, s: nat, cap: nat)
    requires FsOk(disk) && j < DIRENTS && s < DIRENTS && !Live(disk, j) && Live(disk, s) && |name| <= MAX_NAME
    requires 2 <= ino <= MAX_INODES && !BitOf(disk[INODE_BMAP], ino) && blk < |disk|
    ensures var e := Install(disk, j, ino, blk, name);
            && InoOf(e, s) == InoOf(disk, s) && 1 <= InoOf(disk, s) <= MAX_INODES
            && ReadFile(ReadInode(e, InoOf(disk, s)), e, cap) == ReadFile(ReadInode(disk, InoOf(disk, s)), disk, cap)
  {
    hide FsOk, Install, ReadFile, BitOf, ReadInode, Field, InodeOk, NameAt;
    FsOkSlot(disk, s);
    InstallOthers(disk, j, ino, blk, name, s);
    KeptReads(disk, Install(disk, j, ino, blk, name), s, cap);
  }

  /** A kept entry reads the same. */
  lemma {:induction false} KeptReads(a: Disk, b: Disk, k: nat, cap: nat)
    requires k < DIRENTS && SlotOk(a, k) && Live(a, k) && Kept(a, b, k)
    ensures InoOf(b, k) == InoOf(a, k) <= MAX_INODES
    ensures ReadFile(ReadInode(b, InoOf(a, k)), b, cap) == ReadFile(ReadInode(a, InoOf(a, k)), a, cap)
  {
    hide ReadInode, InodeOk, NameOf, Field, BitOf, BlocksKept, ReadFile, FileData;
    KeptIno(a, b, k);
    KeptInodeOk(a, b, ReadInode(a, InoOf(a, k)));
    DataSame(a, b, ReadInode(a, InoOf(a, k)));
    ReadFileRefines(a, ReadInode(a, InoOf(a, k)), cap);
    ReadFileRefines(b, ReadInode(a, InoOf(a, k)), cap);
  }

  lemma {:induction false} KeptIno(a: Disk, b: Disk, k: nat)
    requires k < DIRENTS && SlotOk(a, k) && Live(a, k) && Kept(a, b, k)
    ensures InoOf(b, k) == InoOf(a, k) && ReadInode(b, InoOf(a, k)) == ReadInode(a, InoOf(a, k))
  {
    hide ReadInode, InodeOk, NameOf, Field, BitOf, BlocksKept;
  }

  lemma {:induction false} DeadNoMatch(dir: Block, name: seq<byte>, j: nat)
    requires j < DIRENTS && SlotIno(dir, j) == 0
    ensures !Match(dir, name, j)
  {
  }

  lemma {:induction false} SameMatch(a: Block, b: Block, name: seq<byte>, k: nat)
    requires k < DIRENTS && SlotIno(a, k) == SlotIno(b, k)
    requires SlotIno(a, k) != 0 ==> NameOf(NameWindow(a, k)) == NameOf(NameWindow(b, k))
    ensures Match(b, name, k) <==> Match(a, name, k)
  {
    hide NameOf, Field;
  }

  lemma {:induction false} SameFind(a: Block, b: Block, name: seq<byte>, j: nat)
    requires j <= DIRENTS && forall k :: 0 <= k < DIRENTS ==> (Match(b, name, k) <==> Match(a, name, k))
    ensures FindSlot(a, name, j) == FindSlot(b, name, j)
    decreases DIRENTS - j
  {
    hide Match;
    if j < DIRENTS { SameFind(a, b, name, j + 1); }
  }

  // ---------- create, create, read ----------

  lemma {:induction false} FirstClearAtMost(bm: Block, lo: nat, hi: nat, x: nat)
    requires lo <= x < hi <= 4096 && !BitOf(bm, x)
    ensures FirstClear(bm, lo, hi) <= x
  {
    hide BitOf;
  }

  /** A formatted device has room, and still has after one file has been created on it. */
  lemma {:induction false} RoomForTwo(n: nat, ino: nat, blk: nat)
    requires 16 <= n <= 4096 && 2 <= ino <= MAX_INODES && DATA_START <= blk < n
    ensures var d := FormatDisk(n);
            && NextIno(d) <= MAX_INODES && NextBlk(d) < n
            && FirstClear(BitSet(d[INODE_BMAP], ino), 2, 33) <= MAX_INODES
            && FirstClear(BitSet(d[BLOCK_BMAP], blk), DATA_START, n) < n
            && forall j :: 0 <= j < DIRENTS ==> SlotIno(d[ROOT_DIR], j) == 0
  {
    hide BitOf, BitSet, FirstClear, SetMembers, NewInode, Splice, Field, LowBits;
    var d := FormatDisk(n);
    assert d[ROOT_DIR] == ZeroBlock() && d[INODE_BMAP] == LowBits(2)
           && d[BLOCK_BMAP] == BitSet(LowBits(DATA_START), ROOT_DIR);
    var x, y := if ino == 2 then 3 else 2, if blk == 8 then 9 else 8;
    forall j | 0 <= j < DIRENTS ensures SlotIno(d[ROOT_DIR], j) == 0 { FieldOfZeros(512, 32 * j, 4); }
    LowBitsAt(2, x);
    LowBitsAt(DATA_START, y);
    BitSetAt(LowBits(DATA_START), ROOT_DIR, y);
    BitSetAt(d[INODE_BMAP], ino, x);
    BitSetAt(d[BLOCK_BMAP], blk, y);
    FirstClearAtMost(d[INODE_BMAP], 2, 33, x);
    FirstClearAtMost(d[BLOCK_BMAP], DATA_START, n, y);
    FirstClearAtMost(BitSet(d[INODE_BMAP], ino), 2, 33, x);
    FirstClearAtMost(BitSet(d[BLOCK_BMAP], blk), DATA_START, n, y);
  }

  /** The disk after the long name has gone into entry 0 of a formatted device. */
  lemma {:induction false} FirstCreate(n: nat, name: seq<byte>)
    requires 16 <= n <= 4096 && CString(name) && |name| == MAX_NAME
    ensures var d, r := FormatDisk(n), Create(FormatDisk(n), name);
            && r.rc == Ok && 2 <= NextIno(d) <= MAX_INODES && DATA_START <= NextBlk(d) < n
            && r.disk == Install(d, 0, NextIno(d), NextBlk(d), name)
            && FindSlot(r.disk[ROOT_DIR], name, 0) == 0
  {
    hide FormatDisk, FsOk, Tight, FindSlot, FirstClear, Install, Field, Files;
    var d := FormatDisk(n);
    FormatRefines(n);
    RoomForTwo(n, 2, 8);
    FindIsFiles(d, name);
    CreatedLongFoundIff(d, name);
  }

  /** Nothing but the long name is in the directory, and entry 1 is the first free one. */
  lemma {:induction false} AfterFirst(dir: Block, ino: nat, name: seq<byte>, other: seq<byte>)
    requires 2 <= ino <= MAX_INODES && CString(name) && |name| == MAX_NAME && |other| < MAX_NAME
    requires forall j :: 0 <= j < DIRENTS ==> SlotIno(dir, j) == 0
    ensures var d := SetSlot(dir, 0, ino, name);
            && SlotIno(d, 0) == ino && d[5..32] == name && FreeSlot(d, 0) == 1
            && (forall k :: 1 <= k < DIRENTS ==> SlotIno(d, k) == 0)
            && FindSlot(d, other, 0) == DIRENTS
  {
    hide Field, SetSlot, NameOf, FindSlot;
    var d := SetSlot(dir, 0, ino, name);
    LongSlot(dir, 0, ino, name);
    forall k | 1 <= k < DIRENTS ensures SlotIno(d, k) == 0 { ElsewhereSame(dir, 0, ino, name, k); }
    FirstByte(d, 1);
    LongNameFoundIff(d, 0, name);
    forall k | 0 <= k < DIRENTS && k != 0 ensures !Match(d, other, k) { assert SlotIno(d, k) == 0; }
    FoundIff(d, other, 0);
  }

  /** Once entry 1 is in use the long name in entry 0 is no longer found. */
  lemma {:induction false} AfterSecond(dir: Block, ino: nat, name: seq<byte>, other: seq<byte>)
    requires 2 <= ino <= MAX_INODES && CString(name) && |name| == MAX_NAME && CString(other) && |other| < MAX_NAME
    requires SlotIno(dir, 0) != 0 && dir[5..32] == name && forall k :: 1 <= k < DIRENTS ==> SlotIno(dir, k) == 0
    ensures FindSlot(SetSlot(dir, 1, ino, other), name, 0) == DIRENTS
  {
    hide Field, SetSlot, NameOf, FindSlot;
    var d := SetSlot(dir, 1, ino, other);
    NewSlot(dir, 1, ino, other);
    ElsewhereSame(dir, 1, ino, other, 0);
    FirstByte(d, 1);
    LongNameFoundIff(d, 0, name);
    forall k | 0 <= k < DIRENTS && k != 0 ensures !Match(d, name, k) {
      if k > 1 { ElsewhereSame(dir, 1, ino, other, k); }
    }
    FoundIff(d, name, 0);
  }

  /**
   Why the map of files is stated for names of at most 26 characters. On every formatted
   device, create a 27-character name, then any other file: both calls succeed, and reading
   the first name, which worked in between, answers NOENT.
   */
  lemma {:induction false} LongNameLost(n: nat, name: seq<byte>, other: seq<byte>, cap: nat)
    requires 16 <= n <= 4096 && CString(name) && |name| == MAX_NAME && CString(other) && 0 < |other| < MAX_NAME
    ensures var one := Create(FormatDisk(n), name);
            var two := Create(one.disk, other);
            && one.rc == Ok && Read(one.disk, name, cap) == ReadOk([])
            && two.rc == Ok && Read(two.disk, name, cap) == ReadErr(NoEnt)
  {
    hide FormatDisk, FindSlot, FreeSlot, FirstClear, Install, Field, ReadFile, SetSlot, BitSet, BitOf;
    var d := FormatDisk(n);
    FirstCreate(n, name);
    var ino, blk := NextIno(d), NextBlk(d);
    var one := Create(d, name).disk;
    RoomForTwo(n, ino, blk);
    InstalledIs(d, 0, ino, blk, name);
    AfterFirst(d[ROOT_DIR], ino, name, other);
    NewFileEmpty(d, ino, blk, name, cap);
    InstalledIs(one, 1, NextIno(one), NextBlk(one), other);
    AfterSecond(one[ROOT_DIR], NextIno(one), name, other);
  }

  lemma {:induction false} NewFileEmpty(d: Disk, ino: nat, blk: nat, name: seq<byte>, cap: nat)
    requires 2 <= ino <= MAX_INODES && blk < |d| && |name| <= MAX_NAME
    ensures var e := Install(d, 0, ino, blk, name); ReadFile(ReadInode(e, ino), e, cap) == ReadOk([])
  {
    hide Install, ReadInode, NewInode, Direct;
    InstallInode(d, 0, ino, blk, name, ino);
    NewInodeAt(MODE_FILE, 0, blk);
  }
}
