/**
 The MCSFS1J file layer (m16_write_file_ex, m16_read_file, m16_fsck) as pure functions
 of the device, and the meaning of a disk as a map from names to contents.
 */
module M16Fs {
  import opened Bytes
  import opened Journal

  const MAGIC: nat := 0x4d43534631564a31
  const MAX_INODES: nat := 16
  const MAX_NAME: nat := 32
  const INODE_BITMAP: nat := 18
  const BLOCK_BITMAP: nat := 19
  const INODE_TABLE: nat := 20
  const ROOT_DIR: nat := 24
  const DATA_START: nat := 25
  const DIRENTS: nat := 12

  // ---------- superblock ----------

  predicate SuperOk(sb: Block) {
    && Field(sb, 0, 8) == MAGIC
    && Field(sb, 8, 4) == VERSION
    && Field(sb, 12, 4) == 512
    && Field(sb, 48, 4) == DATA_START
    && Field(sb, 44, 4) == ROOT_DIR
  }

  function Generation(sb: Block): nat { Field(sb, 52, 4) }

  function SuperMembers(): (ms: seq<Member>)
    ensures Layout(ms, 512)
  {
    Pow256Values();
    [Member(0, 8, MAGIC), Member(8, 4, VERSION), Member(12, 4, 512), Member(16, 4, 128),
     Member(20, 4, 1), Member(24, 4, 17), Member(28, 4, INODE_BITMAP), Member(32, 4, BLOCK_BITMAP),
     Member(36, 4, INODE_TABLE), Member(40, 4, 4), Member(44, 4, ROOT_DIR), Member(48, 4, DATA_START),
     Member(52, 4, 1)]
  }

  function SuperBlock(): Block { SetMembers(ZeroBlock(), SuperMembers()) }

  // ---------- inode table: 16 inodes of 128 bytes in four blocks ----------

  type Table = t: seq<byte> | |t| == 2048 witness seq(2048, i => 0)

  function LoadTable(disk: Disk): Table {
    var a: seq<byte>, b: seq<byte>, c: seq<byte>, d: seq<byte> := disk[20], disk[21], disk[22], disk[23];
    a + b + c + d
  }

  function TableBlock(t: Table, i: nat): Block
    requires i < 4
  {
    t[512 * i..512 * (i + 1)]
  }

  function InodeUsed(t: Table, ino: nat): nat requires ino < 16 { Field(t, 128 * ino, 4) }
  function InodeKind(t: Table, ino: nat): nat requires ino < 16 { Field(t, 128 * ino + 4, 4) }
  function InodeSize(t: Table, ino: nat): nat requires ino < 16 { Field(t, 128 * ino + 8, 4) }
  function InodeBlock(t: Table, ino: nat): nat requires ino < 16 { Field(t, 128 * ino + 12, 4) }

  /** used, kind, size and direct[0] of one inode; the rest of it is not touched. */
  function InodeMembers(ino: nat, kind: nat, size: nat, blk: nat): (ms: seq<Member>)
    requires ino < 16 && kind < 256 && size <= 512 && blk < 128
    ensures Layout(ms, 2048)
  {
    Pow256Values();
    [Member(128 * ino, 4, 1), Member(128 * ino + 4, 4, kind), Member(128 * ino + 8, 4, size),
      Member(128 * ino + 12, 4, blk)]
  }

  function SetInode(t: Table, ino: nat, kind: nat, size: nat, blk: nat): Table
    requires ino < 16 && kind < 256 && size <= 512 && blk < 128
  {
    SetMembers(t, InodeMembers(ino, kind, size, blk))
  }

  // ---------- root directory: 12 entries of 40 bytes ----------

  function SlotUsed(dir: Block, j: nat): nat requires j < DIRENTS { Field(dir, 40 * j, 4) }
  function SlotIno(dir: Block, j: nat): nat requires j < DIRENTS { Field(dir, 40 * j + 4, 4) }
  function SlotName(dir: Block, j: nat): seq<byte> requires j < DIRENTS { dir[40 * j + 8..40 * j + 40] }

  function SetSlot(dir: Block, j: nat, ino: nat, name: seq<byte>): Block
    requires j < DIRENTS && ino < 16 && |name| < MAX_NAME
  {
    var d1 := SetField(dir, 40 * j, 4, 1);
    var d2 := SetField(d1, 40 * j + 4, 4, ino);
    Splice(d2, 40 * j + 8, Padded(name, MAX_NAME))
  }

  /** m16_streq from position i: compares a 32-byte field with a C string. */
  predicate StrEq(a: seq<byte>, name: seq<byte>, i: nat)
    requires |a| == MAX_NAME && i <= MAX_NAME
    decreases MAX_NAME - i
  {
    if i == MAX_NAME then true
    else if a[i] != CharAt(name, i) then false
    else if a[i] == 0 then true
    else StrEq(a, name, i + 1)
  }

  predicate Match(dir: Block, name: seq<byte>, j: nat)
    requires j < DIRENTS
  {
    SlotUsed(dir, j) != 0 && StrEq(SlotName(dir, j), name, 0)
  }

  /** First matching slot at or after j, or 12. */
  function FindSlot(dir: Block, name: seq<byte>, j: nat): (r: nat)
    requires j <= DIRENTS
    ensures j <= r <= DIRENTS
    ensures forall k :: j <= k < r ==> !Match(dir, name, k)
    ensures r < DIRENTS ==> Match(dir, name, r)
    decreases DIRENTS - j
  {
    if j == DIRENTS || Match(dir, name, j) then j else FindSlot(dir, name, j + 1)
  }

  function FindFreeSlot(dir: Block, j: nat): (r: nat)
    requires j <= DIRENTS
    ensures j <= r <= DIRENTS
    ensures forall k :: j <= k < r ==> SlotUsed(dir, k) != 0
    ensures r < DIRENTS ==> SlotUsed(dir, r) == 0
    decreases DIRENTS - j
  {
    if j == DIRENTS || SlotUsed(dir, j) == 0 then j else FindFreeSlot(dir, j + 1)
  }

  // ---------- operations ----------

  function Mount(d: Device): Outcome {
    var o := Recover(d);
    if o.rc != Ok then o
    else if !SuperOk(o.dev.disk[0]) then Outcome(o.dev, Corrupt)
    else o
  }

  /** First transaction: both bitmaps and the four inode-table blocks. */
  function ReserveRecs(disk: Disk, ino: nat, blk: nat, size: nat): (recs: seq<Rec>)
    requires ino < 16 && blk < 128 && size <= 512
    ensures |recs| == 6
  {
    var t := SetInode(LoadTable(disk), ino, 1, size, blk);
    [Rec(INODE_BITMAP, BitSet(disk[INODE_BITMAP], ino)), Rec(BLOCK_BITMAP, BitSet(disk[BLOCK_BITMAP], blk)),
     Rec(20, TableBlock(t, 0)), Rec(21, TableBlock(t, 1)), Rec(22, TableBlock(t, 2)), Rec(23, TableBlock(t, 3))]
  }

  /** Second transaction: the directory and the data block. */
  function LinkRecs(dir: Block, slot: nat, ino: nat, blk: nat, name: seq<byte>, data: seq<byte>): (recs: seq<Rec>)
    requires slot < DIRENTS && ino < 16 && blk < 128 && |name| < MAX_NAME && |data| <= 512
    ensures |recs| == 2
  {
    [Rec(ROOT_DIR, SetSlot(dir, slot, ino, name)), Rec(blk, Padded(data, 512))]
  }

  function WriteFile(d: Device, name: seq<byte>, data: seq<byte>, stop: bool): Outcome {
    if |name| == 0 || |name| >= MAX_NAME then Outcome(d, TooLong)
    else if |data| > 512 then Outcome(d, Inval)
    else
      var m := Mount(d);
      if m.rc != Ok then m else WriteMounted(m.dev, name, data, stop)
  }

  function WriteMounted(d: Device, name: seq<byte>, data: seq<byte>, stop: bool): Outcome
    requires 0 < |name| < MAX_NAME && |data| <= 512
  {
    var disk := d.disk;
    var dir := disk[ROOT_DIR];
    var ino := FirstClear(disk[INODE_BITMAP], 1, 16);
    var blk := FirstClear(disk[BLOCK_BITMAP], DATA_START, 128);
    var slot := FindFreeSlot(dir, 0);
    var g := Generation(disk[0]);
    if FindSlot(dir, name, 0) < DIRENTS then Outcome(d, Exists)
    else if ino == 16 || blk == 128 || slot == DIRENTS then Outcome(d, NoSpc)
    else
      var o := Commit(d, ReserveRecs(disk, ino, blk, |data|), g + 1, false);
      if o.rc != Ok then o
      else Commit(o.dev, LinkRecs(dir, slot, ino, blk, name, data), g + 2, stop)
  }

  /** ReadOverrun: the copy would leave the one block it copies from, and nothing more can be said. */
  datatype ReadResult = ReadOk(data: seq<byte>) | ReadErr(rc: Rc) | ReadOverrun

  /** m16_read_file after its mount. */
  function ReadMounted(disk: Disk, name: seq<byte>, cap: nat): ReadResult {
    var t, dir := LoadTable(disk), disk[ROOT_DIR];
    var slot := FindSlot(dir, name, 0);
    if slot == DIRENTS then ReadErr(NoEnt)
    else
      var ino := SlotIno(dir, slot);
      if ino >= 16 || InodeUsed(t, ino) == 0 || InodeKind(t, ino) != 1 then ReadErr(Corrupt)
      else if InodeSize(t, ino) > cap || InodeBlock(t, ino) >= 128 then ReadErr(Inval)
      else if InodeSize(t, ino) > 512 then ReadOverrun
      else ReadOk(disk[InodeBlock(t, ino)][..InodeSize(t, ino)])
  }

  predicate SlotSane(disk: Disk, j: nat)
    requires j < DIRENTS
  {
    var t, dir := LoadTable(disk), disk[ROOT_DIR];
    var ino := SlotIno(dir, j);
    SlotUsed(dir, j) != 0 ==>
      && ino < 16 && BitOf(disk[INODE_BITMAP], ino)
      && InodeUsed(t, ino) != 0 && InodeKind(t, ino) == 1 && InodeSize(t, ino) <= 512
      && DATA_START <= InodeBlock(t, ino) < 128 && BitOf(disk[BLOCK_BITMAP], InodeBlock(t, ino))
  }

  /** m16_fsck after its mount. */
  function FsckMounted(disk: Disk): Rc {
    var t := LoadTable(disk);
    if !BitOf(disk[INODE_BITMAP], 0) || InodeUsed(t, 0) != 1 || InodeKind(t, 0) != 2
      || InodeBlock(t, 0) != ROOT_DIR then Corrupt
    else if exists b :: 0 <= b < DATA_START && !BitOf(disk[BLOCK_BITMAP], b) then Corrupt
    else if exists j :: 0 <= j < DIRENTS && !SlotSane(disk, j) then Corrupt
    else Ok
  }
}
