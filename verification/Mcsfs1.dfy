/**
 The MCSFS1 file system (fs/mcsfs1/mcsfs1.c) on a reliable device, as pure functions of
 its blocks: superblock, two bitmaps, four inode-table blocks, one directory block, data.
 */
module Mcsfs1 {
  import opened Bytes

  const MAX_INODES: nat := 32
  const DIRECT: nat := 8
  const MAX_NAME: nat := 27
  const DIRENTS: nat := 16
  const INODE_BMAP: nat := 1
  const BLOCK_BMAP: nat := 2
  const INODE_TABLE: nat := 3
  const ROOT_DIR: nat := 7
  const DATA_START: nat := 8
  const ROOT_INO: nat := 1
  const MODE_FILE: nat := 1
  const MODE_DIR: nat := 2
  const MAGIC: nat := 0x31465343

  datatype Rc = Ok | Inval | NoSpc | Exist | NoEnt | NameTooLong | Corrupt | IsDir | Range

  /** 16 to 4096 blocks, so that one block of bits covers them. */
  type Disk = d: seq<Block> | 16 <= |d| <= 4096 witness seq<Block>(16, i => ZeroBlock())

  datatype Result = Result(disk: Disk, rc: Rc)

  // ---------- superblock ----------

  predicate SuperOk(disk: Disk) {
    var sb := disk[0];
    && Field(sb, 0, 4) == MAGIC && Field(sb, 4, 4) == 1 && Field(sb, 8, 4) == 512
    && Field(sb, 12, 4) == |disk| && Field(sb, 16, 4) == MAX_INODES
    && Field(sb, 20, 4) == INODE_BMAP && Field(sb, 24, 4) == BLOCK_BMAP && Field(sb, 28, 4) == INODE_TABLE
    && Field(sb, 36, 4) == ROOT_INO && Field(sb, 40, 4) == ROOT_DIR && Field(sb, 44, 4) == DATA_START
  }

  function SuperMembers(n: nat): (ms: seq<Member>)
    requires n <= 4096
    ensures Layout(ms, 512)
  {
    Pow256Values();
    [Member(0, 4, MAGIC), Member(4, 4, 1), Member(8, 4, 512), Member(12, 4, n), Member(16, 4, MAX_INODES),
     Member(20, 4, INODE_BMAP), Member(24, 4, BLOCK_BMAP), Member(28, 4, INODE_TABLE), Member(32, 4, 4),
     Member(36, 4, ROOT_INO), Member(40, 4, ROOT_DIR), Member(44, 4, DATA_START), Member(48, 4, 1)]
  }

  // ---------- inodes: 60 bytes each, eight to a block ----------

  /** struct mcsfs1_inode_disk as bytes: mode, links, size, direct[8], reserved. */
  type Inode = b: seq<byte> | |b| == 60 witness seq(60, i => 0)

  function Mode(b: Inode): nat { Field(b, 0, 2) }
  function Size(b: Inode): nat { Field(b, 4, 4) }
  function Direct(b: Inode, d: nat): nat requires d < DIRECT { Field(b, 8 + 4 * d, 4) }

  function SetSize(b: Inode, v: nat): Inode { SetField(b, 4, 4, v) }
  function SetDirect(b: Inode, d: nat, v: nat): Inode requires d < DIRECT { SetField(b, 8 + 4 * d, 4, v) }

  function NewInode(mode: nat, size: nat, blk: nat): Inode
    requires mode < 256 && size < 0x1_0000_0000 && blk < 0x1_0000_0000
  {
    Pow256Values();
    SetMembers(Zeros(60), [Member(0, 2, mode), Member(2, 2, 1), Member(4, 4, size), Member(8, 4, blk)])
  }

  function InodeLba(ino: nat): nat
    requires 1 <= ino <= MAX_INODES
  {
    INODE_TABLE + (ino - 1) / 8
  }

  function InodeOff(ino: nat): (o: nat)
    requires 1 <= ino <= MAX_INODES
    ensures o + 60 <= 512
  {
    (ino - 1) % 8 * 60
  }

  function ReadInode(disk: Disk, ino: nat): Inode
    requires 1 <= ino <= MAX_INODES
  {
    disk[InodeLba(ino)][InodeOff(ino)..InodeOff(ino) + 60]
  }

  function WriteInode(disk: Disk, ino: nat, b: Inode): Disk
    requires 1 <= ino <= MAX_INODES
  {
    disk[InodeLba(ino) := Splice(disk[InodeLba(ino)], InodeOff(ino), b)]
  }

  // ---------- directory: 16 entries of 32 bytes ----------

  function SlotIno(dir: Block, j: nat): nat requires j < DIRENTS { Field(dir, 32 * j, 4) }

  /** The bytes mcsfs_strlen_bound may look at: the 27-byte name and one more, when the block has one more. */
  function NameWindow(dir: Block, j: nat): seq<byte>
    requires j < DIRENTS
  {
    dir[32 * j + 5..if j == 15 then 512 else 32 * j + 33]
  }

  predicate Match(dir: Block, name: seq<byte>, j: nat)
    requires j < DIRENTS
  {
    SlotIno(dir, j) != 0 && NameOf(NameWindow(dir, j)) == name
  }

  function FindSlot(dir: Block, name: seq<byte>, j: nat): (r: nat)
    requires j <= DIRENTS
    ensures j <= r <= DIRENTS
    ensures forall k :: j <= k < r ==> !Match(dir, name, k)
    ensures r < DIRENTS ==> Match(dir, name, r)
    decreases DIRENTS - j
  {
    if j == DIRENTS || Match(dir, name, j) then j else FindSlot(dir, name, j + 1)
  }

  function FreeSlot(dir: Block, j: nat): (r: nat)
    requires j <= DIRENTS
    ensures j <= r <= DIRENTS
    ensures r < DIRENTS ==> SlotIno(dir, r) == 0
    ensures forall k :: j <= k < r ==> SlotIno(dir, k) != 0
    decreases DIRENTS - j
  {
    if j == DIRENTS || SlotIno(dir, j) == 0 then j else FreeSlot(dir, j + 1)
  }

  function SetSlot(dir: Block, j: nat, ino: nat, name: seq<byte>): Block
    requires j < DIRENTS && ino <= MAX_INODES && |name| <= MAX_NAME
  {
    Splice(dir, 32 * j, Encode(ino, 4) + [MODE_FILE] + Padded(name, MAX_NAME))
  }

  function ClearSlot(dir: Block, j: nat): Block
    requires j < DIRENTS
  {
    Splice(dir, 32 * j, Zeros(32))
  }

  predicate NameOk(name: seq<byte>) { 0 < |name| <= MAX_NAME }

  // ---------- allocation ----------

  function StoreBitmaps(disk: Disk, ib: Block, bb: Block): Disk {
    disk[INODE_BMAP := ib][BLOCK_BMAP := bb]
  }

  function NextIno(disk: Disk): nat { FirstClear(disk[INODE_BMAP], 2, 33) }
  function NextBlk(disk: Disk): nat { FirstClear(disk[BLOCK_BMAP], DATA_START, |disk|) }

  /** alloc_data_block, when a block is free. */
  function MarkBlock(disk: Disk, b: nat): Disk
    requires b < 4096
  {
    StoreBitmaps(disk, disk[INODE_BMAP], BitSet(disk[BLOCK_BMAP], b))
  }

  // ---------- operations ----------

  function Create(disk: Disk, name: seq<byte>): Result {
    var dir := disk[ROOT_DIR];
    if !NameOk(name) then Result(disk, NameTooLong)
    else if FindSlot(dir, name, 0) < DIRENTS then Result(disk, Exist)
    else
      var slot, ino, blk := FreeSlot(dir, 0), NextIno(disk), NextBlk(disk);
      if slot == DIRENTS || ino == 33 || blk == |disk| then Result(disk, NoSpc)
      else Result(Install(disk, slot, ino, blk, name), Ok)
  }

  /** The writes of a successful create. */
  function Install(disk: Disk, slot: nat, ino: nat, blk: nat, name: seq<byte>): Disk
    requires slot < DIRENTS && 2 <= ino <= MAX_INODES && blk < |disk| && |name| <= MAX_NAME
  {
    var d1 := StoreBitmaps(disk, BitSet(disk[INODE_BMAP], ino), BitSet(disk[BLOCK_BMAP], blk));
    var d2 := WriteInode(d1, ino, NewInode(MODE_FILE, 0, blk));
    d2[ROOT_DIR := SetSlot(disk[ROOT_DIR], slot, ino, name)]
  }

  datatype Grown = Grown(disk: Disk, inode: Inode, ok: bool)

  /** Allocate the missing direct blocks i..need-1; on failure the blocks already marked stay marked. */
  function Grow(disk: Disk, b: Inode, i: nat, need: nat): (g: Grown)
    requires i <= need <= DIRECT
    ensures |g.disk| == |disk|
    decreases need - i
  {
    if i == need then Grown(disk, b, true)
    else if Direct(b, i) != 0 then Grow(disk, b, i + 1, need)
    else
      var blk := NextBlk(disk);
      if blk == |disk| then Grown(disk, b, false)
      else Grow(MarkBlock(disk, blk), SetDirect(b, i, blk), i + 1, need)
  }

  /** Block i of a file holding buf: its 512-byte piece, zero padded. */
  function Chunk(buf: seq<byte>, i: nat): Block {
    var lo := if 512 * i < |buf| then 512 * i else |buf|;
    var hi := if 512 * (i + 1) < |buf| then 512 * (i + 1) else |buf|;
    Padded(buf[lo..hi], 512)
  }

  /** Write the first k pieces of buf through the inode's direct blocks. */
  function Fill(disk: Disk, b: Inode, buf: seq<byte>, k: nat): (d: Disk)
    requires k <= DIRECT
    ensures |d| == |disk|
  {
    if k == 0 then disk
    else
      var d, lba := Fill(disk, b, buf, k - 1), Direct(b, k - 1);
      if lba < |disk| then d[lba := Chunk(buf, k - 1)] else d
  }

  function Need(len: nat): nat {
    if len == 0 then 1 else (len + 511) / 512
  }

  function Write(disk: Disk, name: seq<byte>, buf: seq<byte>): Result {
    if |buf| > 4096 then Result(disk, Range)
    else if !NameOk(name) then Result(disk, NameTooLong)
    else
      var slot := FindSlot(disk[ROOT_DIR], name, 0);
      if slot == DIRENTS then Result(disk, NoEnt)
      else
        var ino := SlotIno(disk[ROOT_DIR], slot);
        if ino > MAX_INODES then Result(disk, Inval)
        else WriteFile(disk, ino, buf)
  }

  function WriteFile(disk: Disk, ino: nat, buf: seq<byte>): Result
    requires 1 <= ino <= MAX_INODES && |buf| <= 4096
  {
    var b := ReadInode(disk, ino);
    if Mode(b) != MODE_FILE then Result(disk, IsDir)
    else
      var g := Grow(disk, b, 0, Need(|buf|));
      if !g.ok then Result(g.disk, NoSpc)
      else
        var k := OffDevice(g.inode, |disk|, 0, Need(|buf|));
        if k < Need(|buf|) then Result(Fill(g.disk, g.inode, buf, k), Range)
        else Result(WriteInode(Fill(g.disk, g.inode, buf, k), ino, SetSize(g.inode, |buf|)), Ok)
  }

  /** The first of the direct blocks i..k-1 that lies beyond a device of n blocks, or k. */
  function OffDevice(b: Inode, n: nat, i: nat, k: nat): (r: nat)
    requires i <= k <= DIRECT
    ensures i <= r <= k && (forall d :: i <= d < r ==> Direct(b, d) < n) && (r < k ==> Direct(b, r) >= n)
    decreases k - i
  {
    if i == k || Direct(b, i) >= n then i else OffDevice(b, n, i + 1, k)
  }

  /** ReadShort: the call succeeds and claims more bytes than the eight direct blocks gave. */
  datatype ReadResult = ReadOk(data: seq<byte>) | ReadShort(data: seq<byte>, claimed: nat) | ReadErr(rc: Rc)

  /** The first k direct blocks one after the other. */
  function Gather(disk: Disk, b: Inode, k: nat): seq<byte>
    requires k <= DIRECT
  {
    if k == 0 then []
    else Gather(disk, b, k - 1) + (if Direct(b, k - 1) < |disk| then disk[Direct(b, k - 1)] else [])
  }

  function Read(disk: Disk, name: seq<byte>, cap: nat): ReadResult {
    if !NameOk(name) then ReadErr(NameTooLong)
    else
      var slot := FindSlot(disk[ROOT_DIR], name, 0);
      if slot == DIRENTS then ReadErr(NoEnt)
      else
        var ino := SlotIno(disk[ROOT_DIR], slot);
        if ino > MAX_INODES then ReadErr(Inval) else ReadFile(ReadInode(disk, ino), disk, cap)
  }

  /** The first of the direct blocks i..k-1 that is missing or beyond a device of n blocks, or k. */
  function Unreadable(b: Inode, n: nat, i: nat, k: nat): (r: nat)
    requires i <= k <= DIRECT
    ensures i <= r <= k && (forall d :: i <= d < r ==> 0 < Direct(b, d) < n)
    ensures r < k ==> Direct(b, r) == 0 || Direct(b, r) >= n
    decreases k - i
  {
    if i == k || Direct(b, i) == 0 || Direct(b, i) >= n then i else Unreadable(b, n, i + 1, k)
  }

  /** How many direct blocks a read of this many bytes visits. */
  function Visited(size: nat): (k: nat)
    ensures k <= DIRECT
  {
    if size > 4096 then DIRECT else (size + 511) / 512
  }

  /** mcsfs1_read once the inode has been found. */
  function ReadFile(b: Inode, disk: Disk, cap: nat): ReadResult {
    if Mode(b) != MODE_FILE then ReadErr(IsDir)
    else if cap < Size(b) then ReadErr(Range)
    else
      var k := Visited(Size(b));
      var i := Unreadable(b, |disk|, 0, k);
      if i < k then ReadErr(if Direct(b, i) == 0 then Corrupt else Range)
      else
        var all := Gather(disk, b, k);
        if Size(b) <= |all| then ReadOk(all[..Size(b)]) else ReadShort(all, Size(b))
  }

  function ClearBits(bb: Block, b: Inode, n: nat, k: nat): Block
    requires k <= DIRECT && n <= 4096
  {
    if k == 0 then bb
    else
      var x := ClearBits(bb, b, n, k - 1);
      if Direct(b, k - 1) != 0 && Direct(b, k - 1) < n then BitClear(x, Direct(b, k - 1)) else x
  }

  function Unlink(disk: Disk, name: seq<byte>): Result {
    if !NameOk(name) then Result(disk, NameTooLong)
    else
      var slot := FindSlot(disk[ROOT_DIR], name, 0);
      if slot == DIRENTS then Result(disk, NoEnt)
      else
        var ino := SlotIno(disk[ROOT_DIR], slot);
        if ino > MAX_INODES then Result(disk, Inval) else Result(Remove(disk, slot, ino), Ok)
  }

  /** The writes of a successful unlink. */
  function Remove(disk: Disk, slot: nat, ino: nat): Disk
    requires slot < DIRENTS && 1 <= ino <= MAX_INODES
  {
    var b := ReadInode(disk, ino);
    var d1 := disk[ROOT_DIR := ClearSlot(disk[ROOT_DIR], slot)];
    StoreBitmaps(d1, BitClear(disk[INODE_BMAP], ino), ClearBits(disk[BLOCK_BMAP], b, |disk|, DIRECT))
  }

  predicate RootOk(disk: Disk) {
    Mode(ReadInode(disk, ROOT_INO)) == MODE_DIR && Direct(ReadInode(disk, ROOT_INO), 0) == ROOT_DIR
  }

  function Mount(disk: Disk): Rc {
    if !SuperOk(disk) || !RootOk(disk) then Corrupt else Ok
  }

  function Fsck(disk: Disk): Rc {
    if !SuperOk(disk) || !RootOk(disk) || Size(ReadInode(disk, ROOT_INO)) > 4096
      || Field(disk[0], 48, 4) != 1 then Corrupt
    else if exists b :: 0 <= b < DATA_START && !BitOf(disk[BLOCK_BMAP], b) then Corrupt
    else if exists j :: 0 <= j < DIRENTS && SlotIno(disk[ROOT_DIR], j) != 0
                        && (SlotIno(disk[ROOT_DIR], j) > MAX_INODES
                              || !BitOf(disk[INODE_BMAP], SlotIno(disk[ROOT_DIR], j))) then Corrupt
    else Ok
  }

  // ---------- format ----------

  function FormatDisk(n: nat): (d: Disk)
    requires 16 <= n <= 4096
    ensures |d| == n
  {
    hide SetMembers, NewInode, BitSet, LowBits, Splice;
    var z := seq<Block>(n, i => ZeroBlock());
    var d1: Disk := z[0 := SetMembers(ZeroBlock(), SuperMembers(n))];
    var d2 := StoreBitmaps(d1, LowBits(2), BitSet(LowBits(DATA_START), ROOT_DIR));
    var d3 := WriteInode(d2, ROOT_INO, NewInode(MODE_DIR, 512, ROOT_DIR));
    d3[ROOT_DIR := ZeroBlock()]
  }
}
