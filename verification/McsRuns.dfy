/**
 Whole runs of MCSFS1 on a reliable device: after a format, any sequence of calls behaves
 as a map from names to contents.
 */
module McsRuns {
  import opened Bytes
  import opened Mcsfs1
  import opened McsInv
  import opened McsOps
  import opened McsWrite

  type Catalog = map<seq<byte>, seq<byte>>

  // ---------- inodes are marked only for files ----------

  predicate Owned(disk: Disk, i: nat) {
    exists j :: 0 <= j < DIRENTS && InoOf(disk, j) == i
  }

  /** Every marked inode other than 0 and the root belongs to a directory entry. */
  predicate Tight(disk: Disk) {
    forall i :: 2 <= i <= MAX_INODES && BitOf(disk[INODE_BMAP], i) ==> Owned(disk, i)
  }

  predicate Good(disk: Disk) { FsOk(disk) && Tight(disk) }

  lemma {:induction false} TightMeta(a: Disk, b: Disk)
    requires Tight(a) && a[INODE_BMAP] == b[INODE_BMAP] && a[ROOT_DIR] == b[ROOT_DIR]
    ensures Tight(b)
  {
    hide BitOf, Field;
    forall i | 2 <= i <= MAX_INODES && BitOf(b[INODE_BMAP], i) ensures Owned(b, i) {
      assert Owned(a, i);
      var j :| 0 <= j < DIRENTS && InoOf(a, j) == i;
      assert InoOf(b, j) == i;
    }
  }

  lemma {:induction false} TightInstall(disk: Disk, slot: nat, ino: nat, blk: nat, name: seq<byte>)
    requires Tight(disk) && slot < DIRENTS && !Live(disk, slot) && 2 <= ino <= MAX_INODES && blk < |disk|
    requires CString(name) && |name| < MAX_NAME
    ensures Tight(Install(disk, slot, ino, blk, name))
  {
    hide BitOf, BitSet, Field, NewInode, Splice, SetSlot;
    var d := Install(disk, slot, ino, blk, name);
    assert d[INODE_BMAP] == BitSet(disk[INODE_BMAP], ino) && d[ROOT_DIR] == SetSlot(disk[ROOT_DIR], slot, ino, name);
    forall i | 2 <= i <= MAX_INODES && BitOf(d[INODE_BMAP], i) ensures Owned(d, i) {
      BitSetAt(disk[INODE_BMAP], ino, i);
      if i == ino {
        NewSlot(disk[ROOT_DIR], slot, ino, name);
        assert InoOf(d, slot) == i;
      } else {
        assert Owned(disk, i);
        var j :| 0 <= j < DIRENTS && InoOf(disk, j) == i;
        SlotElsewhere(disk, slot, ino, name, j);
        assert InoOf(d, j) == i;
      }
    }
  }

  lemma {:induction false} SlotElsewhere(disk: Disk, slot: nat, ino: nat, name: seq<byte>, j: nat)
    requires slot < DIRENTS && j < DIRENTS && j != slot && ino <= MAX_INODES && |name| <= MAX_NAME
    ensures SlotIno(SetSlot(disk[ROOT_DIR], slot, ino, name), j) == SlotIno(disk[ROOT_DIR], j)
  {
    hide Field;
    DeadKept(disk, slot, Encode(ino, 4) + [MODE_FILE] + Padded(name, MAX_NAME), j);
  }

  lemma {:induction false} TightRemove(disk: Disk, slot: nat)
    requires Tight(disk) && slot < DIRENTS && 2 <= InoOf(disk, slot) <= MAX_INODES
    ensures Tight(Remove(disk, slot, InoOf(disk, slot)))
  {
    hide BitOf, BitClear, Field, ClearBits, Splice;
    var ino := InoOf(disk, slot);
    var d := Remove(disk, slot, ino);
    forall i | 2 <= i <= MAX_INODES && BitOf(d[INODE_BMAP], i) ensures Owned(d, i) {
      BitClearAt(disk[INODE_BMAP], ino, i);
      assert Owned(disk, i);
      var j :| 0 <= j < DIRENTS && InoOf(disk, j) == i;
      DeadKept(disk, slot, Zeros(32), j);
      assert InoOf(d, j) == i;
    }
  }

  /** The inode numbers of the first k entries. */
  function Inos(disk: Disk, k: nat): (s: set<nat>)
    requires k <= DIRENTS
    ensures |s| <= k
    ensures forall j :: 0 <= j < k ==> InoOf(disk, j) in s
  {
    if k == 0 then {} else Inos(disk, k - 1) + {InoOf(disk, k - 1)}
  }

  function Upto(lo: nat, hi: nat): (s: set<nat>)
    requires lo <= hi
    ensures |s| == hi - lo
    ensures forall x :: x in s <==> lo <= x < hi
  {
    if lo == hi then {} else {hi - 1} + Upto(lo, hi - 1)
  }

  lemma {:induction false} Subset(a: set<nat>, b: set<nat>)
    requires a <= b
    ensures |a| <= |b|
    decreases a
  {
    if a != {} {
      var x :| x in a;
      Subset(a - {x}, b - {x});
    }
  }

  /** Sixteen entries can never use up thirty-one inodes. */
  lemma {:induction false} InodeFree(disk: Disk)
    requires Tight(disk)
    ensures NextIno(disk) <= MAX_INODES
  {
    hide BitOf, FirstClear, Field;
    if forall i :: 2 <= i < 33 ==> BitOf(disk[INODE_BMAP], i) {
      forall i | 2 <= i < 33 ensures i in Inos(disk, DIRENTS) { assert Owned(disk, i); }
      Subset(Upto(2, 33), Inos(disk, DIRENTS));
      assert false;
    }
  }

  /** One name per live entry: the map is full exactly when the directory is. */
  lemma {:induction false} CountFiles(disk: Disk, k: nat)
    requires FsOk(disk) && k <= DIRENTS
    ensures |FilesUpTo(disk, k)| == |LiveSlots(disk, k)|
  {
    hide FsOk, Live, NameAt, DataAt, LiveSlots;
    if k == 0 {
      NoLiveSlots(disk);
    } else {
      CountFiles(disk, k - 1);
      if Live(disk, k - 1) {
        NewName(disk, k - 1);
      }
      LiveSlotsNext(disk, k - 1);
    }
  }

  lemma {:induction false} NoLiveSlots(disk: Disk)
    ensures LiveSlots(disk, 0) == {}
  {
  }

  lemma {:induction false} LiveSlotsNext(disk: Disk, k: nat)
    requires k < DIRENTS
    ensures |LiveSlots(disk, k + 1)| == |LiveSlots(disk, k)| + if Live(disk, k) then 1 else 0
  {
    hide Live;
    assert LiveSlots(disk, k + 1) == LiveSlots(disk, k) + if Live(disk, k) then {k} else {};
  }

  lemma {:induction false} NewName(disk: Disk, k: nat)
    requires FsOk(disk) && k < DIRENTS && Live(disk, k)
    ensures NameAt(disk, k) !in FilesUpTo(disk, k)
  {
    hide SystemOk, SlotOk, Live, NameAt, NoShared;
    forall j | 0 <= j < k && Live(disk, j) ensures NameAt(disk, j) != NameAt(disk, k) { assert Apart(disk, j, k); }
    FilesUpToNone(disk, k, NameAt(disk, k));
  }

  function LiveSlots(disk: Disk, k: nat): set<nat>
    requires k <= DIRENTS
  {
    set j: nat | j < k && Live(disk, j)
  }

  lemma {:induction false} FullIff(disk: Disk)
    requires FsOk(disk)
    ensures FreeSlot(disk[ROOT_DIR], 0) == DIRENTS <==> |Files(disk)| == DIRENTS
  {
    hide FsOk, Field, FreeSlot;
    CountFiles(disk, DIRENTS);
    var s := FreeSlot(disk[ROOT_DIR], 0);
    FilesIs(disk);
    if s == DIRENTS {
      assert LiveSlots(disk, DIRENTS) == Upto(0, DIRENTS);
    } else {
      Subset(LiveSlots(disk, DIRENTS), Upto(0, DIRENTS) - {s});
    }
  }

  /** create runs out of space exactly when there are 16 files or no free data block. */
  lemma {:induction false} CreateNoSpcIff(disk: Disk, name: seq<byte>)
    requires Good(disk) && CString(name) && 0 < |name| < MAX_NAME
    ensures Create(disk, name).rc == NoSpc <==>
            name !in Files(disk) && (|Files(disk)| == DIRENTS || FreeBlocks(disk) == {})
  {
    hide FsOk, Field, FreeSlot, FindSlot, Files, Install, BitOf, FirstClear, Tight;
    FindIsFiles(disk, name);
    FullIff(disk);
    InodeFree(disk);
    var blk := NextBlk(disk);
    assert blk < |disk| ==> blk in FreeBlocks(disk);
    if blk == |disk| { NoneFree(disk); }
  }

  // ---------- format ----------

  lemma {:induction false} FormatSuper(n: nat)
    requires 16 <= n <= 4096
    ensures SuperOk(FormatDisk(n)) && Field(FormatDisk(n)[0], 48, 4) == 1
  {
    hide SetMembers, Field, NewInode, Splice;
    var ms := SuperMembers(n);
    var sb: Block := SetMembers(ZeroBlock(), ms);
    assert FormatDisk(n)[0] == sb;
    forall i | 0 <= i < |ms| ensures Field(sb, ms[i].off, ms[i].n) == ms[i].v { MemberAt(ZeroBlock(), ms, i); }
    SuperFields(sb, n);
  }

  lemma {:induction false} SuperFields(sb: Block, n: nat)
    requires n <= 4096
    requires var ms := SuperMembers(n); forall i :: 0 <= i < |ms| ==> Field(sb, ms[i].off, ms[i].n) == ms[i].v
    ensures Field(sb, 0, 4) == MAGIC && Field(sb, 4, 4) == 1 && Field(sb, 8, 4) == 512
    ensures Field(sb, 12, 4) == n && Field(sb, 16, 4) == MAX_INODES
    ensures Field(sb, 20, 4) == INODE_BMAP && Field(sb, 24, 4) == BLOCK_BMAP && Field(sb, 28, 4) == INODE_TABLE
    ensures Field(sb, 36, 4) == ROOT_INO && Field(sb, 40, 4) == ROOT_DIR && Field(sb, 44, 4) == DATA_START
            && Field(sb, 48, 4) == 1
  {
    hide Field, Layout;
    var ms := SuperMembers(n);
    assert ms[0] == Member(0, 4, MAGIC) && ms[1] == Member(4, 4, 1) && ms[2] == Member(8, 4, 512)
           && ms[3] == Member(12, 4, n);
    assert ms[4] == Member(16, 4, MAX_INODES) && ms[5] == Member(20, 4, INODE_BMAP)
           && ms[6] == Member(24, 4, BLOCK_BMAP);
    assert ms[7] == Member(28, 4, INODE_TABLE) && ms[9] == Member(36, 4, ROOT_INO) && ms[10] == Member(40, 4, ROOT_DIR);
    assert ms[11] == Member(44, 4, DATA_START) && ms[12] == Member(48, 4, 1);
  }

  lemma {:induction false} FormatRoot(n: nat)
    requires 16 <= n <= 4096
    ensures RootOk(FormatDisk(n)) && Size(ReadInode(FormatDisk(n), ROOT_INO)) == 512
  {
    hide SetMembers, Field, NewInode, Splice, BitSet;
    var b := NewInode(MODE_DIR, 512, ROOT_DIR);
    var z := seq<Block>(n, i => ZeroBlock());
    var d1: Disk := z[0 := SetMembers(ZeroBlock(), SuperMembers(n))];
    var d2 := StoreBitmaps(d1, LowBits(2), BitSet(LowBits(DATA_START), ROOT_DIR));
    WriteInodeAt(d2, ROOT_INO, b, ROOT_INO);
    NewInodeAt(MODE_DIR, 512, ROOT_DIR);
    var d3 := WriteInode(d2, ROOT_INO, b);
    assert ReadInode(FormatDisk(n), ROOT_INO) == ReadInode(d3, ROOT_INO);
  }

  /** A formatted device is consistent and holds no file. */
  lemma {:induction false} FormatRefines(n: nat)
    requires 16 <= n <= 4096
    ensures Good(FormatDisk(n)) && Files(FormatDisk(n)) == map[]
    ensures forall x :: DATA_START <= x < n ==> x in FreeBlocks(FormatDisk(n))
  {
    hide SetMembers, Field, NewInode, Splice, BitSet, BitOf, SuperOk, RootOk, Mode, Size, Direct, LowBits;
    var d := FormatDisk(n);
    FormatSuper(n);
    FormatRoot(n);
    assert d[ROOT_DIR] == ZeroBlock() && d[INODE_BMAP] == LowBits(2)
           && d[BLOCK_BMAP] == BitSet(LowBits(DATA_START), ROOT_DIR);
    forall x | 0 <= x < 4096
      ensures (BitOf(d[INODE_BMAP], x) <==> x < 2) && (BitOf(d[BLOCK_BMAP], x) <==> x < DATA_START)
    {
      LowBitsAt(2, x);
      LowBitsAt(DATA_START, x);
      BitSetAt(LowBits(DATA_START), ROOT_DIR, x);
    }
    forall j | 0 <= j < DIRENTS ensures !Live(d, j) { FieldOfZeros(512, 32 * j, 4); }
    assert SystemOk(d);
    NoLiveNoFiles(d);
  }

  lemma {:induction false} NoLiveNoFiles(d: Disk)
    requires SystemOk(d) && forall j :: 0 <= j < DIRENTS ==> !Live(d, j)
    ensures FsOk(d) && Files(d) == map[]
  {
    hide SystemOk, Field, InodeOk, NameOf;
    forall name ensures name !in FilesUpTo(d, DIRENTS) { FilesUpToNone(d, DIRENTS, name); }
  }

  // ---------- runs ----------

  datatype Op = DoCreate(name: seq<byte>) | DoWrite(name: seq<byte>, data: seq<byte>) | DoUnlink(name: seq<byte>)

  predicate OpOk(op: Op) { CString(op.name) && |op.name| < MAX_NAME }

  function Perform(disk: Disk, op: Op): Result {
    match op
    case DoCreate(name) => Create(disk, name)
    case DoWrite(name, data) => Write(disk, name, data)
    case DoUnlink(name) => Unlink(disk, name)
  }

  function Run(disk: Disk, ops: seq<Op>): Disk
    decreases |ops|
  {
    if ops == [] then disk else Run(Perform(disk, ops[0]).disk, ops[1..])
  }

  /** What each call returned. */
  function Replies(disk: Disk, ops: seq<Op>): (rs: seq<Rc>)
    ensures |rs| == |ops|
    decreases |ops|
  {
    if ops == [] then [] else var r := Perform(disk, ops[0]); [r.rc] + Replies(r.disk, ops[1..])
  }

  /** A call that succeeds updates the map in the obvious way; one that fails does nothing. */
  function Abstractly(m: Catalog, op: Op, rc: Rc): Catalog {
    if rc != Ok then m
    else match op
      case DoCreate(name) => m[name := []]
      case DoWrite(name, data) => m[name := data]
      case DoUnlink(name) => m - {name}
  }

  function AbstractRun(m: Catalog, ops: seq<Op>, rs: seq<Rc>): Catalog
    requires |ops| == |rs|
    decreases |ops|
  {
    if ops == [] then m else AbstractRun(Abstractly(m, ops[0], rs[0]), ops[1..], rs[1..])
  }

  /**
   Which replies the map and the count of free blocks allow: create, write and unlink fail
   only for the reasons a caller can name.
   */
  predicate ReplyOk(disk: Disk, op: Op, rc: Rc)
    requires FsOk(disk)
  {
    var m := Files(disk);
    match op
    case DoCreate(name) =>
      rc == if |name| == 0 then NameTooLong else if name in m then Exist
            else if |m| == DIRENTS || FreeBlocks(disk) == {} then NoSpc else Ok
    case DoWrite(name, data) =>
      rc == if |data| > 4096 then Range else if |name| == 0 then NameTooLong else if name !in m then NoEnt
            else if Wanted(disk, name, |data|) > |FreeBlocks(disk)| then NoSpc else Ok
    case DoUnlink(name) =>
      rc == if |name| == 0 then NameTooLong else if name !in m then NoEnt else Ok
  }

  /** One call: the disk stays consistent, the map changes as promised, the reply is the right one. */
  lemma {:induction false} PerformRefines(disk: Disk, op: Op)
    requires Good(disk) && OpOk(op)
    ensures var r := Perform(disk, op);
            && Good(r.disk) && |r.disk| == |disk|
            && Files(r.disk) == Abstractly(Files(disk), op, r.rc)
            && ReplyOk(disk, op, r.rc)
  {
    hide FsOk, Files, Create, Write, Unlink, Tight, FreeBlocks, Wanted;
    PerformTight(disk, op);
    EmptyName(disk);
    match op
    case DoCreate(name) =>
      CreateRefines(disk, name);
      if |name| > 0 { CreateNoSpcIff(disk, name); }
    case DoWrite(name, data) => WriteRefines(disk, name, data);
    case DoUnlink(name) => UnlinkRefines(disk, name);
  }

  lemma {:induction false} PerformTight(disk: Disk, op: Op)
    requires Good(disk) && OpOk(op)
    ensures Tight(Perform(disk, op).disk) && |Perform(disk, op).disk| == |disk|
  {
    hide FsOk, Tight, FindSlot, FreeSlot, FirstClear, Install, Remove, WriteFile, Field, ReadInode, NameOf, BitOf;
    FindIsFiles(disk, op.name);
    match op
    case DoCreate(name) =>
      if Create(disk, name).rc == Ok {
        TightInstall(disk, FreeSlot(disk[ROOT_DIR], 0), NextIno(disk), NextBlk(disk), name);
        InstalledIs(disk, FreeSlot(disk[ROOT_DIR], 0), NextIno(disk), NextBlk(disk), name);
      }
    case DoWrite(name, data) =>
      var s := FindSlot(disk[ROOT_DIR], name, 0);
      if |data| <= 4096 && NameOk(name) && s < DIRENTS { WriteTight(disk, s, data); }
    case DoUnlink(name) =>
      var s := FindSlot(disk[ROOT_DIR], name, 0);
      if NameOk(name) && s < DIRENTS { TightRemove(disk, s); RemoveSize(disk, s, InoOf(disk, s)); }
  }

  lemma {:induction false} RemoveSize(disk: Disk, slot: nat, ino: nat)
    requires slot < DIRENTS && 1 <= ino <= MAX_INODES
    ensures |Remove(disk, slot, ino)| == |disk|
  {
    hide ClearBits, ClearSlot, BitClear, Splice;
  }

  lemma {:induction false} WriteTight(disk: Disk, slot: nat, buf: seq<byte>)
    requires Good(disk) && slot < DIRENTS && Live(disk, slot) && SlotOk(disk, slot) && |buf| <= 4096
    ensures Tight(WriteFile(disk, InoOf(disk, slot), buf).disk)
    ensures |WriteFile(disk, InoOf(disk, slot), buf).disk| == |disk|
  {
    hide Fits, FsOk, Direct, BitOf, FreeBlocks, Missing, Grow, NameAt, Need, Field, Tight, Fill, SetSize;
    var b := ReadInode(disk, InoOf(disk, slot));
    NeedBounds(|buf|);
    OwnFits(disk, slot);
    GrowKeeps(disk, slot, b, 0, Need(|buf|));
    var g := Grow(disk, b, 0, Need(|buf|));
    TightMeta(disk, g.disk);
    if g.ok {
      FitsInode(g.disk, slot, g.inode);
      FitsSound(g.disk, g.inode, Need(|buf|));
      StoredAt(g.disk, InoOf(disk, slot), g.inode, buf);
      TightMeta(g.disk, Stored(g.disk, InoOf(disk, slot), g.inode, buf));
    }
  }

  lemma {:induction false} FitsInode(disk: Disk, slot: nat, b: Inode)
    requires FsOk(disk) && slot < DIRENTS && Fits(disk, slot, b)
    ensures InodeOk(disk, b)
  {
    hide FsOk, InodeOk;
  }

  /** Every file is at most eight blocks long. */
  lemma {:induction false} SmallFiles(disk: Disk, name: seq<byte>)
    requires FsOk(disk) && name in Files(disk)
    ensures 0 < |name| < MAX_NAME && |Files(disk)[name]| <= 4096
  {
    hide FsOk, Files, FindSlot, Gather, Field, BitOf, NameOf;
    FindIsFiles(disk, name);
    ReadFileRefines(disk, ReadInode(disk, InoOf(disk, FindSlot(disk[ROOT_DIR], name, 0))), 0);
  }

  /** The whole run: consistent in the end, and the map is the abstract run's. */
  lemma {:induction false} RunRefines(disk: Disk, ops: seq<Op>)
    requires Good(disk) && forall i :: 0 <= i < |ops| ==> OpOk(ops[i])
    ensures var d := Run(disk, ops); Good(d) && Files(d) == AbstractRun(Files(disk), ops, Replies(disk, ops))
    decreases |ops|
  {
    hide Good, Files, Perform, FsOk, OpOk, Abstractly, ReplyOk;
    if ops != [] {
      assert OpOk(ops[0]);
      PerformRefines(disk, ops[0]);
      GoodIs(disk);
      RunRefines(Perform(disk, ops[0]).disk, ops[1..]);
    }
  }

  lemma {:induction false} GoodIs(disk: Disk)
    requires Good(disk)
    ensures FsOk(disk)
  {
  }

  /**
   From a format, on a device of any admissible size, after any run of calls: the file system
   passes fsck, and every read returns what the abstract run says.
   */
  lemma {:induction false} FormattedRuns(n: nat, ops: seq<Op>, name: seq<byte>, cap: nat)
    requires 16 <= n <= 4096 && forall i :: 0 <= i < |ops| ==> OpOk(ops[i])
    requires CString(name) && 0 < |name| < MAX_NAME
    ensures var d := FormatDisk(n);
            var m := AbstractRun(map[], ops, Replies(d, ops));
            && Fsck(Run(d, ops)) == Ok && Mount(Run(d, ops)) == Ok && |m| <= DIRENTS
            && (name in m ==> |m[name]| <= 4096)
            && Read(Run(d, ops), name, cap) ==
               if name !in m then ReadErr(NoEnt) else if cap < |m[name]| then ReadErr(Range) else ReadOk(m[name])
  {
    hide FsOk, Files, Fsck, Mount, Read, Tight, FormatDisk, OpOk, Run, Replies, AbstractRun;
    var d := FormatDisk(n);
    FormatRefines(n);
    RunRefines(d, ops);
    FsOkPassesFsck(Run(d, ops));
    ReadRefines(Run(d, ops), name, cap);
    if name in Files(Run(d, ops)) { SmallFiles(Run(d, ops), name); }
  }

  lemma {:induction false} AbstractElsewhere(m: Catalog, ops: seq<Op>, rs: seq<Rc>, name: seq<byte>)
    requires |ops| == |rs| && forall i :: 0 <= i < |ops| ==> ops[i].name != name
    ensures var r := AbstractRun(m, ops, rs); (name in r <==> name in m) && (name in m ==> r[name] == m[name])
    decreases |ops|
  {
    if ops != [] {
      assert ops[0].name != name;
      AbstractElsewhere(Abstractly(m, ops[0], rs[0]), ops[1..], rs[1..], name);
    }
  }

  /**
   Read returns the last contents: what a successful write stored is what a later read
   gives, whatever happens to other files in between.
   */
  lemma {:induction false} ReadLastWrite(disk: Disk, name: seq<byte>, data: seq<byte>, ops: seq<Op>, cap: nat)
    requires Good(disk) && OpOk(DoWrite(name, data)) && Write(disk, name, data).rc == Ok && cap >= |data|
    requires forall i :: 0 <= i < |ops| ==> OpOk(ops[i]) && ops[i].name != name
    ensures Read(Run(Write(disk, name, data).disk, ops), name, cap) == ReadOk(data)
  {
    hide FsOk, Files, Read, Write, Tight, Run, Replies, AbstractRun;
    PerformRefines(disk, DoWrite(name, data));
    var d := Write(disk, name, data).disk;
    RunRefines(d, ops);
    AbstractElsewhere(Files(d), ops, Replies(d, ops), name);
    EmptyName(Run(d, ops));
    ReadRefines(Run(d, ops), name, cap);
  }

  /** The two inode slots (j, d) and (k, e) hold sound blocks, and different ones unless they are one. */
  predicate SoundPair(disk: Disk, j: nat, d: nat, k: nat, e: nat)
    requires j < DIRENTS && k < DIRENTS && d < DIRECT && e < DIRECT
  {
    Live(disk, j) && Live(disk, k) ==>
      && 2 <= InoOf(disk, j) <= MAX_INODES && BitOf(disk[INODE_BMAP], InoOf(disk, j))
      && 2 <= InoOf(disk, k) <= MAX_INODES
      && (j != k ==> NameAt(disk, j) != NameAt(disk, k) && InoOf(disk, j) != InoOf(disk, k))
      && var x := Direct(ReadInode(disk, InoOf(disk, j)), d);
         x != 0 ==>
           && DATA_START <= x < |disk| && BitOf(disk[BLOCK_BMAP], x)
           && (j != k || d != e ==> x != Direct(ReadInode(disk, InoOf(disk, k)), e))
  }

  predicate SystemMarked(disk: Disk) {
    forall b :: 0 <= b < DATA_START ==> BitOf(disk[BLOCK_BMAP], b)
  }

  /**
   Ownership after any run from a format: a block in some live entry's inode is a data block,
   marked, and in no other place of that or any other live entry; system blocks stay marked.
   */
  lemma {:induction false} OwnedOnce(n: nat, ops: seq<Op>, j: nat, d: nat, k: nat, e: nat)
    requires 16 <= n <= 4096 && forall i :: 0 <= i < |ops| ==> OpOk(ops[i])
    requires j < DIRENTS && k < DIRENTS && d < DIRECT && e < DIRECT
    ensures SoundPair(Run(FormatDisk(n), ops), j, d, k, e) && SystemMarked(Run(FormatDisk(n), ops))
  {
    hide FormatDisk, Run, Files, BitOf, Field, NameOf, SuperOk, RootOk, ReadInode, OpOk;
    FormatRefines(n);
    RunRefines(FormatDisk(n), ops);
    var disk := Run(FormatDisk(n), ops);
    assert SlotOk(disk, j) && SlotOk(disk, k);
    if Live(disk, j) { assert BlockOk(disk, ReadInode(disk, InoOf(disk, j)), d); }
    if j != k { assert Apart(disk, j, k); }
  }
}
