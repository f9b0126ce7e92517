/**
 Consistency of an MCSFS1 disk, its meaning as a map from names to contents, and the raw
 effect of each kind of block write.
 */
module McsInv {
  import opened Bytes
  import opened Mcsfs1

  predicate Live(disk: Disk, j: nat)
    requires j < DIRENTS
  {
    SlotIno(disk[ROOT_DIR], j) != 0
  }

  function InoOf(disk: Disk, j: nat): nat
    requires j < DIRENTS
  {
    SlotIno(disk[ROOT_DIR], j)
  }

  function NameAt(disk: Disk, j: nat): seq<byte>
    requires j < DIRENTS
  {
    NameOf(NameWindow(disk[ROOT_DIR], j))
  }

  /** An allocated direct block is a data block of the device, marked in the bitmap. */
  predicate BlockOk(disk: Disk, b: Inode, d: nat)
    requires d < DIRECT
  {
    Direct(b, d) != 0 ==> DATA_START <= Direct(b, d) < |disk| && BitOf(disk[BLOCK_BMAP], Direct(b, d))
  }

  /** Direct blocks of one inode are pairwise different. */
  predicate SelfApart(b: Inode) {
    forall d, e :: 0 <= d < DIRECT && 0 <= e < DIRECT && d != e && Direct(b, d) != 0 ==> Direct(b, d) != Direct(b, e)
  }

  /** A regular file whose size is covered by its allocated blocks. */
  predicate InodeOk(disk: Disk, b: Inode) {
    && Mode(b) == MODE_FILE && Size(b) <= 4096
    && (forall d :: 0 <= d < DIRECT ==> BlockOk(disk, b, d))
    && (forall d :: 0 <= d < Need(Size(b)) ==> Direct(b, d) != 0)
    && SelfApart(b)
  }

  predicate SlotOk(disk: Disk, j: nat)
    requires j < DIRENTS
  {
    Live(disk, j) ==>
      && 2 <= InoOf(disk, j) <= MAX_INODES && BitOf(disk[INODE_BMAP], InoOf(disk, j))
      && 0 < |NameAt(disk, j)| < MAX_NAME
      && InodeOk(disk, ReadInode(disk, InoOf(disk, j)))
  }

  predicate NoShared(a: Inode, b: Inode) {
    forall d, e :: 0 <= d < DIRECT && 0 <= e < DIRECT && Direct(a, d) != 0 ==> Direct(a, d) != Direct(b, e)
  }

  /** Two live entries share neither name, nor inode, nor block. */
  predicate Apart(disk: Disk, j: nat, k: nat)
    requires j < DIRENTS && k < DIRENTS && SlotOk(disk, j) && SlotOk(disk, k)
  {
    Live(disk, j) && Live(disk, k) ==>
      && NameAt(disk, j) != NameAt(disk, k)
      && InoOf(disk, j) != InoOf(disk, k)
      && NoShared(ReadInode(disk, InoOf(disk, j)), ReadInode(disk, InoOf(disk, k)))
  }

  predicate SystemOk(disk: Disk) {
    && SuperOk(disk) && Field(disk[0], 48, 4) == 1
    && RootOk(disk) && Size(ReadInode(disk, ROOT_INO)) <= 4096
    && (forall b :: 0 <= b < DATA_START ==> BitOf(disk[BLOCK_BMAP], b))
    && BitOf(disk[INODE_BMAP], 0) && BitOf(disk[INODE_BMAP], 1)
  }

  predicate FsOk(disk: Disk) {
    && SystemOk(disk)
    && (forall j :: 0 <= j < DIRENTS ==> SlotOk(disk, j))
    && (forall j, k :: 0 <= j < DIRENTS && 0 <= k < DIRENTS && j != k ==> Apart(disk, j, k))
  }

  lemma {:induction false} FsOkSlot(disk: Disk, j: nat)
    requires FsOk(disk) && j < DIRENTS
    ensures SlotOk(disk, j)
  {
  }

  /** A consistent disk passes mcsfs1_fsck and mounts. */
  lemma {:induction false} FsOkPassesFsck(disk: Disk)
    requires FsOk(disk)
    ensures Fsck(disk) == Ok && Mount(disk) == Ok
  {
    hide Field, BitOf, InodeOk, SuperOk, NameOf, RootOk, ReadInode;
    forall j | 0 <= j < DIRENTS && SlotIno(disk[ROOT_DIR], j) != 0
      ensures SlotIno(disk[ROOT_DIR], j) <= MAX_INODES && BitOf(disk[INODE_BMAP], SlotIno(disk[ROOT_DIR], j))
    {
      assert SlotOk(disk, j);
    }
    assert forall b :: 0 <= b < DATA_START ==> BitOf(disk[BLOCK_BMAP], b);
  }

  // ---------- the abstract map ----------

  function FileData(disk: Disk, b: Inode): seq<byte> {
    var all := Gather(disk, b, if Size(b) <= 4096 then (Size(b) + 511) / 512 else 0);
    if Size(b) <= |all| then all[..Size(b)] else all
  }

  function DataAt(disk: Disk, j: nat): seq<byte>
    requires j < DIRENTS && 1 <= InoOf(disk, j) <= MAX_INODES
  {
    FileData(disk, ReadInode(disk, InoOf(disk, j)))
  }

  /** The files named by the first k directory entries. */
  function FilesUpTo(disk: Disk, k: nat): (m: map<seq<byte>, seq<byte>>)
    requires k <= DIRENTS && forall j :: 0 <= j < k ==> SlotOk(disk, j)
    ensures |m| <= k
  {
    if k == 0 then map[]
    else
      var m := FilesUpTo(disk, k - 1);
      assert SlotOk(disk, k - 1);
      if Live(disk, k - 1) then m[NameAt(disk, k - 1) := DataAt(disk, k - 1)] else m
  }

  /** What the disk means: at most 16 names, each with its bytes. */
  function Files(disk: Disk): (m: map<seq<byte>, seq<byte>>)
    requires FsOk(disk)
    ensures |m| <= DIRENTS
  {
    FilesUpTo(disk, DIRENTS)
  }

  lemma {:induction false} FilesUpToAt(disk: Disk, k: nat, j: nat)
    requires FsOk(disk) && j < k <= DIRENTS && Live(disk, j)
    ensures SlotOk(disk, j)
    ensures NameAt(disk, j) in FilesUpTo(disk, k) && FilesUpTo(disk, k)[NameAt(disk, j)] == DataAt(disk, j)
  {
    hide Field, BitOf, InodeOk, SystemOk, NameOf, NoShared, FileData;
    assert SlotOk(disk, j);
    if j < k - 1 {
      FilesUpToAt(disk, k - 1, j);
      assert SlotOk(disk, k - 1);
      assert Apart(disk, j, k - 1);
    }
  }

  lemma {:induction false} FilesUpToNone(disk: Disk, k: nat, name: seq<byte>)
    requires k <= DIRENTS && forall j :: 0 <= j < k ==> SlotOk(disk, j)
    requires forall j :: 0 <= j < k && Live(disk, j) ==> NameAt(disk, j) != name
    ensures name !in FilesUpTo(disk, k)
  {
    hide SlotOk, Live, NameAt, DataAt;
    if k > 0 { FilesUpToNone(disk, k - 1, name); }
  }

  lemma {:induction false} MatchIsName(disk: Disk, j: nat, name: seq<byte>)
    requires j < DIRENTS
    ensures Match(disk[ROOT_DIR], name, j) <==> Live(disk, j) && NameAt(disk, j) == name
  {
  }

  /** Lookup by name finds the entry the map is made from, or nothing. */
  lemma {:induction false} FindIsFiles(disk: Disk, name: seq<byte>)
    requires FsOk(disk)
    ensures var s := FindSlot(disk[ROOT_DIR], name, 0);
            if s < DIRENTS
            then Live(disk, s) && NameAt(disk, s) == name && SlotOk(disk, s) && name in Files(disk)
              && Files(disk)[name] == DataAt(disk, s)
            else name !in Files(disk) && forall j :: 0 <= j < DIRENTS && Live(disk, j) ==> NameAt(disk, j) != name
  {
    hide SlotOk, Live, NameAt, Match, SystemOk, FileData, FilesUpTo;
    var s := FindSlot(disk[ROOT_DIR], name, 0);
    if s < DIRENTS {
      MatchIsName(disk, s, name);
      FilesUpToAt(disk, DIRENTS, s);
    } else {
      forall j | 0 <= j < DIRENTS ensures Live(disk, j) ==> NameAt(disk, j) != name { MatchIsName(disk, j, name); }
      assert forall j :: 0 <= j < DIRENTS ==> SlotOk(disk, j);
      FilesUpToNone(disk, DIRENTS, name);
    }
  }

  /** Entry j means the same file on both disks. */
  predicate SameFile(a: Disk, b: Disk, j: nat)
    requires j < DIRENTS && SlotOk(a, j) && SlotOk(b, j)
  {
    && (Live(a, j) <==> Live(b, j))
    && (Live(a, j) ==> NameAt(a, j) == NameAt(b, j) && DataAt(a, j) == DataAt(b, j))
  }

  /**
   Two consistent disks that agree on every entry but one have maps that agree on every
   name but that entry's.
   */
  lemma {:induction false} FilesDiffer(a: Disk, b: Disk, slot: nat, name: seq<byte>)
    requires FsOk(a) && FsOk(b)
    requires forall j :: 0 <= j < DIRENTS ==> SlotOk(a, j) && SlotOk(b, j)
    requires forall j :: 0 <= j < DIRENTS && j != slot ==> SameFile(a, b, j)
    requires slot < DIRENTS && Live(a, slot) ==> NameAt(a, slot) != name
    requires slot < DIRENTS && Live(b, slot) ==> NameAt(b, slot) != name
    ensures (name in Files(a) <==> name in Files(b)) && (name in Files(a) ==> Files(a)[name] == Files(b)[name])
  {
    hide FsOk, SlotOk, Live, NameAt, DataAt, Files;
    FindIsFiles(a, name);
    FindIsFiles(b, name);
    var s, t := FindSlot(a[ROOT_DIR], name, 0), FindSlot(b[ROOT_DIR], name, 0);
    assert s < DIRENTS ==> SameFile(a, b, s);
    assert t < DIRENTS ==> SameFile(a, b, t);
    if s < DIRENTS {
      OneName(b, s, t);
    }
  }

  lemma {:induction false} OneName(disk: Disk, s: nat, t: nat)
    requires FsOk(disk) && s < DIRENTS && t < DIRENTS && Live(disk, s) && Live(disk, t)
             && NameAt(disk, s) == NameAt(disk, t)
    ensures s == t
  {
    hide SystemOk, SlotOk, Live, NameAt, NoShared;
    assert s != t ==> Apart(disk, s, t);
  }

  // ---------- inodes and slots as stored ----------

  /** Writing an inode changes that inode and no other. */
  lemma {:induction false} WriteInodeAt(disk: Disk, ino: nat, b: Inode, i: nat)
    requires 1 <= ino <= MAX_INODES && 1 <= i <= MAX_INODES
    ensures ReadInode(WriteInode(disk, ino, b), i) == if i == ino then b else ReadInode(disk, i)
  {
    if InodeLba(i) == InodeLba(ino) {
      if i == ino {
        SpliceSame(disk[InodeLba(ino)], InodeOff(ino), b);
      } else {
        SpliceOther(disk[InodeLba(ino)], InodeOff(ino), b, InodeOff(i), 60);
      }
    }
  }

  lemma {:induction false} NewInodeAt(mode: nat, size: nat, blk: nat)
    requires mode < 256 && size < 0x1_0000_0000 && blk < 0x1_0000_0000
    ensures var b := NewInode(mode, size, blk);
            && Mode(b) == mode && Size(b) == size && Direct(b, 0) == blk
            && forall d :: 1 <= d < DIRECT ==> Direct(b, d) == 0
  {
    hide SetMembers, Decode;
    Pow256Values();
    var ms := [Member(0, 2, mode), Member(2, 2, 1), Member(4, 4, size), Member(8, 4, blk)];
    MemberAt(Zeros(60), ms, 0);
    MemberAt(Zeros(60), ms, 2);
    MemberAt(Zeros(60), ms, 3);
    forall d | 1 <= d < DIRECT ensures Direct(NewInode(mode, size, blk), d) == 0 {
      MembersOther(Zeros(60), ms, 8 + 4 * d, 4);
      FieldOfZeros(60, 8 + 4 * d, 4);
    }
  }

  lemma {:induction false} SetSizeAt(b: Inode, v: nat)
    requires v <= 4096
    ensures var c := SetSize(b, v);
            && Mode(c) == Mode(b) && Size(c) == v
            && forall d :: 0 <= d < DIRECT ==> Direct(c, d) == Direct(b, d)
  {
    hide SetField, Decode;
    Pow256Values();
    FieldSame(b, 4, 4, v);
    FieldOther(b, 4, 4, v, 0, 2);
    forall d | 0 <= d < DIRECT
      ensures Direct(SetSize(b, v), d) == Direct(b, d)
    {
      FieldOther(b, 4, 4, v, 8 + 4 * d, 4);
    }
  }

  lemma {:induction false} SetDirectAt(b: Inode, i: nat, v: nat)
    requires i < DIRECT && v < 4096
    ensures var c := SetDirect(b, i, v);
            && Mode(c) == Mode(b) && Size(c) == Size(b)
            && forall d :: 0 <= d < DIRECT ==> Direct(c, d) == if d == i then v else Direct(b, d)
  {
    hide SetField, Decode;
    Pow256Values();
    FieldOther(b, 8 + 4 * i, 4, v, 0, 2);
    FieldOther(b, 8 + 4 * i, 4, v, 4, 4);
    FieldSame(b, 8 + 4 * i, 4, v);
    forall d | 0 <= d < DIRECT ensures Direct(SetDirect(b, i, v), d) == if d == i then v else Direct(b, d) {
      if d != i { FieldOther(b, 8 + 4 * i, 4, v, 8 + 4 * d, 4); }
    }
  }

  /** A name of at most 26 characters reads back whatever follows its slot. */
  lemma {:induction false} WindowName(w: seq<byte>, name: seq<byte>)
    requires CString(name) && |name| < MAX_NAME <= |w| && w[..MAX_NAME] == Padded(name, MAX_NAME)
    ensures NameOf(w) == name
  {
    var p := Padded(name, MAX_NAME);
    assert p[|name|] == 0;
    assert w[|name|] == w[..MAX_NAME][|name|];
    forall k | 0 <= k < |name| ensures w[k] == name[k] { assert w[k] == w[..MAX_NAME][k]; }
    var n := StrLen(w, 0);
    assert n == |name|;
  }

  /** A terminated name depends only on its own 27 bytes. */
  lemma {:induction false} WindowSame(v: seq<byte>, w: seq<byte>)
    requires |v| >= MAX_NAME && |v| == |w| && v[..MAX_NAME] == w[..MAX_NAME] && |NameOf(v)| < MAX_NAME
    ensures NameOf(w) == NameOf(v)
  {
    var n := StrLen(v, 0);
    assert v[n] == v[..MAX_NAME][n] == w[..MAX_NAME][n] == w[n];
    forall k | 0 <= k < n ensures w[k] == v[k] { assert v[k] == v[..MAX_NAME][k] == w[..MAX_NAME][k] == w[k]; }
    assert StrLen(w, 0) == n;
    assert w[..n] == v[..n];
  }

  /** Rewriting the 32 bytes of one slot keeps every other slot's inode number and terminated name. */
  lemma {:induction false} OtherSlot(dir: Block, slot: nat, x: seq<byte>, j: nat)
    requires slot < DIRENTS && j < DIRENTS && j != slot && |x| == 32
    requires |NameOf(NameWindow(dir, j))| < MAX_NAME
    ensures var d: Block := Splice(dir, 32 * slot, x);
            SlotIno(d, j) == SlotIno(dir, j) && NameOf(NameWindow(d, j)) == NameOf(NameWindow(dir, j))
  {
    hide Decode, NameOf;
    var d: Block := Splice(dir, 32 * slot, x);
    SpliceOther(dir, 32 * slot, x, 32 * j, 4);
    SpliceOther(dir, 32 * slot, x, 32 * j + 5, 27);
    assert NameWindow(d, j)[..MAX_NAME] == d[32 * j + 5..32 * j + 32];
    assert NameWindow(dir, j)[..MAX_NAME] == dir[32 * j + 5..32 * j + 32];
    WindowSame(NameWindow(dir, j), NameWindow(d, j));
  }

  /** What the 32 bytes of a written entry hold. */
  lemma {:induction false} SlotBytes(dir: Block, slot: nat, ino: nat, name: seq<byte>)
    requires slot < DIRENTS && ino <= MAX_INODES && |name| <= MAX_NAME
    ensures var d := SetSlot(dir, slot, ino, name);
            SlotIno(d, slot) == ino && d[32 * slot + 5..32 * slot + 32] == Padded(name, MAX_NAME)
  {
    hide Padded, Splice, Encode, Decode;
    var head, tail := Encode(ino, 4), Padded(name, MAX_NAME);
    var x: seq<byte> := head + [MODE_FILE] + tail;
    var d := SetSlot(dir, slot, ino, name);
    SpliceSame(dir, 32 * slot, x);
    assert d[32 * slot..32 * slot + 32] == x && x[0..4] == head && x[5..32] == tail;
    SliceOfSlice(d, 32 * slot, 32, 0, 4);
    SliceOfSlice(d, 32 * slot, 32, 5, 32);
    Pow256Values();
    DecodeEncode(ino, 4);
  }

  lemma {:induction false} NewSlot(dir: Block, slot: nat, ino: nat, name: seq<byte>)
    requires slot < DIRENTS && ino <= MAX_INODES && CString(name) && |name| < MAX_NAME
    ensures var d := SetSlot(dir, slot, ino, name); SlotIno(d, slot) == ino && NameOf(NameWindow(d, slot)) == name
  {
    hide NameOf, Padded, SetSlot, Field;
    SlotBytes(dir, slot, ino, name);
    var d := SetSlot(dir, slot, ino, name);
    var n := |NameWindow(d, slot)|;
    SliceOfSlice(d, 32 * slot + 5, n, 0, MAX_NAME);
    WindowName(NameWindow(d, slot), name);
  }

  lemma {:induction false} ClearedSlot(dir: Block, slot: nat)
    requires slot < DIRENTS
    ensures SlotIno(ClearSlot(dir, slot), slot) == 0
  {
    var d := ClearSlot(dir, slot);
    SpliceSame(dir, 32 * slot, Zeros(32));
    assert d[32 * slot..32 * slot + 4] == d[32 * slot..32 * slot + 32][..4] == Zeros(4);
    DecodeZeros(4);
  }

  /**
   Why names stop at 26 characters: a stored 27-character name has no terminator of its own,
   so it is found exactly when the next entry's first byte happens to be zero.
   */
  lemma {:induction false} LongNameFoundIff(dir: Block, j: nat, name: seq<byte>)
    requires j < 15 && CString(name) && |name| == MAX_NAME && SlotIno(dir, j) != 0
    requires dir[32 * j + 5..32 * j + 32] == name
    ensures Match(dir, name, j) <==> dir[32 * (j + 1)] == 0
  {
    hide Decode;
    var w := NameWindow(dir, j);
    assert |w| == 28 && w[27] == dir[32 * (j + 1)];
    forall k | 0 <= k < 27 ensures w[k] == name[k] { assert w[k] == dir[32 * j + 5..32 * j + 32][k]; }
    var n := StrLen(w, 0);
    assert n >= 27;
    if n == 27 { assert w[..27] == name; }
  }
}
