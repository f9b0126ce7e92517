/**
 What makes an MCSFS1J disk consistent, what its names mean, and what the two
 transactions of a file write do to both.
 */
module M16Inv {
  import opened Bytes
  import opened Journal
  import opened M16Fs

  predicate Live(disk: Disk, j: nat)
    requires j < DIRENTS
  {
    SlotUsed(disk[ROOT_DIR], j) != 0
  }

  function InoOf(disk: Disk, j: nat): nat
    requires j < DIRENTS
  {
    SlotIno(disk[ROOT_DIR], j)
  }

  function NameAt(disk: Disk, j: nat): seq<byte>
    requires j < DIRENTS
  {
    NameOf(SlotName(disk[ROOT_DIR], j))
  }

  function BlkOf(disk: Disk, j: nat): nat
    requires j < DIRENTS && InoOf(disk, j) < 16
  {
    InodeBlock(LoadTable(disk), InoOf(disk, j))
  }

  predicate RootOk(disk: Disk) {
    var t := LoadTable(disk);
    BitOf(disk[INODE_BITMAP], 0) && InodeUsed(t, 0) == 1 && InodeKind(t, 0) == 2 && InodeBlock(t, 0) == ROOT_DIR
  }

  predicate SystemBlocksMarked(disk: Disk) {
    forall b :: 0 <= b < DATA_START ==> BitOf(disk[BLOCK_BITMAP], b)
  }

  predicate SlotOk(disk: Disk, j: nat)
    requires j < DIRENTS
  {
    SlotSane(disk, j) && (Live(disk, j) ==> 0 < |NameAt(disk, j)| < MAX_NAME)
  }

  /** Two live entries share nothing. */
  predicate Apart(disk: Disk, j: nat, k: nat)
    requires j < DIRENTS && k < DIRENTS && SlotOk(disk, j) && SlotOk(disk, k)
  {
    Live(disk, j) && Live(disk, k) ==>
      && NameAt(disk, j) != NameAt(disk, k)
      && InoOf(disk, j) != InoOf(disk, k)
      && BlkOf(disk, j) != BlkOf(disk, k)
  }

  predicate FsOk(disk: Disk) {
    && SuperOk(disk[0])
    && RootOk(disk)
    && SystemBlocksMarked(disk)
    && (forall j :: 0 <= j < DIRENTS ==> SlotOk(disk, j))
    && (forall j, k :: 0 <= j < DIRENTS && 0 <= k < DIRENTS && j != k ==> Apart(disk, j, k))
  }

  /** A consistent disk passes m16_fsck. */
  lemma {:induction false} FsOkPassesFsck(disk: Disk)
    requires FsOk(disk)
    ensures FsckMounted(disk) == Ok
  {
    hide SlotSane, BitOf, Field;
    forall j | 0 <= j < DIRENTS ensures SlotSane(disk, j) {
      assert SlotOk(disk, j);
    }
  }

  // ---------- names ----------

  lemma {:induction false} StrEqIsName(a: seq<byte>, m: seq<byte>, i: nat)
    requires |a| == MAX_NAME && CString(m) && StrLen(a, 0) < MAX_NAME && i <= StrLen(a, 0)
    requires i <= |m| && a[..i] == m[..i]
    ensures StrEq(a, m, i) <==> NameOf(a) == m
    decreases MAX_NAME - i
  {
    var n := StrLen(a, 0);
    if a[i] != CharAt(m, i) {
    } else if a[i] == 0 {
      assert i == n && |m| == i;
      assert m[..i] == m;
    } else {
      assert i < |m|;
      assert a[..i + 1] == a[..i] + [a[i]] && m[..i + 1] == m[..i] + [m[i]];
      StrEqIsName(a, m, i + 1);
    }
  }

  lemma {:induction false} MatchIsName(disk: Disk, j: nat, name: seq<byte>)
    requires j < DIRENTS && CString(name) && SlotOk(disk, j)
    ensures Match(disk[ROOT_DIR], name, j) <==> Live(disk, j) && NameAt(disk, j) == name
  {
    hide SlotSane, Field;
    if Live(disk, j) {
      StrEqIsName(SlotName(disk[ROOT_DIR], j), name, 0);
    }
  }

  /** Lookup finds the one live entry with the name, or nothing. */
  lemma {:induction false} FindIs(disk: Disk, j: nat, name: seq<byte>)
    requires FsOk(disk) && CString(name) && j <= DIRENTS
    requires forall k :: 0 <= k < DIRENTS && Live(disk, k) && NameAt(disk, k) == name ==> k == j
    requires j < DIRENTS ==> Live(disk, j) && NameAt(disk, j) == name
    ensures FindSlot(disk[ROOT_DIR], name, 0) == j
  {
    hide SlotOk, Live, NameAt, Match, RootOk, SystemBlocksMarked, SuperOk, Apart;
    var r := FindSlot(disk[ROOT_DIR], name, 0);
    if r < DIRENTS {
      assert SlotOk(disk, r);
      MatchIsName(disk, r, name);
    }
    if j < DIRENTS {
      assert SlotOk(disk, j);
      MatchIsName(disk, j, name);
    }
  }

  /** What reading through entry j gives. */
  function ReadEntry(disk: Disk, j: nat, cap: nat): ReadResult
    requires j < DIRENTS && SlotOk(disk, j) && Live(disk, j)
  {
    var size := InodeSize(LoadTable(disk), InoOf(disk, j));
    if size > cap then ReadErr(Inval) else ReadOk(disk[BlkOf(disk, j)][..size])
  }

  lemma {:induction false} ReadIsEntry(disk: Disk, j: nat, name: seq<byte>, cap: nat)
    requires FsOk(disk) && CString(name) && j < DIRENTS && Live(disk, j) && NameAt(disk, j) == name
    ensures SlotOk(disk, j)
    ensures ReadMounted(disk, name, cap) == ReadEntry(disk, j, cap)
  {
    hide Field, BitOf, SuperOk, RootOk, SystemBlocksMarked, StrEq, NameOf;
    forall k | 0 <= k < DIRENTS && k != j ensures Live(disk, k) ==> NameAt(disk, k) != name {
      assert Apart(disk, j, k);
    }
    FindIs(disk, j, name);
    assert SlotOk(disk, j);
  }

  lemma {:induction false} ReadIsNoEnt(disk: Disk, name: seq<byte>, cap: nat)
    requires FsOk(disk) && CString(name)
    requires forall k :: 0 <= k < DIRENTS && Live(disk, k) ==> NameAt(disk, k) != name
    ensures ReadMounted(disk, name, cap) == ReadErr(NoEnt)
  {
    hide Field, BitOf, SuperOk, RootOk, SystemBlocksMarked, StrEq, NameOf, SlotOk, Apart;
    FindIs(disk, DIRENTS, name);
  }

  /**
   Two consistent disks read alike under `name` if the entries of that name are the
   same in both: same slot, inode number, size, block number and block.
   */
  predicate SameEntry(a: Disk, b: Disk, j: nat)
    requires j < DIRENTS && SlotOk(a, j) && SlotOk(b, j)
  {
    && (Live(a, j) <==> Live(b, j))
    && (Live(a, j) ==>
          && NameAt(a, j) == NameAt(b, j)
          && InodeSize(LoadTable(a), InoOf(a, j)) == InodeSize(LoadTable(b), InoOf(b, j))
          && BlkOf(a, j) == BlkOf(b, j)
          && a[BlkOf(a, j)] == b[BlkOf(b, j)])
  }

  lemma {:induction false} ReadsAlike(a: Disk, b: Disk, name: seq<byte>, cap: nat)
    requires FsOk(a) && FsOk(b) && CString(name)
    requires forall j :: 0 <= j < DIRENTS ==> SlotOk(a, j) && SlotOk(b, j)
    requires forall j :: 0 <= j < DIRENTS && Live(a, j) && NameAt(a, j) == name ==> SameEntry(a, b, j)
    requires forall j :: 0 <= j < DIRENTS && Live(b, j) && NameAt(b, j) == name ==> SameEntry(a, b, j)
    ensures ReadMounted(a, name, cap) == ReadMounted(b, name, cap)
  {
    hide FsOk, SlotOk, Live, NameAt, Field, LoadTable, ReadMounted;
    if j :| 0 <= j < DIRENTS && Live(a, j) && NameAt(a, j) == name {
      ReadIsEntry(a, j, name, cap);
      assert SameEntry(a, b, j);
      ReadIsEntry(b, j, name, cap);
    } else {
      ReadIsNoEnt(a, name, cap);
      ReadIsNoEnt(b, name, cap);
    }
  }

  // ---------- raw effects of the two transactions ----------

  lemma {:induction false} ApplyWritten(disk: Disk, ws: seq<Rec>, i: nat)
    requires i < |ws| && ws[i].lba < 128
    requires forall k :: i < k < |ws| ==> ws[k].lba != ws[i].lba
    ensures Apply(disk, ws)[ws[i].lba] == ws[i].data
    decreases |ws|
  {
    if i < |ws| - 1 {
      ApplyWritten(disk, ws[..|ws| - 1], i);
    }
  }

  lemma {:induction false} TableRoundTrip(disk: Disk, t: Table)
    requires forall i :: 0 <= i < 4 ==> disk[20 + i] == TableBlock(t, i)
    ensures LoadTable(disk) == t
  {
    assert disk[20 + 0] == TableBlock(t, 0) && disk[20 + 1] == TableBlock(t, 1);
    assert disk[20 + 2] == TableBlock(t, 2) && disk[20 + 3] == TableBlock(t, 3);
    assert t[0..512] + t[512..1024] + t[1024..1536] + t[1536..2048] == t;
  }

  lemma {:induction false} ReserveEffect(disk: Disk, ino: nat, blk: nat, size: nat)
    requires ino < 16 && blk < 128 && size <= 512
    ensures var d := Apply(disk, ReserveRecs(disk, ino, blk, size));
            && d[INODE_BITMAP] == BitSet(disk[INODE_BITMAP], ino)
            && d[BLOCK_BITMAP] == BitSet(disk[BLOCK_BITMAP], blk)
            && LoadTable(d) == SetInode(LoadTable(disk), ino, 1, size, blk)
            && (forall lba :: 0 <= lba < 128 && !(18 <= lba <= 23) ==> d[lba] == disk[lba])
  {
    hide SetInode, LoadTable, Apply, BitSet;
    var recs := ReserveRecs(disk, ino, blk, size);
    var d := Apply(disk, recs);
    var t := SetInode(LoadTable(disk), ino, 1, size, blk);
    assert forall i :: 0 <= i < 6 ==> recs[i].lba == 18 + i;
    ApplyWritten(disk, recs, 0);
    ApplyWritten(disk, recs, 1);
    forall i | 0 <= i < 4 ensures d[20 + i] == TableBlock(t, i) {
      ApplyWritten(disk, recs, 2 + i);
    }
    TableRoundTrip(d, t);
    forall lba | 0 <= lba < 128 && !(18 <= lba <= 23) ensures d[lba] == disk[lba] {
      ApplyAt(disk, disk, recs, lba);
    }
  }

  lemma {:induction false} LinkEffect(disk: Disk, dir: Block, slot: nat, ino: nat, blk: nat, name: seq<byte>,
      data: seq<byte>)
    requires slot < DIRENTS && ino < 16 && DATA_START <= blk < 128 && |name| < MAX_NAME && |data| <= 512
    ensures var d := Apply(disk, LinkRecs(dir, slot, ino, blk, name, data));
            && d[ROOT_DIR] == SetSlot(dir, slot, ino, name)
            && d[blk] == Padded(data, 512)
            && (forall lba :: 0 <= lba < 128 && lba != ROOT_DIR && lba != blk ==> d[lba] == disk[lba])
  {
    hide SetSlot, Padded, Apply;
    var recs := LinkRecs(dir, slot, ino, blk, name, data);
    ApplyWritten(disk, recs, 0);
    ApplyWritten(disk, recs, 1);
    forall lba | 0 <= lba < 128 && lba != ROOT_DIR && lba != blk ensures Apply(disk, recs)[lba] == disk[lba] {
      ApplyAt(disk, disk, recs, lba);
    }
  }

  /** Setting one inode sets its four fields and leaves the other inodes alone. */
  lemma {:induction false} SetInodeAt(t: Table, ino: nat, kind: nat, size: nat, blk: nat, i: nat)
    requires ino < 16 && kind < 256 && size <= 512 && blk < 128 && i < 16
    ensures var t' := SetInode(t, ino, kind, size, blk);
            if i == ino then InodeUsed(t', i) == 1 && InodeKind(t', i) == kind && InodeSize(t', i) == size
              && InodeBlock(t', i) == blk
            else InodeUsed(t', i) == InodeUsed(t, i) && InodeKind(t', i) == InodeKind(t, i)
                 && InodeSize(t', i) == InodeSize(t, i) && InodeBlock(t', i) == InodeBlock(t, i)
  {
    hide SetMembers, Decode;
    var ms := InodeMembers(ino, kind, size, blk);
    if i == ino {
      MemberAt(t, ms, 0);
      MemberAt(t, ms, 1);
      MemberAt(t, ms, 2);
      MemberAt(t, ms, 3);
    } else {
      MembersOther(t, ms, 128 * i, 4);
      MembersOther(t, ms, 128 * i + 4, 4);
      MembersOther(t, ms, 128 * i + 8, 4);
      MembersOther(t, ms, 128 * i + 12, 4);
    }
  }

  lemma {:induction false} SetSlotAt(dir: Block, slot: nat, ino: nat, name: seq<byte>, j: nat)
    requires slot < DIRENTS && ino < 16 && |name| < MAX_NAME && CString(name) && j < DIRENTS
    ensures var d := SetSlot(dir, slot, ino, name);
            if j == slot then SlotUsed(d, j) == 1 && SlotIno(d, j) == ino && NameOf(SlotName(d, j)) == name
            else
              && SlotUsed(d, j) == SlotUsed(dir, j) && SlotIno(d, j) == SlotIno(dir, j)
              && SlotName(d, j) == SlotName(dir, j)
  {
    hide Decode, NameOf, SetField, Splice, SetSlot;
    if j == slot {
      NewSlot(dir, slot, ino, name);
    } else {
      SlotOutside(dir, slot, ino, name, 40 * j, 4);
      SlotOutside(dir, slot, ino, name, 40 * j + 4, 4);
      SlotOutside(dir, slot, ino, name, 40 * j + 8, 32);
    }
  }

  lemma {:induction false} NewSlot(dir: Block, slot: nat, ino: nat, name: seq<byte>)
    requires slot < DIRENTS && ino < 16 && |name| < MAX_NAME && CString(name)
    ensures var d := SetSlot(dir, slot, ino, name);
            SlotUsed(d, slot) == 1 && SlotIno(d, slot) == ino && NameOf(SlotName(d, slot)) == name
  {
    hide Decode, NameOf, SetField, Splice;
    Pow256Values();
    var o := 40 * slot;
    var d1 := SetField(dir, o, 4, 1);
    var d2 := SetField(d1, o + 4, 4, ino);
    var p := Padded(name, MAX_NAME);
    SpliceOther(d2, o + 8, p, o, 4);
    SpliceOther(d2, o + 8, p, o + 4, 4);
    FieldSame(dir, o, 4, 1);
    FieldOther(d1, o + 4, 4, ino, o, 4);
    FieldSame(d1, o + 4, 4, ino);
    SpliceSame(d2, o + 8, p);
    NameOfPadded(name, MAX_NAME);
  }

  /** Bytes outside the forty of an entry are untouched by linking it. */
  lemma {:induction false} SlotOutside(dir: Block, slot: nat, ino: nat, name: seq<byte>, o: nat, n: nat)
    requires slot < DIRENTS && ino < 16 && |name| < MAX_NAME && o + n <= 512
    requires o + n <= 40 * slot || 40 * slot + 40 <= o
    ensures SetSlot(dir, slot, ino, name)[o..o + n] == dir[o..o + n]
  {
    hide SetField, Splice;
    var d1 := SetField(dir, 40 * slot, 4, 1);
    var d2 := SetField(d1, 40 * slot + 4, 4, ino);
    FieldOther(dir, 40 * slot, 4, 1, o, n);
    FieldOther(d1, 40 * slot + 4, 4, ino, o, n);
    SpliceOther(d2, 40 * slot + 8, Padded(name, MAX_NAME), o, n);
  }
}
