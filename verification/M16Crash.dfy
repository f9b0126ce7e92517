/**
 File-level crash safety of MCSFS1J: a file write is two journal transactions, and
 cutting it anywhere, then mounting, leaves a consistent file system in which every
 other name is untouched and the new one is absent or complete.
 */
module M16Crash {
  import opened Bytes
  import opened Journal
  import opened JournalCrash
  import opened M16Fs
  import opened M16Inv

  // ---------- first transaction ----------

  /** Inode and block are marked, the inode describes the file, and no entry uses either. */
  predicate ReservedAt(disk: Disk, ino: nat, blk: nat, size: nat) {
    && 1 <= ino < 16 && BitOf(disk[INODE_BITMAP], ino)
    && DATA_START <= blk < 128 && BitOf(disk[BLOCK_BITMAP], blk)
    && InodeUsed(LoadTable(disk), ino) == 1 && InodeKind(LoadTable(disk), ino) == 1
    && InodeSize(LoadTable(disk), ino) == size <= 512 && InodeBlock(LoadTable(disk), ino) == blk
    && forall j :: 0 <= j < DIRENTS && SlotOk(disk, j) && Live(disk, j) ==>
      InoOf(disk, j) != ino && BlkOf(disk, j) != blk
  }

  /** The disk with an inode and a block set aside for a file that no entry names yet. */
  function Reserve(disk: Disk, ino: nat, blk: nat, size: nat): Disk
    requires ino < 16 && blk < 128 && size <= 512
  {
    Apply(disk, ReserveRecs(disk, ino, blk, size))
  }

  predicate Available(disk: Disk, ino: nat, blk: nat) {
    && 1 <= ino < 16 && !BitOf(disk[INODE_BITMAP], ino)
    && DATA_START <= blk < 128 && !BitOf(disk[BLOCK_BITMAP], blk)
  }

  lemma {:induction false} ReserveSlot(disk: Disk, ino: nat, blk: nat, size: nat, j: nat)
    requires Available(disk, ino, blk) && size <= 512 && j < DIRENTS && SlotOk(disk, j)
    ensures var d := Reserve(disk, ino, blk, size);
            && SlotOk(d, j) && SameEntry(disk, d, j)
            && InoOf(d, j) == InoOf(disk, j)
            && (Live(d, j) ==> InoOf(d, j) != ino && BlkOf(d, j) != blk)
  {
    hide ReserveRecs, Field, BitOf, BitSet, LoadTable, SetInode, NameOf;
    ReserveEffect(disk, ino, blk, size);
    var i := InoOf(disk, j);
    if Live(disk, j) {
      SetInodeAt(LoadTable(disk), ino, 1, size, blk, i);
      BitSetAt(disk[INODE_BITMAP], ino, i);
      BitSetAt(disk[BLOCK_BITMAP], blk, BlkOf(disk, j));
    }
  }

  lemma {:induction false} ReserveRoot(disk: Disk, ino: nat, blk: nat, size: nat)
    requires Available(disk, ino, blk) && size <= 512
    requires SuperOk(disk[0]) && RootOk(disk) && SystemBlocksMarked(disk)
    ensures var d := Reserve(disk, ino, blk, size);
            SuperOk(d[0]) && RootOk(d) && SystemBlocksMarked(d)
  {
    hide ReserveRecs, Field, BitOf, BitSet, LoadTable, SetInode, SuperOk;
    ReserveEffect(disk, ino, blk, size);
    SetInodeAt(LoadTable(disk), ino, 1, size, blk, 0);
    BitSetAt(disk[INODE_BITMAP], ino, 0);
    forall b | 0 <= b < DATA_START ensures BitOf(Reserve(disk, ino, blk, size)[BLOCK_BITMAP], b) {
      BitSetAt(disk[BLOCK_BITMAP], blk, b);
    }
  }

  lemma {:induction false} ReserveMarks(disk: Disk, ino: nat, blk: nat, size: nat)
    requires FsOk(disk) && Available(disk, ino, blk) && size <= 512
    ensures ReservedAt(Reserve(disk, ino, blk, size), ino, blk, size)
  {
    hide ReserveRecs, Field, BitOf, BitSet, LoadTable, SetInode, SuperOk, RootOk, SystemBlocksMarked, NameAt, Apart,
      SameEntry;
    ReserveEffect(disk, ino, blk, size);
    SetInodeAt(LoadTable(disk), ino, 1, size, blk, ino);
    BitSetAt(disk[INODE_BITMAP], ino, ino);
    BitSetAt(disk[BLOCK_BITMAP], blk, blk);
    forall j | 0 <= j < DIRENTS
      ensures var d := Reserve(disk, ino, blk, size);
              SlotOk(d, j) && Live(d, j) ==> InoOf(d, j) != ino && BlkOf(d, j) != blk
    {
      assert SlotOk(disk, j);
      ReserveSlot(disk, ino, blk, size, j);
    }
  }

  /** The first transaction keeps the file system consistent and every entry as it was. */
  lemma {:induction false} ReserveKeeps(disk: Disk, ino: nat, blk: nat, size: nat)
    requires FsOk(disk) && Available(disk, ino, blk) && size <= 512
    ensures var d := Reserve(disk, ino, blk, size);
            && FsOk(d) && ReservedAt(d, ino, blk, size) && d[ROOT_DIR] == disk[ROOT_DIR]
            && forall j :: 0 <= j < DIRENTS ==> SlotOk(disk, j) && SlotOk(d, j) && SameEntry(disk, d, j)
  {
    hide ReserveRecs, Field, BitOf, BitSet, LoadTable, SetInode, SuperOk, RootOk, SystemBlocksMarked, SlotOk, NameAt,
      ReservedAt, Reserve;
    var d := Reserve(disk, ino, blk, size);
    ReserveMarks(disk, ino, blk, size);
    ReserveRoot(disk, ino, blk, size);
    assert d[ROOT_DIR] == disk[ROOT_DIR] by { ReserveDir(disk, ino, blk, size); }
    forall j | 0 <= j < DIRENTS
      ensures SlotOk(disk, j) && SlotOk(d, j) && SameEntry(disk, d, j) && InoOf(d, j) == InoOf(disk, j)
    {
      assert SlotOk(disk, j);
      ReserveSlot(disk, ino, blk, size, j);
    }
    forall j, k | 0 <= j < DIRENTS && 0 <= k < DIRENTS && j != k ensures Apart(d, j, k) {
      assert Apart(disk, j, k);
      assert SameEntry(disk, d, j) && SameEntry(disk, d, k);
    }
  }

  lemma {:induction false} ReserveDir(disk: Disk, ino: nat, blk: nat, size: nat)
    requires ino < 16 && blk < 128 && size <= 512
    ensures Reserve(disk, ino, blk, size)[ROOT_DIR] == disk[ROOT_DIR]
  {
    ReserveEffect(disk, ino, blk, size);
  }

  // ---------- second transaction ----------

  function Link(disk: Disk, slot: nat, ino: nat, blk: nat, name: seq<byte>, data: seq<byte>): Disk
    requires slot < DIRENTS && ino < 16 && blk < 128 && |name| < MAX_NAME && |data| <= 512
  {
    Apply(disk, LinkRecs(disk[ROOT_DIR], slot, ino, blk, name, data))
  }

  predicate Linkable(disk: Disk, slot: nat, ino: nat, blk: nat, name: seq<byte>, data: seq<byte>) {
    && FsOk(disk) && |data| <= 512 && ReservedAt(disk, ino, blk, |data|)
    && slot < DIRENTS && !Live(disk, slot)
    && CString(name) && 0 < |name| < MAX_NAME
    && forall k :: 0 <= k < DIRENTS && Live(disk, k) ==> NameAt(disk, k) != name
  }

  lemma {:induction false} LinkOther(disk: Disk, slot: nat, ino: nat, blk: nat, name: seq<byte>, data: seq<byte>,
      j: nat)
    requires Linkable(disk, slot, ino, blk, name, data) && j < DIRENTS && j != slot && SlotOk(disk, j)
    ensures var d := Link(disk, slot, ino, blk, name, data);
            SlotOk(d, j) && SameEntry(disk, d, j) && InoOf(d, j) == InoOf(disk, j)
  {
    hide FsOk, LinkRecs, Field, BitOf, LoadTable, SetSlot, NameOf, Padded;
    LinkEffect(disk, disk[ROOT_DIR], slot, ino, blk, name, data);
    var d := Link(disk, slot, ino, blk, name, data);
    assert LoadTable(d) == LoadTable(disk) by { TableSame(disk, d); }
    SetSlotAt(disk[ROOT_DIR], slot, ino, name, j);
  }

  lemma {:induction false} TableSame(a: Disk, b: Disk)
    requires forall i :: 20 <= i < 24 ==> a[i] == b[i]
    ensures LoadTable(a) == LoadTable(b)
  {
  }

  lemma {:induction false} LinkNew(disk: Disk, slot: nat, ino: nat, blk: nat, name: seq<byte>, data: seq<byte>)
    requires Linkable(disk, slot, ino, blk, name, data)
    ensures var d := Link(disk, slot, ino, blk, name, data);
            && SlotOk(d, slot) && Live(d, slot) && NameAt(d, slot) == name
            && InoOf(d, slot) == ino && BlkOf(d, slot) == blk
            && InodeSize(LoadTable(d), ino) == |data| && d[blk] == Padded(data, 512)
  {
    hide FsOk, LinkRecs, Field, BitOf, LoadTable, SetSlot, NameOf, Padded;
    LinkEffect(disk, disk[ROOT_DIR], slot, ino, blk, name, data);
    var d := Link(disk, slot, ino, blk, name, data);
    assert LoadTable(d) == LoadTable(disk) by { TableSame(disk, d); }
    SetSlotAt(disk[ROOT_DIR], slot, ino, name, slot);
  }

  lemma {:induction false} LinkRoot(disk: Disk, slot: nat, ino: nat, blk: nat, name: seq<byte>, data: seq<byte>)
    requires Linkable(disk, slot, ino, blk, name, data)
    ensures var d := Link(disk, slot, ino, blk, name, data);
            SuperOk(d[0]) && RootOk(d) && SystemBlocksMarked(d)
  {
    hide LinkRecs, Field, BitOf, LoadTable, SetSlot, Padded, SuperOk, SlotOk;
    LinkEffect(disk, disk[ROOT_DIR], slot, ino, blk, name, data);
    var d := Link(disk, slot, ino, blk, name, data);
    assert LoadTable(d) == LoadTable(disk) by { TableSame(disk, d); }
  }

  /** The second transaction keeps the file system consistent and changes one entry only. */
  lemma {:induction false} LinkKeeps(disk: Disk, slot: nat, ino: nat, blk: nat, name: seq<byte>, data: seq<byte>)
    requires Linkable(disk, slot, ino, blk, name, data)
    ensures var d := Link(disk, slot, ino, blk, name, data);
            && FsOk(d)
            && (forall j :: 0 <= j < DIRENTS ==> SlotOk(disk, j) && SlotOk(d, j))
            && (forall j :: 0 <= j < DIRENTS && j != slot ==> SameEntry(disk, d, j))
            && Live(d, slot) && NameAt(d, slot) == name
  {
    hide Link, Field, BitOf, LoadTable, SetSlot, Padded, SuperOk, RootOk, SystemBlocksMarked, SlotOk, NameAt, Live,
      InoOf, BlkOf;
    var d := Link(disk, slot, ino, blk, name, data);
    LinkRoot(disk, slot, ino, blk, name, data);
    LinkNew(disk, slot, ino, blk, name, data);
    forall j | 0 <= j < DIRENTS
      ensures SlotOk(disk, j) && SlotOk(d, j)
      ensures j != slot ==> SameEntry(disk, d, j) && InoOf(d, j) == InoOf(disk, j)
    {
      assert SlotOk(disk, j);
      if j != slot { LinkOther(disk, slot, ino, blk, name, data, j); }
    }
    forall j, k | 0 <= j < DIRENTS && 0 <= k < DIRENTS && j != k ensures Apart(d, j, k) {
      assert Apart(disk, j, k);
      if j == slot {
        assert SameEntry(disk, d, k);
      } else if k == slot {
        assert SameEntry(disk, d, j);
      } else {
        assert SameEntry(disk, d, j) && SameEntry(disk, d, k);
      }
    }
  }

  /** After the second transaction the new name reads back exactly the given bytes. */
  lemma {:induction false} LinkReads(disk: Disk, slot: nat, ino: nat, blk: nat, name: seq<byte>, data: seq<byte>,
      cap: nat)
    requires Linkable(disk, slot, ino, blk, name, data)
    ensures ReadMounted(Link(disk, slot, ino, blk, name, data), name, cap) ==
            if |data| > cap then ReadErr(Inval) else ReadOk(data)
  {
    hide FsOk, Link, Field, LoadTable, SlotOk, NameAt, Live, ReadMounted;
    var d := Link(disk, slot, ino, blk, name, data);
    LinkKeeps(disk, slot, ino, blk, name, data);
    LinkNew(disk, slot, ino, blk, name, data);
    ReadIsEntry(d, slot, name, cap);
    assert Padded(data, 512)[..|data|] == data;
  }

  // ---------- a whole file write, cut anywhere ----------

  /** Consistency and contents live outside the journal region. */
  lemma {:induction false} HomeFs(a: Disk, b: Disk)
    requires SameHome(a, b) && FsOk(a)
    ensures FsOk(b)
    ensures forall j :: 0 <= j < DIRENTS ==> SlotOk(a, j) && SlotOk(b, j) && SameEntry(a, b, j)
  {
    hide Field, BitOf, NameOf, LoadTable, SuperOk;
    TableSame(a, b);
    forall j | 0 <= j < DIRENTS ensures SlotOk(a, j) && SlotOk(b, j) && SameEntry(a, b, j) {
      assert SlotOk(a, j);
    }
    forall j, k | 0 <= j < DIRENTS && 0 <= k < DIRENTS && j != k ensures Apart(b, j, k) {
      assert Apart(a, j, k);
    }
  }

  lemma {:induction false} HomeReads(a: Disk, b: Disk, name: seq<byte>, cap: nat)
    requires SameHome(a, b) && FsOk(a) && CString(name)
    ensures FsOk(b) && ReadMounted(a, name, cap) == ReadMounted(b, name, cap)
  {
    hide FsOk, SlotOk, Live, NameAt, SameEntry, ReadMounted;
    HomeFs(a, b);
    ReadsAlike(a, b, name, cap);
  }

  function NextIno(disk: Disk): nat { FirstClear(disk[INODE_BITMAP], 1, 16) }
  function NextBlk(disk: Disk): nat { FirstClear(disk[BLOCK_BITMAP], DATA_START, 128) }
  function NextSlot(disk: Disk): nat { FindFreeSlot(disk[ROOT_DIR], 0) }

  /** A free inode, a free data block and an unused directory entry. */
  predicate Room(disk: Disk) {
    && (exists i :: 1 <= i < 16 && !BitOf(disk[INODE_BITMAP], i))
    && (exists b :: DATA_START <= b < 128 && !BitOf(disk[BLOCK_BITMAP], b))
    && (exists j :: 0 <= j < DIRENTS && !Live(disk, j))
  }

  lemma {:induction false} RoomIs(disk: Disk)
    ensures Room(disk) <==> NextIno(disk) < 16 && NextBlk(disk) < 128 && NextSlot(disk) < DIRENTS
  {
    hide BitOf, Field, FirstClear, FindFreeSlot;
    var i, b, j := NextIno(disk), NextBlk(disk), NextSlot(disk);
    assert i < 16 ==> !BitOf(disk[INODE_BITMAP], i);
    assert b < 128 ==> !BitOf(disk[BLOCK_BITMAP], b);
    assert j < DIRENTS ==> !Live(disk, j);
  }

  /** The write got as far as setting aside an inode and a block, with no entry for them. */
  predicate OnlyReserved(before: Disk, after: Disk, size: nat) {
    && size <= 512 && NextIno(before) < 16 && NextBlk(before) < 128
    && SameHome(after, Reserve(before, NextIno(before), NextBlk(before), size))
  }

  /** The write is complete. */
  predicate Written(before: Disk, after: Disk, name: seq<byte>, data: seq<byte>) {
    && |data| <= 512 && |name| < MAX_NAME && NextIno(before) < 16 && NextBlk(before) < 128 && NextSlot(before) < DIRENTS
    && var d1 := Reserve(before, NextIno(before), NextBlk(before), |data|);
       SameHome(after, Link(d1, NextSlot(before), NextIno(before), NextBlk(before), name, data))
  }

  predicate Absent(disk: Disk, name: seq<byte>) {
    FindSlot(disk[ROOT_DIR], name, 0) == DIRENTS
  }

  lemma {:induction false} AbsentNames(disk: Disk, name: seq<byte>)
    requires FsOk(disk) && CString(name) && Absent(disk, name)
    ensures forall k :: 0 <= k < DIRENTS && Live(disk, k) ==> NameAt(disk, k) != name
  {
    hide Match, SlotOk, NameAt, Live;
    forall k | 0 <= k < DIRENTS ensures Live(disk, k) ==> NameAt(disk, k) != name {
      assert SlotOk(disk, k);
      MatchIsName(disk, k, name);
    }
  }

  lemma {:induction false} NextAvailable(disk: Disk)
    requires NextIno(disk) < 16 && NextBlk(disk) < 128
    ensures Available(disk, NextIno(disk), NextBlk(disk))
  {
    hide BitOf;
  }

  lemma {:induction false} AfterReserve(before: Disk, after: Disk, size: nat, name: seq<byte>, cap: nat)
    requires FsOk(before) && OnlyReserved(before, after, size) && CString(name)
    ensures FsOk(after) && ReadMounted(after, name, cap) == ReadMounted(before, name, cap)
  {
    hide FsOk, SlotOk, Live, NameAt, SameEntry, ReadMounted, Reserve, FirstClear, ReservedAt, Available, BitOf;
    var d1 := Reserve(before, NextIno(before), NextBlk(before), size);
    NextAvailable(before);
    ReserveKeeps(before, NextIno(before), NextBlk(before), size);
    ReadsAlike(before, d1, name, cap);
    HomeReads(d1, after, name, cap);
  }

  /** After a reservation the new entry may be linked in. */
  lemma {:induction false} ReservedLinkable(before: Disk, name: seq<byte>, data: seq<byte>)
    requires FsOk(before) && CString(name) && 0 < |name| < MAX_NAME && |data| <= 512 && Absent(before, name)
    requires NextIno(before) < 16 && NextBlk(before) < 128 && NextSlot(before) < DIRENTS
    ensures Linkable(Reserve(before, NextIno(before), NextBlk(before), |data|), NextSlot(before), NextIno(before),
            NextBlk(before), name, data)
  {
    hide FsOk, SlotOk, NameAt, SameEntry, Reserve, FirstClear, ReservedAt, Available, BitOf;
    var d1 := Reserve(before, NextIno(before), NextBlk(before), |data|);
    NextAvailable(before);
    ReserveKeeps(before, NextIno(before), NextBlk(before), |data|);
    assert Absent(d1, name);
    AbsentNames(d1, name);
  }

  lemma {:induction false} AfterWritten(before: Disk, after: Disk, name: seq<byte>, data: seq<byte>,
      other: seq<byte>, cap: nat)
    requires FsOk(before) && CString(name) && 0 < |name| < MAX_NAME && Absent(before, name)
    requires Written(before, after, name, data) && CString(other)
    ensures FsOk(after)
    ensures ReadMounted(after, name, cap) == if |data| > cap then ReadErr(Inval) else ReadOk(data)
    ensures ReadMounted(before, name, cap) == ReadErr(NoEnt)
    ensures other != name ==> ReadMounted(after, other, cap) == ReadMounted(before, other, cap)
  {
    hide FsOk, SlotOk, Live, NameAt, SameEntry, ReadMounted, Reserve, Link, FirstClear, BitOf;
    var ino, blk, slot := NextIno(before), NextBlk(before), NextSlot(before);
    var d1 := Reserve(before, ino, blk, |data|);
    var d2 := Link(d1, slot, ino, blk, name, data);
    ReservedLinkable(before, name, data);
    LinkKeeps(d1, slot, ino, blk, name, data);
    LinkReads(d1, slot, ino, blk, name, data, cap);
    HomeReads(d2, after, name, cap);
    HomeReads(d2, after, other, cap);
    AbsentNames(before, name);
    ReadIsNoEnt(before, name, cap);
    if other != name {
      AfterReserve(before, d1, |data|, other, cap);
      ReadsAlike(d1, d2, other, cap);
    }
  }

  /** A disk, journal included, from which a mount yields a consistent file system. */
  predicate Consistent(disk: Disk) {
    Sound(disk) && PlanRc(PlanOf(disk)) == Ok && FsOk(Recovered(disk))
  }

  /** What a write, cut anywhere, may leave for the next mount to find. */
  predicate Step(before: Disk, after: Disk, name: seq<byte>, data: seq<byte>) {
    || SameHome(after, before)
    || OnlyReserved(before, after, |data|)
    || (Absent(before, name) && CString(name) && 0 < |name| && Written(before, after, name, data))
  }

  lemma {:induction false} StepKeeps(before: Disk, after: Disk, name: seq<byte>, data: seq<byte>)
    requires FsOk(before) && Step(before, after, name, data)
    ensures FsOk(after)
  {
    hide FsOk, OnlyReserved, Reserve, Link, NextIno, NextBlk, NextSlot, Absent, ReadMounted;
    if SameHome(after, before) {
      HomeFs(before, after);
    } else if OnlyReserved(before, after, |data|) {
      AfterReserve(before, after, |data|, [], 0);
    } else {
      AfterWritten(before, after, name, data, [], 0);
    }
  }

  /** One commit over a disk whose home blocks are known, cut anywhere. */
  lemma {:induction false} CommitOver(d: Device, home: Disk, recs: seq<Rec>, sequence: nat, stop: bool)
    requires HeaderEmpty(d.disk[JOURNAL_START]) && SameHome(d.disk, home)
    requires |recs| <= MAX_RECORDS && Outside(recs)
    ensures var o := Commit(d, recs, sequence, stop);
            var after := Recovered(o.dev.disk);
            && Sound(o.dev.disk) && PlanRc(PlanOf(o.dev.disk)) == Ok
            && (SameHome(after, home) || SameHome(after, Apply(home, recs)))
            && o.rc in {Ok, Io} && (d.fuel < 0 ==> o.rc == Ok && o.dev.fuel == d.fuel)
            && o.rc == (if d.fuel < 0 || d.fuel >= CommitCost(|recs|, stop) then Ok else Io)
            && o.dev.fuel == (if d.fuel < 0 then d.fuel else d.fuel - Performed(d.fuel, CommitCost(|recs|, stop)))
            && SameHome(after, if Committed(d.fuel, |recs|) then Apply(home, recs) else home)
            && (o.rc == Ok ==> SameHome(after, Apply(home, recs)))
            && (o.rc == Ok && !stop ==>
                  HeaderEmpty(o.dev.disk[JOURNAL_START]) && SameHome(o.dev.disk, Apply(home, recs)))
  {
    hide Apply, Commit, Recover, HeaderEmpty, Sound, PlanOf;
    CommitAtomic(d, recs, sequence, stop);
    RecoveredIs(Commit(d, recs, sequence, stop).dev.disk);
    ApplySameHome(d.disk, home, recs);
  }

  /** Two transactions on a mounted disk, cut anywhere. */
  lemma {:induction false} WriteMountedCut(d: Device, name: seq<byte>, data: seq<byte>, stop: bool)
    requires HeaderEmpty(d.disk[JOURNAL_START]) && FsOk(d.disk)
    requires CString(name) && 0 < |name| < MAX_NAME && |data| <= 512
    ensures var o := WriteMounted(d, name, data, stop);
            var after := Recovered(o.dev.disk);
            && Sound(o.dev.disk) && PlanRc(PlanOf(o.dev.disk)) == Ok
            && Step(d.disk, after, name, data)
            && (o.rc == Ok ==> Absent(d.disk, name) && Written(d.disk, after, name, data))
            && (o.rc == Exists <==> !Absent(d.disk, name))
            && (o.rc == NoSpc <==> Absent(d.disk, name) && !Room(d.disk))
            && (o.rc in {Exists, NoSpc} ==> SameHome(after, d.disk))
            && o.rc in {Ok, Exists, NoSpc, Io}
            && (d.fuel < 0 ==> o.rc != Io)
  {
    hide FsOk, Apply, ReserveRecs, LinkRecs, HeaderEmpty, FirstClear, FindSlot, FindFreeSlot;
    hide Commit, Recover, BitOf, Generation, Sound, PlanOf, Room;
    var disk, dir := d.disk, d.disk[ROOT_DIR];
    var ino, blk, slot := NextIno(disk), NextBlk(disk), NextSlot(disk);
    var g := Generation(disk[0]);
    EmptyHeaderRecovers(disk);
    RoomIs(disk);
    if Absent(disk, name) && ino < 16 && blk < 128 && slot < DIRENTS {
      var recs1 := ReserveRecs(disk, ino, blk, |data|);
      var recs2 := LinkRecs(dir, slot, ino, blk, name, data);
      RecsOutside(disk, dir, slot, ino, blk, name, data);
      CommitOver(d, disk, recs1, g + 1, false);
      var o := Commit(d, recs1, g + 1, false);
      if o.rc == Ok {
        CommitOver(o.dev, Reserve(disk, ino, blk, |data|), recs2, g + 2, stop);
        ReserveDir(disk, ino, blk, |data|);
      }
    }
  }

  /**
   Which of the three outcomes it is, as a function of the write budget alone: the first
   transaction makes 21 block writes and its header is the 14th, the second one's is the 6th
   after those.
   */
  lemma {:induction false} WriteMountedExactly(d: Device, name: seq<byte>, data: seq<byte>, stop: bool)
    requires HeaderEmpty(d.disk[JOURNAL_START]) && FsOk(d.disk)
    requires CString(name) && 0 < |name| < MAX_NAME && |data| <= 512 && Absent(d.disk, name) && Room(d.disk)
    ensures var after := Recovered(WriteMounted(d, name, data, stop).dev.disk);
            if 0 <= d.fuel < 14 then SameHome(after, d.disk)
            else if 0 <= d.fuel < 27 then OnlyReserved(d.disk, after, |data|)
            else Written(d.disk, after, name, data)
    ensures WriteMounted(d, name, data, stop).rc == if 0 <= d.fuel < (if stop then 27 else 30) then Io else Ok
  {
    hide FsOk, Apply, ReserveRecs, LinkRecs, HeaderEmpty, FirstClear, FindSlot, FindFreeSlot;
    hide Commit, Recover, BitOf, Generation, Sound, PlanOf, Room;
    var disk, dir := d.disk, d.disk[ROOT_DIR];
    var ino, blk, slot := NextIno(disk), NextBlk(disk), NextSlot(disk);
    var g := Generation(disk[0]);
    RoomIs(disk);
    var recs1 := ReserveRecs(disk, ino, blk, |data|);
    var recs2 := LinkRecs(dir, slot, ino, blk, name, data);
    RecsOutside(disk, dir, slot, ino, blk, name, data);
    CommitOver(d, disk, recs1, g + 1, false);
    var o := Commit(d, recs1, g + 1, false);
    if o.rc == Ok {
      CommitOver(o.dev, Reserve(disk, ino, blk, |data|), recs2, g + 2, stop);
      ReserveDir(disk, ino, blk, |data|);
    }
  }

  lemma {:induction false} EmptyHeaderRecovers(disk: Disk)
    requires HeaderEmpty(disk[JOURNAL_START])
    ensures Sound(disk) && PlanOf(disk) == Nothing && Recovered(disk) == disk
  {
  }

  lemma {:induction false} RecsOutside(disk: Disk, dir: Block, slot: nat, ino: nat, blk: nat, name: seq<byte>,
      data: seq<byte>)
    requires slot < DIRENTS && ino < 16 && DATA_START <= blk < 128 && |name| < MAX_NAME && |data| <= 512
    ensures Outside(ReserveRecs(disk, ino, blk, |data|)) && Outside(LinkRecs(dir, slot, ino, blk, name, data))
  {
    hide SetSlot, SetInode, LoadTable, BitSet, Padded;
  }

  /**
   File-level crash safety. From any consistent disk and for every write budget, a file
   write leaves a consistent disk. After the next uninterrupted mount the file system is
   as before, or has only gained a marked inode and block that no entry names, or holds
   the complete new file; the last whenever the write reported success.
   */
  lemma {:induction false} WriteFileCrashSafe(d: Device, name: seq<byte>, data: seq<byte>, stop: bool)
    requires Consistent(d.disk) && CString(name)
    ensures var o := WriteFile(d, name, data, stop);
            var before, after := Recovered(d.disk), Recovered(o.dev.disk);
            && Consistent(o.dev.disk)
            && Step(before, after, name, data)
            && (o.rc == Ok ==> Absent(before, name) && Written(before, after, name, data))
            && (o.rc in {TooLong, Inval, Exists, NoSpc} ==> SameHome(after, before))
            && o.rc != Corrupt
  {
    hide FsOk, Recover, WriteMounted, OnlyReserved, Written, SuperOk, HeaderEmpty, Absent;
    if 0 < |name| < MAX_NAME && |data| <= 512 {
      RecoverCut(d);
      var m := Mount(d);
      if Recover(d).rc == Ok {
        assert SuperOk(m.dev.disk[0]) by { FsOkSuper(m.dev.disk); }
        WriteMountedCut(m.dev, name, data, stop);
        var o := WriteMounted(m.dev, name, data, stop);
        StepKeeps(m.dev.disk, Recovered(o.dev.disk), name, data);
      } else {
        HomeFs(Recovered(d.disk), Recovered(m.dev.disk));
      }
    }
  }

  /** What a write must answer, given the recovered disk, unless the device fails. */
  function Reply(disk: Disk, name: seq<byte>, data: seq<byte>): Rc {
    if |name| == 0 || |name| >= MAX_NAME then TooLong
    else if |data| > 512 then Inval
    else if !Absent(disk, name) then Exists
    else if !Room(disk) then NoSpc
    else Ok
  }

  /**
   With faults off a write answers exactly by name, size, presence and room: in particular it
   succeeds for a valid absent name whenever there is room. A failing device adds EIO only.
   */
  lemma {:induction false} WriteFileReplies(d: Device, name: seq<byte>, data: seq<byte>, stop: bool)
    requires Consistent(d.disk) && CString(name)
    ensures WriteFile(d, name, data, stop).rc in {Io, Reply(Recovered(d.disk), name, data)}
    ensures d.fuel < 0 ==> WriteFile(d, name, data, stop).rc == Reply(Recovered(d.disk), name, data)
  {
    hide FsOk, Recover, WriteMounted, SuperOk, HeaderEmpty, Absent, Room, Step, Written;
    if 0 < |name| < MAX_NAME && |data| <= 512 {
      RecoverCut(d);
      if Recover(d).rc == Ok {
        FsOkSuper(Mount(d).dev.disk);
        WriteMountedCut(Mount(d).dev, name, data, stop);
      }
    }
  }

  lemma {:induction false} FsOkSuper(disk: Disk)
    requires FsOk(disk)
    ensures SuperOk(disk[0])
  {
  }
}
