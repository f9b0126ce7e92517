/**
 The MCSFS1J checks and layouts said of raw bytes: what fsck and mount refuse, what a format
 and a file write leave on the disk, and what a read answers, on every disk.
 */
module M16Replies {
  import opened Bytes
  import opened Journal
  import opened JournalCrash
  import opened JournalReplies
  import opened M16Fs
  import opened M16Inv
  import opened M16Crash
  import opened M16Runs

  /** The four-byte member at offset `off` of inode ino: four inodes to a block, from block 20. */
  function InoField(disk: Disk, ino: nat, off: nat): nat
    requires ino < 16 && off + 4 <= 128
  {
    Field(disk[20 + ino / 4], 128 * (ino % 4) + off, 4)
  }

  lemma {:induction false} TableField(disk: Disk, ino: nat, off: nat)
    requires ino < 16 && off + 4 <= 128
    ensures Field(LoadTable(disk), 128 * ino + off, 4) == InoField(disk, ino, off)
  {
    hide Decode;
    var t, i, b := LoadTable(disk), ino / 4, 128 * (ino % 4) + off;
    assert 128 * ino + off == 512 * i + b;
    TableSlice(disk, i);
    SliceOfSlice(t, 512 * i, 512, b, b + 4);
  }

  lemma {:induction false} TableSlice(disk: Disk, i: nat)
    requires i < 4
    ensures LoadTable(disk)[512 * i..512 * i + 512] == disk[20 + i]
  {
    assert LoadTable(disk)[512 * i..512 * i + 512] == disk[20 + i];
  }

  // ---------- fsck and mount ----------

  /** Inode 0 is used, a directory, at block 24; blocks 0 to 24 are marked. */
  predicate RootSane(disk: Disk) {
    && BitOf(disk[18], 0) && InoField(disk, 0, 0) == 1 && InoField(disk, 0, 4) == 2 && InoField(disk, 0, 12) == 24
    && forall b :: 0 <= b < 25 ==> BitOf(disk[19], b)
  }

  /** Directory entry j, if used, names a marked file inode of at most 512 bytes at a marked data block. */
  predicate EntrySane(disk: Disk, j: nat)
    requires j < 12
  {
    var ino := Field(disk[24], 40 * j + 4, 4);
    Field(disk[24], 40 * j, 4) != 0 ==>
      && ino < 16 && BitOf(disk[18], ino)
      && InoField(disk, ino, 0) != 0 && InoField(disk, ino, 4) == 1 && InoField(disk, ino, 8) <= 512
      && 25 <= InoField(disk, ino, 12) < 128 && BitOf(disk[19], InoField(disk, ino, 12))
  }

  lemma {:induction false} SaneIs(disk: Disk, j: nat)
    requires j < 12
    ensures SlotSane(disk, j) <==> EntrySane(disk, j)
  {
    hide Field, LoadTable, BitOf, InoField;
    var ino := Field(disk[24], 40 * j + 4, 4);
    if ino < 16 {
      TableFields(disk, ino);
    }
  }

  /** m16_fsck, once mounted, answers OK exactly on a disk whose root and entries are sane, else CORRUPT. */
  lemma {:induction false} FsckSays(disk: Disk)
    ensures FsckMounted(disk) ==
            if RootSane(disk) && forall j :: 0 <= j < 12 ==> EntrySane(disk, j) then Ok else Corrupt
  {
    hide Field, LoadTable, BitOf, InoField, SlotSane, EntrySane;
    TableFields(disk, 0);
    forall j | 0 <= j < 12 ensures SlotSane(disk, j) <==> EntrySane(disk, j) { SaneIs(disk, j); }
  }

  /** m16_mount: the answer of recovery, or CORRUPT unless five superblock members are right. */
  lemma {:induction false} MountSays(d: Device)
    ensures var o, sb := Recover(d), Recover(d).dev.disk[0];
            && Mount(d).dev == o.dev
            && Mount(d).rc ==
               if o.rc != Ok then o.rc
               else if Field(sb, 0, 8) == 0x4d43534631564a31 && Field(sb, 8, 4) == 1 && Field(sb, 12, 4) == 512
                       && Field(sb, 44, 4) == 24 && Field(sb, 48, 4) == 25 then Ok
               else Corrupt
  {
    hide Recover, Field;
  }

  // ---------- format ----------

  /** The superblock of a format, member by member, and zeros after them. */
  predicate FreshSuper(sb: Block) {
    && Field(sb, 0, 8) == 0x4d43534631564a31 && Field(sb, 8, 4) == 1 && Field(sb, 12, 4) == 512
    && Field(sb, 16, 4) == 128 && Field(sb, 20, 4) == 1 && Field(sb, 24, 4) == 17 && Field(sb, 28, 4) == 18
    && Field(sb, 32, 4) == 19 && Field(sb, 36, 4) == 20 && Field(sb, 40, 4) == 4 && Field(sb, 44, 4) == 24
    && Field(sb, 48, 4) == 25 && Field(sb, 52, 4) == 1 && sb[56..512] == Zeros(456)
  }

  lemma {:induction false} SuperSays()
    ensures FreshSuper(SuperBlock())
  {
    hide SetMembers, Field;
    var ms, sb := SuperMembers(), SuperBlock();
    forall i | 0 <= i < |ms| ensures Field(sb, ms[i].off, ms[i].n) == ms[i].v { MemberAt(ZeroBlock(), ms, i); }
    MembersOther(ZeroBlock(), ms, 56, 456);
    assert ZeroBlock()[56..512] == Zeros(456);
    SuperList(ms, sb);
  }

  lemma {:induction false} SuperList(ms: seq<Member>, sb: Block)
    requires ms == SuperMembers() && forall i :: 0 <= i < |ms| ==> Field(sb, ms[i].off, ms[i].n) == ms[i].v
    requires sb[56..512] == Zeros(456)
    ensures FreshSuper(sb)
  {
    hide Field, Layout;
    assert ms[0] == Member(0, 8, MAGIC) && ms[1] == Member(8, 4, 1) && ms[2] == Member(12, 4, 512);
    assert ms[3] == Member(16, 4, 128) && ms[4] == Member(20, 4, 1) && ms[5] == Member(24, 4, 17);
    assert ms[6] == Member(28, 4, 18) && ms[7] == Member(32, 4, 19) && ms[8] == Member(36, 4, 20);
    assert ms[9] == Member(40, 4, 4) && ms[10] == Member(44, 4, 24) && ms[11] == Member(48, 4, 25);
    assert ms[12] == Member(52, 4, 1);
  }

  /** A completed format: that superblock, bit 0 and bits 0 to 24 alone, the root inode, and zeros elsewhere. */
  lemma {:induction false} FormatSays(d: Device, x: nat)
    requires Format(d).rc == Ok && x < 4096
    ensures var disk := Format(d).dev.disk;
            && FreshSuper(disk[0]) && (BitOf(disk[18], x) <==> x == 0) && (BitOf(disk[19], x) <==> x < 25)
            && InoField(disk, 0, 0) == 1 && InoField(disk, 0, 4) == 2 && InoField(disk, 0, 8) == 0
            && InoField(disk, 0, 12) == 24
            && (forall b :: 0 <= b < 128 && b != 0 && !(18 <= b < 24) ==> disk[b] == ZeroBlock())
  {
    hide BlankDisk, FormatWrites, Apply, Field, BitOf, LowBits, RootTable, LoadTable, BitSet, FreshSuper, SuperBlock;
    var disk, ws := Format(d).dev.disk, FormatWrites();
    FormatInRange();
    InRangePrefix(d.(disk := BlankDisk()), ws);
    assert ws[..|ws|] == ws;
    FormatEffect(BlankDisk());
    FormatElsewhere();
    SuperSays();
    ZeroBit(x);
    BitSetAt(ZeroBlock(), 0, x);
    LowBitsAt(25, x);
    RootFields();
    TableFields(disk, 0);
  }

  lemma {:induction false} RootFields()
    ensures Field(RootTable(), 0, 4) == 1 && Field(RootTable(), 4, 4) == 2
    ensures Field(RootTable(), 8, 4) == 0 && Field(RootTable(), 12, 4) == 24
  {
    hide Field, SetInode;
    SetInodeAt(Zeros(2048), 0, 2, 0, 24, 0);
  }

  lemma {:induction false} FormatElsewhere()
    ensures forall b :: 0 <= b < 128 && b != 0 && !(18 <= b < 24) ==>
      Apply(BlankDisk(), FormatWrites())[b] == ZeroBlock()
  {
    hide SuperBlock, BitSet, LowBits, RootTable, TableBlock, ZeroBlock, Apply;
    var z, ws := BlankDisk(), FormatWrites();
    var init := ws[..7];
    assert ws == init + [ws[7]] + [ws[8]];
    ApplySnoc(z, init + [ws[7]], ws[8]);
    ApplySnoc(z, init, ws[7]);
    forall b | 0 <= b < 128 && b != 0 && !(18 <= b < 24) ensures Apply(z, ws)[b] == ZeroBlock() {
      assert !Targets(init, b);
      ApplyAt(z, z, init, b);
    }
  }

  // ---------- write and read ----------

  /** The two refusals that come before the mount. */
  lemma {:induction false} WriteRefuses(d: Device, name: seq<byte>, data: seq<byte>, stop: bool)
    ensures |name| == 0 || |name| >= 32 ==> WriteFile(d, name, data, stop) == Outcome(d, TooLong)
    ensures 0 < |name| < 32 && |data| > 512 ==> WriteFile(d, name, data, stop) == Outcome(d, Inval)
    ensures 0 < |name| < 32 && |data| <= 512 && Mount(d).rc != Ok ==> WriteFile(d, name, data, stop) == Mount(d)
  {
    hide Mount, WriteMounted;
  }

  /**
   A completed write in bytes: with the lowest free inode, data block and entry, the entry holds
   1, the inode number and the padded name; the inode 1, 1, the size and the block; the block the
   data and zeros; both bits are set, no other bit, entry, inode or home block changes.
   */
  lemma {:induction false} WrittenSays(before: Disk, after: Disk, name: seq<byte>, data: seq<byte>)
    requires FsOk(before) && CString(name) && 0 < |name| && Absent(before, name) && Written(before, after, name, data)
    ensures exists ino, blk, j :: WroteAt(before, after, name, data, ino, blk, j)
  {
    hide FsOk, FirstClear, FindFreeSlot, Absent, Link, Reserve, BitOf, WroteAt;
    var ino, blk, j := NextIno(before), NextBlk(before), NextSlot(before);
    LowestFree(before);
    WroteIt(before, after, name, data, ino, blk, j);
  }

  predicate Lowest(disk: Disk, ino: nat, blk: nat, j: nat) {
    && 1 <= ino < 16 && !BitOf(disk[18], ino) && (forall i :: 1 <= i < ino ==> BitOf(disk[18], i))
    && 25 <= blk < 128 && !BitOf(disk[19], blk) && (forall b :: 25 <= b < blk ==> BitOf(disk[19], b))
    && j < 12 && Field(disk[24], 40 * j, 4) == 0 && (forall k :: 0 <= k < j ==> Field(disk[24], 40 * k, 4) != 0)
  }

  predicate SameInode(a: Disk, b: Disk, i: nat)
    requires i < 16
  {
    && InoField(a, i, 0) == InoField(b, i, 0) && InoField(a, i, 4) == InoField(b, i, 4)
    && InoField(a, i, 8) == InoField(b, i, 8) && InoField(a, i, 12) == InoField(b, i, 12)
  }

  ghost predicate WroteAt(before: Disk, after: Disk, name: seq<byte>, data: seq<byte>, ino: nat, blk: nat, j: nat) {
    && Lowest(before, ino, blk, j) && |name| < 32 && |data| <= 512
    && Field(after[24], 40 * j, 4) == 1 && Field(after[24], 40 * j + 4, 4) == ino
    && after[24][40 * j + 8..40 * j + 40] == Padded(name, 32)
    && InoField(after, ino, 0) == 1 && InoField(after, ino, 4) == 1 && InoField(after, ino, 8) == |data|
    && InoField(after, ino, 12) == blk && after[blk] == Padded(data, 512)
    && (forall x :: 0 <= x < 4096 ==> (BitOf(after[18], x) <==> x == ino || BitOf(before[18], x)))
    && (forall x :: 0 <= x < 4096 ==> (BitOf(after[19], x) <==> x == blk || BitOf(before[19], x)))
    && (forall k :: 0 <= k < 12 && k != j ==> after[24][40 * k..40 * k + 40] == before[24][40 * k..40 * k + 40])
    && (forall i :: 0 <= i < 16 && i != ino ==> SameInode(before, after, i))
    && (forall b :: 0 <= b < 128 && !(1 <= b < 25) && b != blk ==> after[b] == before[b])
  }

  lemma {:induction false} LowestFree(disk: Disk)
    requires NextIno(disk) < 16 && NextBlk(disk) < 128 && NextSlot(disk) < 12
    ensures Lowest(disk, NextIno(disk), NextBlk(disk), NextSlot(disk))
  {
    hide FirstClear, FindFreeSlot, BitOf, Field;
    forall k | 0 <= k < NextSlot(disk) ensures Field(disk[24], 40 * k, 4) != 0 { assert SlotUsed(disk[24], k) != 0; }
  }

  lemma {:induction false} WroteIt(
    before: Disk, after: Disk, name: seq<byte>, data: seq<byte>, ino: nat, blk: nat, j: nat)
    requires CString(name) && 0 < |name| < 32 && |data| <= 512 && Lowest(before, ino, blk, j)
    requires SameHome(after, Link(Reserve(before, ino, blk, |data|), j, ino, blk, name, data))
    ensures WroteAt(before, after, name, data, ino, blk, j)
  {
    hide Lowest, BitOf, Field, Padded, Apply, LoadTable, SetInode, SetSlot, BitSet, TableBlock;
    LowestBounds(before, ino, blk, j);
    var mid := Reserve(before, ino, blk, |data|);
    ReserveEffect(before, ino, blk, |data|);
    LinkEffect(mid, mid[24], j, ino, blk, name, data);
    SetInodeAt(LoadTable(before), ino, 1, |data|, blk, ino);
    TableHome(after, mid);
    TableFields(after, ino);
    forall x | 0 <= x < 4096
      ensures (BitOf(after[18], x) <==> x == ino || BitOf(before[18], x))
              && (BitOf(after[19], x) <==> x == blk || BitOf(before[19], x))
    {
      BitSetAt(before[18], ino, x);
      BitSetAt(before[19], blk, x);
    }
    forall i | 0 <= i < 16 && i != ino ensures SameInode(before, after, i) {
      OtherInode(before, after, ino, |data|, blk, i);
    }
    SlotWritten(before[24], j, ino, name);
    forall k | 0 <= k < 12 && k != j ensures after[24][40 * k..40 * k + 40] == before[24][40 * k..40 * k + 40] {
      SlotOutside(before[24], j, ino, name, 40 * k, 40);
    }
  }

  lemma {:induction false} OtherInode(before: Disk, after: Disk, ino: nat, size: nat, blk: nat, i: nat)
    requires ino < 16 && size <= 512 && blk < 128 && i < 16 && i != ino
    requires LoadTable(after) == SetInode(LoadTable(before), ino, 1, size, blk)
    ensures SameInode(before, after, i)
  {
    hide Field, LoadTable, SetInode, InoField;
    SetInodeAt(LoadTable(before), ino, 1, size, blk, i);
    TableFields(before, i);
    TableFields(after, i);
  }

  lemma {:induction false} TableFields(disk: Disk, i: nat)
    requires i < 16
    ensures var t := LoadTable(disk);
            && InodeUsed(t, i) == InoField(disk, i, 0) && InodeKind(t, i) == InoField(disk, i, 4)
            && InodeSize(t, i) == InoField(disk, i, 8) && InodeBlock(t, i) == InoField(disk, i, 12)
  {
    hide Field, LoadTable, InoField;
    TableField(disk, i, 0);
    TableField(disk, i, 4);
    TableField(disk, i, 8);
    TableField(disk, i, 12);
  }

  lemma {:induction false} LowestBounds(disk: Disk, ino: nat, blk: nat, j: nat)
    requires Lowest(disk, ino, blk, j)
    ensures 1 <= ino < 16 && 25 <= blk < 128 && j < 12
  {
  }

  lemma {:induction false} TableHome(a: Disk, b: Disk)
    requires a[20] == b[20] && a[21] == b[21] && a[22] == b[22] && a[23] == b[23]
    ensures LoadTable(a) == LoadTable(b)
  {
  }

  lemma {:induction false} SlotWritten(dir: Block, j: nat, ino: nat, name: seq<byte>)
    requires j < 12 && ino < 16 && |name| < 32 && CString(name)
    ensures var d := SetSlot(dir, j, ino, name);
            && Field(d, 40 * j, 4) == 1 && Field(d, 40 * j + 4, 4) == ino
            && d[40 * j + 8..40 * j + 40] == Padded(name, 32)
  {
    hide Field, Padded, Splice, SetField;
    NewSlot(dir, j, ino, name);
    var d2 := SetField(SetField(dir, 40 * j, 4, 1), 40 * j + 4, 4, ino);
    SpliceSame(d2, 40 * j + 8, Padded(name, 32));
  }

  /** A completed commit that stops after its header leaves that header. */
  lemma {:induction false} HeaderLeft(d: Device, recs: seq<Rec>, sequence: nat)
    requires |recs| <= 8 && Commit(d, recs, sequence, true).rc == Ok
    ensures Commit(d, recs, sequence, true).dev.disk[1] == CommitHeader(sequence, |recs|)
  {
    hide CommitHeader, LogWrites, ZeroBlock, RunWrites;
    var pre, h := [ClearWrite()] + LogWrites(recs), Rec(1, CommitHeader(sequence, |recs|));
    assert CommitWrites(recs, sequence, true) == pre + [h];
    RunWritesSnoc(d, pre, h);
  }

  /** The second transaction carries the superblock's generation plus 2. */
  lemma {:induction false} StopSays(d: Device, name: seq<byte>, data: seq<byte>)
    requires 0 < |name| < 32 && |data| <= 512 && WriteMounted(d, name, data, true).rc == Ok
    ensures var h := WriteMounted(d, name, data, true).dev.disk[1];
            Sealed(h) && Field(h, 16, 4) == (Field(d.disk[0], 52, 4) + 2) % 0x1_0000_0000 && Field(h, 20, 4) == 2
  {
    hide Commit, CommitHeader, FirstClear, FindSlot, FindFreeSlot, Field, Sealed, ReserveRecs, LinkRecs;
    var disk, g := d.disk, Field(d.disk[0], 52, 4);
    var ino, blk, slot := NextIno(disk), NextBlk(disk), NextSlot(disk);
    var o := Commit(d, ReserveRecs(disk, ino, blk, |data|), g + 1, false);
    var recs := LinkRecs(disk[24], slot, ino, blk, name, data);
    assert WriteMounted(d, name, data, true) == Commit(o.dev, recs, g + 2, true);
    HeaderLeft(o.dev, recs, g + 2);
    HeaderSays(g + 2, 2);
  }

  /** Power lost just after the first commit header: it carries the generation plus 1, for six records. */
  lemma {:induction false} CutSays(d: Device, name: seq<byte>, data: seq<byte>, stop: bool)
    requires 0 < |name| < 32 && |data| <= 512 && d.fuel == 14 && WriteMounted(d, name, data, stop).rc == Io
    ensures var h := WriteMounted(d, name, data, stop).dev.disk[1];
            Sealed(h) && Field(h, 16, 4) == (Field(d.disk[0], 52, 4) + 1) % 0x1_0000_0000 && Field(h, 20, 4) == 6
  {
    hide CommitHeader, FirstClear, FindSlot, FindFreeSlot, Field, Sealed, LinkRecs, RunWrites, SetInode, BitSet;
    hide LoadTable, TableBlock, Apply, CommitWrites;
    var disk, g := d.disk, Field(d.disk[0], 52, 4);
    var recs := ReserveRecs(disk, NextIno(disk), NextBlk(disk), |data|);
    var ws := CommitWrites(recs, g + 1, false);
    FirstCut(disk, recs, g + 1);
    InRangePrefix(d, ws);
    HeaderSays(g + 1, 6);
  }

  lemma {:induction false} FirstCut(disk: Disk, recs: seq<Rec>, sequence: nat)
    requires |recs| == 6 && InRange(recs)
    ensures var ws := CommitWrites(recs, sequence, false);
            |ws| == 21 && InRange(ws) && Apply(disk, ws[..14])[1] == CommitHeader(sequence, 6)
  {
    hide CommitHeader, ZeroBlock, Apply, LogWrites;
    var pre, h := [ClearWrite()] + LogWrites(recs), Rec(1, CommitHeader(sequence, 6));
    LogWritesInside(recs);
    var ws := CommitWrites(recs, sequence, false);
    assert ws == pre + [h] + recs + [ClearWrite()];
    assert ws[..14] == pre + [h];
    ApplySnoc(disk, pre, h);
  }

  /** m16_read_file, once mounted, through the first entry j that matches, on any disk. */
  lemma {:induction false} ReadSays(disk: Disk, name: seq<byte>, cap: nat, j: nat)
    requires j < 12 && Match(disk[24], name, j) && forall k :: 0 <= k < j ==> !Match(disk[24], name, k)
    ensures var ino := Field(disk[24], 40 * j + 4, 4);
            ReadMounted(disk, name, cap) ==
            if ino >= 16 || InoField(disk, ino, 0) == 0 || InoField(disk, ino, 4) != 1 then ReadErr(Corrupt)
            else if InoField(disk, ino, 8) > cap || InoField(disk, ino, 12) >= 128 then ReadErr(Inval)
            else if InoField(disk, ino, 8) > 512 then ReadOverrun
            else ReadOk(disk[InoField(disk, ino, 12)][..InoField(disk, ino, 8)])
  {
    hide Field, LoadTable, Match, InoField;
    var ino := Field(disk[24], 40 * j + 4, 4);
    assert FindSlot(disk[24], name, 0) == j;
    if ino < 16 {
      TableFields(disk, ino);
    }
  }
}
