/**
 The imperative form of m16_mcsfs_journal.c: a device whose blocks are written in place,
 a transaction buffer that grows record by record, and the operations built on them.
 Each method does exactly what its specification function says, on every device state
 and for every write budget.
 */
module M16Device {
  import opened Bytes
  import opened Journal
  import opened JournalCrash
  import opened M16Fs
  import opened M16Runs

  // ---------- helpers that loop over one buffer ----------

  method ComputeChecksum(s: seq<byte>) returns (c: nat)
    ensures c == Checksum(s)
  {
    c := 2166136261;
    var i := 0;
    while i < |s|
      invariant 0 <= i <= |s| && c == Checksum(s[..i])
    {
      c := (Xor(c, s[i], 32) * 16777619) % 0x1_0000_0000;
      i := i + 1;
      assert s[..i][..i - 1] == s[..i - 1];
    }
    assert s[..i] == s;
  }

  method HeaderChecksum(h: Block) returns (c: nat)
    ensures c == HeaderSum(h)
  {
    c := ComputeChecksum(SetField(h, 24, 4, 0));
  }

  /** The descriptor block of one record, filled in member by member. */
  method Descriptor(r: Rec) returns (desc: Block)
    ensures desc == DescBlock(r)
  {
    hide Checksum, SetMembers;
    var sum := ComputeChecksum(r.data);
    Pow256Values();
    DescIs(r);
    desc := SetMembers(ZeroBlock(), [Member(0, 8, JMAGIC), Member(8, 4, r.lba % 0x1_0000_0000), Member(12, 4, sum)]);
  }

  method StringsEqual(a: seq<byte>, name: seq<byte>) returns (r: bool)
    requires |a| == MAX_NAME
    ensures r <==> StrEq(a, name, 0)
  {
    var i := 0;
    while i < MAX_NAME
      invariant 0 <= i <= MAX_NAME && (StrEq(a, name, 0) <==> StrEq(a, name, i))
    {
      if a[i] != CharAt(name, i) { return false; }
      if a[i] == 0 { return true; }
      i := i + 1;
    }
    return true;
  }

  /** Index of the first clear bit in [lo, hi), or hi. */
  method FindClear(bm: Block, lo: nat, hi: nat) returns (r: nat)
    requires lo <= hi <= 4096
    ensures r == FirstClear(bm, lo, hi)
  {
    r := lo;
    while r < hi
      invariant lo <= r <= hi && FirstClear(bm, lo, hi) == FirstClear(bm, r, hi)
    {
      if !BitOf(bm, r) { return; }
      r := r + 1;
    }
  }

  method FindDirent(dir: Block, name: seq<byte>) returns (r: nat)
    ensures r == FindSlot(dir, name, 0)
  {
    r := 0;
    while r < DIRENTS
      invariant 0 <= r <= DIRENTS && FindSlot(dir, name, 0) == FindSlot(dir, name, r)
    {
      if SlotUsed(dir, r) != 0 {
        var eq := StringsEqual(SlotName(dir, r), name);
        if eq { return; }
      }
      r := r + 1;
    }
  }

  method FindFreeDirent(dir: Block) returns (r: nat)
    ensures r == FindFreeSlot(dir, 0)
  {
    r := 0;
    while r < DIRENTS
      invariant 0 <= r <= DIRENTS && FindFreeSlot(dir, 0) == FindFreeSlot(dir, r)
    {
      if SlotUsed(dir, r) == 0 { return; }
      r := r + 1;
    }
  }

  // ---------- the transaction buffer ----------

  class Transaction {
    var recs: seq<Rec>

    constructor ()
      ensures recs == []
    {
      recs := [];
    }

    /** m16_tx_add */
    method Add(lba: nat, payload: Block) returns (rc: Rc)
      modifies this
      ensures rc == (if |old(recs)| < MAX_RECORDS then Ok else NoSpc)
      ensures recs == if rc == Ok then old(recs) + [Rec(lba, payload)] else old(recs)
    {
      if |recs| >= MAX_RECORDS { return NoSpc; }
      recs := recs + [Rec(lba, payload)];
      return Ok;
    }

    /** m16_store_inode_table: all four table blocks or none */
    method StoreInodeTable(t: Table) returns (rc: Rc)
      modifies this
      ensures rc == (if |old(recs)| + 4 <= MAX_RECORDS then Ok else NoSpc)
      ensures rc != Ok ==> recs == old(recs)
      ensures rc == Ok ==> recs == old(recs) + [Rec(20, TableBlock(t, 0)), Rec(21, TableBlock(t, 1)),
                                                Rec(22, TableBlock(t, 2)), Rec(23, TableBlock(t, 3))]
    {
      if |recs| + 4 > MAX_RECORDS { return NoSpc; }
      var i := 0;
      while i < 4
        invariant 0 <= i <= 4 && |recs| == |old(recs)| + i && recs[..|old(recs)|] == old(recs)
        invariant forall k :: 0 <= k < i ==> recs[|old(recs)| + k] == Rec(20 + k, TableBlock(t, k))
      {
        recs := recs + [Rec(INODE_TABLE + i, TableBlock(t, i))];
        i := i + 1;
      }
      return Ok;
    }
  }

  // ---------- the device and its operations ----------

  class BlockDevice {
    const blocks: array<Block>
    var failAfter: int
    var writes: nat

    ghost predicate Valid() {
      blocks.Length == 128
    }

    ghost function Model(): Device
      requires Valid()
      reads this, blocks
    {
      Device(blocks[..], failAfter, writes)
    }

    /** m16_dev_init */
    constructor ()
      ensures Valid() && fresh(blocks) && Model() == Device(BlankDisk(), -1, 0)
    {
      blocks := new Block[128](i => ZeroBlock());
      failAfter := -1;
      writes := 0;
      new;
      assert blocks[..] == BlankDisk();
    }

    method WriteBlock(lba: nat, b: Block) returns (rc: Rc)
      requires Valid()
      modifies this, blocks
      ensures Outcome(Model(), rc) == Journal.WriteBlock(old(Model()), lba, b)
    {
      if lba >= 128 { return Inval; }
      if failAfter == 0 { return Io; }
      if failAfter > 0 { failAfter := failAfter - 1; }
      blocks[lba] := b;
      writes := (writes + 1) % 0x1_0000_0000_0000_0000;
      assert blocks[..] == old(blocks[..])[lba := b];
      return Ok;
    }

    method JournalClear() returns (rc: Rc)
      requires Valid()
      modifies this, blocks
      ensures Outcome(Model(), rc) == RunWrites(old(Model()), [ClearWrite()])
      ensures Outcome(Model(), rc) == Journal.WriteBlock(old(Model()), JOURNAL_START, ZeroBlock())
    {
      RunWritesSnoc(Model(), [], ClearWrite());
      assert [] + [ClearWrite()] == [ClearWrite()];
      rc := WriteBlock(JOURNAL_START, ZeroBlock());
    }

    /** Writes one record's descriptor and payload into the journal. */
    method LogRecord(r: Rec, i: nat) returns (rc: Rc)
      requires Valid()
      modifies this, blocks
      ensures Outcome(Model(), rc) == RunWrites(old(Model()), [Rec(2 + 2 * i, DescBlock(r)), Rec(3 + 2 * i, r.data)])
    {
      hide RunWrites, DescBlock, Journal.WriteBlock;
      ghost var a, b := Rec(2 + 2 * i, DescBlock(r)), Rec(3 + 2 * i, r.data);
      RunWritesSnoc(Model(), [], a);
      RunWritesSnoc(Model(), [a], b);
      assert [] + [a] == [a] && [a] + [b] == [a, b];
      EmptyRun(Model());
      var desc := Descriptor(r);
      rc := WriteBlock(2 + 2 * i, desc);
      if rc != Ok { return; }
      rc := WriteBlock(3 + 2 * i, r.data);
    }

    /** The loop that writes every record into the journal. */
    method LogRecords(recs: seq<Rec>) returns (rc: Rc)
      requires Valid()
      modifies this, blocks
      ensures Outcome(Model(), rc) == RunWrites(old(Model()), LogWrites(recs))
    {
      hide DescBlock, RunWrites;
      ghost var start := Model();
      EmptyRun(start);
      rc := Ok;
      var i := 0;
      while i < |recs|
        invariant 0 <= i <= |recs| && rc == Ok
        invariant Outcome(Model(), Ok) == RunWrites(start, LogWrites(recs[..i]))
      {
        ghost var pair := [Rec(2 + 2 * i, DescBlock(recs[i])), Rec(3 + 2 * i, recs[i].data)];
        RunWritesConcat(start, LogWrites(recs[..i]), pair);
        assert recs[..i + 1][..i] == recs[..i];
        rc := LogRecord(recs[i], i);
        i := i + 1;
        if rc != Ok {
          LogPrefix(recs, i);
          RunStops(start, LogWrites(recs[..i]), LogWrites(recs));
          return;
        }
      }
      assert recs[..i] == recs;
    }

    method WriteCommitHeader(sequence: nat, n: nat) returns (rc: Rc)
      requires Valid() && n <= MAX_RECORDS
      modifies this, blocks
      ensures Outcome(Model(), rc) == Journal.WriteBlock(old(Model()), JOURNAL_START, CommitHeader(sequence, n))
    {
      hide Journal.WriteBlock, HeaderMembers, HeaderSum;
      var h := SetMembers(ZeroBlock(), HeaderMembers(sequence, n));
      var sum := HeaderChecksum(h);
      h := SetField(h, 24, 4, sum);
      rc := WriteBlock(JOURNAL_START, h);
    }

    /** m16_journal_commit */
    method JournalCommit(tx: Transaction, sequence: nat, stop: bool) returns (rc: Rc)
      requires Valid()
      modifies this, blocks
      ensures Outcome(Model(), rc) == Commit(old(Model()), tx.recs, sequence, stop)
    {
      hide CommitHeader, Journal.WriteBlock, RunWrites, LogWrites, ZeroBlock;
      var recs := tx.recs;
      if |recs| > MAX_RECORDS { return Inval; }
      ghost var start := Model();
      ghost var all := CommitWrites(recs, sequence, stop);
      ghost var pre := [ClearWrite()] + LogWrites(recs);
      ghost var head := CommitHead(recs, sequence);
      RunWritesConcat(start, [ClearWrite()], LogWrites(recs));
      RunWritesSnoc(start, pre, Rec(JOURNAL_START, CommitHeader(sequence, |recs|)));
      rc := JournalClear();
      if rc != Ok { RunStops(start, [ClearWrite()], all); return; }
      rc := LogRecords(recs);
      if rc != Ok { RunStops(start, pre, all); return; }
      rc := WriteCommitHeader(sequence, |recs|);
      if rc != Ok { RunStops(start, head, all); return; }
      if stop { assert all == head; return Ok; }
      rc := ApplyRecords(recs, start, head, all);
    }

    /** The second half of a commit: copy every record home, then clear the header. */
    method ApplyRecords(recs: seq<Rec>, ghost start: Device, ghost head: seq<Rec>, ghost all: seq<Rec>) returns (rc: Rc)
      requires Valid() && all == head + (recs + [ClearWrite()])
      requires Outcome(Model(), Ok) == RunWrites(start, head)
      modifies this, blocks
      ensures Outcome(Model(), rc) == RunWrites(start, all)
    {
      hide Journal.WriteBlock, RunWrites, ZeroBlock;
      assert head + recs[..0] == head;
      var i := 0;
      while i < |recs|
        invariant 0 <= i <= |recs|
        invariant Outcome(Model(), Ok) == RunWrites(start, head + recs[..i])
      {
        RunWritesSnoc(start, head + recs[..i], recs[i]);
        assert head + recs[..i] + [recs[i]] == head + recs[..i + 1];
        rc := WriteBlock(recs[i].lba, recs[i].data);
        if rc != Ok {
          assert head + recs[..i + 1] == all[..|head| + i + 1];
          RunStops(start, head + recs[..i + 1], all);
          return;
        }
        i := i + 1;
      }
      assert recs[..i] == recs;
      RunWritesSnoc(start, head + recs, ClearWrite());
      assert head + recs + [ClearWrite()] == all;
      rc := JournalClear();
    }

    /** m16_journal_recover */
    method JournalRecover() returns (rc: Rc)
      requires Valid()
      modifies this, blocks
      ensures Outcome(Model(), rc) == Recover(old(Model()))
    {
      hide Field, Checksum, ZeroBlock, SetField;
      var h := blocks[JOURNAL_START];
      if Field(h, 0, 8) == 0 && Field(h, 12, 4) == J_EMPTY { return Ok; }
      if Field(h, 0, 8) != JMAGIC || Field(h, 8, 4) != VERSION || Field(h, 12, 4) != J_COMMITTED
        || Field(h, 20, 4) > MAX_RECORDS {
        return Corrupt;
      }
      var sum := HeaderChecksum(h);
      if sum != Field(h, 24, 4) { return Corrupt; }
      var n, i := Field(h, 20, 4), 0;
      while i < n
        invariant 0 <= i <= n
        invariant ReplayFrom(old(Model()), 0, n) == ReplayFrom(Model(), i, n)
      {
        var desc := blocks[2 + 2 * i];
        if Field(desc, 0, 8) != JMAGIC || Field(desc, 8, 4) >= 128 { return Corrupt; }
        var payload := blocks[3 + 2 * i];
        sum := ComputeChecksum(payload);
        if sum != Field(desc, 12, 4) { return Corrupt; }
        rc := WriteBlock(Field(desc, 8, 4), payload);
        if rc != Ok { return; }
        i := i + 1;
      }
      rc := JournalClear();
    }

    /** m16_mount */
    method Mount() returns (rc: Rc, sb: Block)
      requires Valid()
      modifies this, blocks
      ensures Outcome(Model(), rc) == M16Fs.Mount(old(Model()))
      ensures rc == Ok ==> sb == Model().disk[0]
    {
      hide Recover, Field;
      sb := ZeroBlock();
      rc := JournalRecover();
      if rc != Ok { return; }
      sb := blocks[0];
      if Field(sb, 0, 8) != MAGIC || Field(sb, 8, 4) != VERSION || Field(sb, 12, 4) != 512 { return Corrupt, sb; }
      if Field(sb, 48, 4) != DATA_START || Field(sb, 44, 4) != ROOT_DIR { return Corrupt, sb; }
    }

    method LoadInodeTable() returns (t: Table)
      requires Valid()
      ensures t == LoadTable(Model().disk)
    {
      var raw: seq<byte> := [];
      var i := 0;
      while i < 4
        invariant 0 <= i <= 4 && raw == LoadTable(Model().disk)[..512 * i]
      {
        assert LoadTable(Model().disk)[512 * i..512 * (i + 1)] == Model().disk[20 + i];
        raw := raw + blocks[INODE_TABLE + i];
        i := i + 1;
      }
      t := raw;
    }

    /** m16_format: the blocks are zeroed directly, then written through the device. */
    method Format() returns (rc: Rc)
      requires Valid()
      modifies this, blocks
      ensures Outcome(Model(), rc) == M16Runs.Format(old(Model()))
    {
      hide Journal.WriteBlock, SuperBlock, BitSet, LowBits, RootTable, TableBlock, RunWrites;
      var k := 0;
      while k < 128
        invariant 0 <= k <= 128 && failAfter == old(failAfter) && writes == old(writes)
        invariant forall i :: 0 <= i < k ==> blocks[i] == ZeroBlock()
      {
        blocks[k] := ZeroBlock();
        k := k + 1;
      }
      assert blocks[..] == BlankDisk();
      ghost var start := Model();
      EmptyRun(start);
      var bb := ZeroBlock();
      LowBitsZero();
      var b := 0;
      while b < DATA_START
        invariant 0 <= b <= DATA_START && bb == LowBits(b) && Model() == start
      {
        assert LowBits(b + 1) == BitSet(bb, b) by { LowBitsNext(b); }
        bb := BitSet(bb, b);
        b := b + 1;
      }
      var ws := [Rec(0, SuperBlock()), Rec(INODE_BITMAP, BitSet(ZeroBlock(), 0)), Rec(BLOCK_BITMAP, bb)];
      var t := RootTable();
      var j := 0;
      while j < 4
        invariant 0 <= j <= 4 && |ws| == 3 + j && Model() == start
        invariant ws <= FormatWrites()
      {
        ws := ws + [Rec(INODE_TABLE + j, TableBlock(t, j))];
        j := j + 1;
      }
      ws := ws + [Rec(ROOT_DIR, ZeroBlock()), ClearWrite()];
      assert ws == FormatWrites();
      rc := WriteAll(ws);
    }

    /** A straight-line sequence of m16_write_block calls, each checked. */
    method WriteAll(ws: seq<Rec>) returns (rc: Rc)
      requires Valid()
      modifies this, blocks
      ensures Outcome(Model(), rc) == RunWrites(old(Model()), ws)
    {
      hide Journal.WriteBlock, RunWrites;
      ghost var start := Model();
      EmptyRun(start);
      rc := Ok;
      var i := 0;
      while i < |ws|
        invariant 0 <= i <= |ws| && Outcome(Model(), Ok) == RunWrites(start, ws[..i]) && rc == Ok
      {
        RunWritesSnoc(start, ws[..i], ws[i]);
        assert ws[..i] + [ws[i]] == ws[..i + 1];
        rc := WriteBlock(ws[i].lba, ws[i].data);
        if rc != Ok { RunStops(start, ws[..i + 1], ws); return; }
        i := i + 1;
      }
      assert ws[..i] == ws;
    }

    /** m16_write_file_ex */
    method WriteFileEx(name: seq<byte>, data: seq<byte>, stop: bool) returns (rc: Rc)
      requires Valid()
      modifies this, blocks
      ensures Outcome(Model(), rc) == WriteFile(old(Model()), name, data, stop)
    {
      hide M16Fs.Mount, M16Fs.WriteMounted;
      var nameLen := if |name| < MAX_NAME then |name| else MAX_NAME;
      if nameLen == 0 || nameLen >= MAX_NAME { return TooLong; }
      if |data| > 512 { return Inval; }
      var sb;
      rc, sb := Mount();
      if rc != Ok { return; }
      rc := WriteMounted(name, data, stop, sb);
    }

    /** The rest of m16_write_file_ex, once mounted: look up, choose, and commit twice. */
    method WriteMounted(name: seq<byte>, data: seq<byte>, stop: bool, sb: Block) returns (rc: Rc)
      requires Valid() && 0 < |name| < MAX_NAME && |data| <= 512 && sb == Model().disk[0]
      modifies this, blocks
      ensures Outcome(Model(), rc) == M16Fs.WriteMounted(old(Model()), name, data, stop)
    {
      hide Commit, FirstClear, FindSlot, FindFreeSlot, Generation, ReserveRecs, LinkRecs;
      var ib, bb := blocks[INODE_BITMAP], blocks[BLOCK_BITMAP];
      var t := LoadInodeTable();
      var dir := blocks[ROOT_DIR];
      var found := FindDirent(dir, name);
      if found < DIRENTS { return Exists; }
      var ino := FindClear(ib, 1, MAX_INODES);
      if ino == MAX_INODES { return NoSpc; }
      var blk := FindClear(bb, DATA_START, 128);
      if blk == 128 { return NoSpc; }
      var slot := FindFreeDirent(dir);
      if slot == DIRENTS { return NoSpc; }
      var g := Generation(sb);
      rc := CommitReservation(ib, bb, t, ino, blk, |data|, g + 1);
      if rc != Ok { return; }
      rc := CommitEntry(dir, slot, ino, blk, name, data, g + 2, stop);
    }

    /** First transaction: bitmaps and inode table. */
    method CommitReservation(ib: Block, bb: Block, t: Table, ino: nat, blk: nat, size: nat, sequence: nat)
        returns (rc: Rc)
      requires Valid() && ino < 16 && blk < 128 && size <= 512
      requires ib == Model().disk[INODE_BITMAP] && bb == Model().disk[BLOCK_BITMAP] && t == LoadTable(Model().disk)
      modifies this, blocks
      ensures Outcome(Model(), rc) == Commit(old(Model()), ReserveRecs(old(Model()).disk, ino, blk, size), sequence,
              false)
    {
      hide Commit, SetInode, BitSet, LoadTable, TableBlock;
      var tx := new Transaction();
      rc := tx.Add(INODE_BITMAP, BitSet(ib, ino));
      rc := tx.Add(BLOCK_BITMAP, BitSet(bb, blk));
      rc := tx.StoreInodeTable(SetInode(t, ino, 1, size, blk));
      assert tx.recs == ReserveRecs(Model().disk, ino, blk, size);
      rc := JournalCommit(tx, sequence, false);
    }

    /** Second transaction: directory entry and data. */
    method CommitEntry(dir: Block, slot: nat, ino: nat, blk: nat, name: seq<byte>, data: seq<byte>, sequence: nat,
        stop: bool) returns (rc: Rc)
      requires Valid() && slot < DIRENTS && ino < 16 && blk < 128 && |name| < MAX_NAME && |data| <= 512
      modifies this, blocks
      ensures Outcome(Model(), rc) == Commit(old(Model()), LinkRecs(dir, slot, ino, blk, name, data), sequence, stop)
    {
      hide Commit, SetSlot, Padded;
      var tx := new Transaction();
      rc := tx.Add(ROOT_DIR, SetSlot(dir, slot, ino, name));
      rc := tx.Add(blk, Padded(data, 512));
      assert tx.recs == LinkRecs(dir, slot, ino, blk, name, data);
      rc := JournalCommit(tx, sequence, stop);
    }

    /** m16_read_file */
    method ReadFile(name: seq<byte>, cap: nat) returns (r: ReadResult)
      requires Valid()
      modifies this, blocks
      ensures Model() == M16Fs.Mount(old(Model())).dev
      ensures var rc := M16Fs.Mount(old(Model())).rc;
              r == if rc != Ok then ReadErr(rc) else ReadMounted(Model().disk, name, cap)
    {
      hide M16Fs.Mount, Field, LoadTable, FindSlot, StrEq;
      var rc, sb := Mount();
      if rc != Ok { return ReadErr(rc); }
      var t := LoadInodeTable();
      var dir := blocks[ROOT_DIR];
      var slot := FindDirent(dir, name);
      if slot == DIRENTS { return ReadErr(NoEnt); }
      var ino := SlotIno(dir, slot);
      if ino >= MAX_INODES || InodeUsed(t, ino) == 0 || InodeKind(t, ino) != 1 { return ReadErr(Corrupt); }
      if InodeSize(t, ino) > cap || InodeBlock(t, ino) >= 128 { return ReadErr(Inval); }
      if InodeSize(t, ino) > 512 { return ReadOverrun; }
      var blk := blocks[InodeBlock(t, ino)];
      return ReadOk(blk[..InodeSize(t, ino)]);
    }

    /** m16_fsck */
    method Fsck() returns (rc: Rc)
      requires Valid()
      modifies this, blocks
      ensures Model() == M16Fs.Mount(old(Model())).dev
      ensures rc == if M16Fs.Mount(old(Model())).rc != Ok then M16Fs.Mount(old(Model())).rc
              else FsckMounted(Model().disk)
    {
      hide M16Fs.Mount, Field, LoadTable, BitOf;
      var sb;
      rc, sb := Mount();
      if rc != Ok { return; }
      ghost var disk := Model().disk;
      var ib, bb := blocks[INODE_BITMAP], blocks[BLOCK_BITMAP];
      var t := LoadInodeTable();
      var dir := blocks[ROOT_DIR];
      if !BitOf(ib, 0) || InodeUsed(t, 0) != 1 || InodeKind(t, 0) != 2 || InodeBlock(t, 0) != ROOT_DIR {
        return Corrupt;
      }
      var b := 0;
      while b < DATA_START
        invariant 0 <= b <= DATA_START && Model().disk == disk
        invariant forall k :: 0 <= k < b ==> BitOf(bb, k)
      {
        if !BitOf(bb, b) { return Corrupt; }
        b := b + 1;
      }
      var i := 0;
      while i < DIRENTS
        invariant 0 <= i <= DIRENTS && Model().disk == disk
        invariant forall k :: 0 <= k < i ==> SlotSane(disk, k)
      {
        if SlotUsed(dir, i) != 0 {
          var ino := SlotIno(dir, i);
          if ino >= MAX_INODES || !BitOf(ib, ino) { assert !SlotSane(disk, i); return Corrupt; }
          if InodeUsed(t, ino) == 0 || InodeKind(t, ino) != 1 || InodeSize(t, ino) > 512 {
            assert !SlotSane(disk, i);
            return Corrupt;
          }
          if InodeBlock(t, ino) < DATA_START || InodeBlock(t, ino) >= 128 || !BitOf(bb, InodeBlock(t, ino)) {
            assert !SlotSane(disk, i);
            return Corrupt;
          }
        }
        assert SlotSane(disk, i);
        i := i + 1;
      }
      return Ok;
    }
  }

  // ---------- small facts the methods use ----------

  lemma {:induction false} DescIs(r: Rec)
    ensures DescMembers(r) == [Member(0, 8, JMAGIC), Member(8, 4, r.lba % 0x1_0000_0000),
            Member(12, 4, Checksum(r.data))]
  {
    hide Checksum;
  }

  lemma {:induction false} LowBitsNext(b: nat)
    requires b < 4096
    ensures LowBits(b + 1) == BitSet(LowBits(b), b)
  {
    hide BitSet;
  }

  lemma {:induction false} LowBitsZero()
    ensures LowBits(0) == ZeroBlock()
  {
  }

  /** A list that fails within a prefix fails there. */
  lemma {:induction false} RunStops(d: Device, a: seq<Rec>, all: seq<Rec>)
    requires a <= all && RunWrites(d, a).rc != Ok
    ensures RunWrites(d, all) == RunWrites(d, a)
  {
    hide RunWrites;
    assert all == a + all[|a|..];
    RunWritesConcat(d, a, all[|a|..]);
  }

  lemma {:induction false} LogPrefix(recs: seq<Rec>, i: nat)
    requires i <= |recs|
    ensures LogWrites(recs[..i]) <= LogWrites(recs)
    decreases |recs|
  {
    hide DescBlock;
    if i < |recs| {
      var init := recs[..|recs| - 1];
      LogPrefix(init, i);
      assert init[..i] == recs[..i];
    } else {
      assert recs[..i] == recs;
    }
  }

}
