/**
 Whole histories of an MCSFS1J disk: format, then any sequence of file writes and
 mounts, each stopped by power loss after any number of block writes.
 */
module M16Runs {
  import opened Bytes
  import opened Journal
  import opened JournalCrash
  import opened M16Fs
  import opened M16Inv
  import opened M16Crash

  // ---------- format ----------

  function RootTable(): Table {
    SetInode(Zeros(2048), 0, 2, 0, ROOT_DIR)
  }

  function FormatWrites(): (ws: seq<Rec>)
    ensures |ws| == 9
  {
    [Rec(0, SuperBlock()), Rec(INODE_BITMAP, BitSet(ZeroBlock(), 0)), Rec(BLOCK_BITMAP, LowBits(DATA_START)),
     Rec(20, TableBlock(RootTable(), 0)), Rec(21, TableBlock(RootTable(), 1)),
     Rec(22, TableBlock(RootTable(), 2)), Rec(23, TableBlock(RootTable(), 3)),
     Rec(ROOT_DIR, ZeroBlock()), ClearWrite()]
  }

  function BlankDisk(): Disk {
    seq<Block>(128, i => ZeroBlock())
  }

  function Format(d: Device): Outcome {
    RunWrites(d.(disk := BlankDisk()), FormatWrites())
  }

  lemma {:induction false} SuperBlockOk()
    ensures SuperOk(SuperBlock())
  {
    hide SetMembers;
    var ms := SuperMembers();
    MemberAt(ZeroBlock(), ms, 0);
    MemberAt(ZeroBlock(), ms, 1);
    MemberAt(ZeroBlock(), ms, 2);
    MemberAt(ZeroBlock(), ms, 10);
    MemberAt(ZeroBlock(), ms, 11);
  }

  lemma {:induction false} FormatEffect(disk: Disk)
    ensures var d := Apply(disk, FormatWrites());
            && d[0] == SuperBlock() && d[INODE_BITMAP] == BitSet(ZeroBlock(), 0)
            && d[BLOCK_BITMAP] == LowBits(DATA_START) && LoadTable(d) == RootTable()
            && d[ROOT_DIR] == ZeroBlock() && d[JOURNAL_START] == ZeroBlock()
  {
    hide SuperBlock, BitSet, LowBits, RootTable, TableBlock, ZeroBlock, Apply, LoadTable;
    var ws := FormatWrites();
    forall i | 0 <= i < 9 ensures Apply(disk, ws)[ws[i].lba] == ws[i].data {
      ApplyWritten(disk, ws, i);
    }
    var d := Apply(disk, ws);
    assert ws[0].lba == 0 && ws[1].lba == 18 && ws[2].lba == 19 && ws[7].lba == 24 && ws[8].lba == 1;
    assert ws[3].lba == 20 && ws[4].lba == 21 && ws[5].lba == 22 && ws[6].lba == 23;
    assert d[20 + 0] == TableBlock(RootTable(), 0) && d[20 + 1] == TableBlock(RootTable(), 1);
    assert d[20 + 2] == TableBlock(RootTable(), 2) && d[20 + 3] == TableBlock(RootTable(), 3);
    TableRoundTrip(d, RootTable());
  }

  /** A completed format leaves a consistent file system with no files. */
  lemma {:induction false} FormatOk(d: Device, name: seq<byte>, cap: nat)
    requires Format(d).rc == Ok && CString(name)
    ensures Consistent(Format(d).dev.disk)
    ensures ReadMounted(Recovered(Format(d).dev.disk), name, cap) == ReadErr(NoEnt)
  {
    hide BlankDisk, FormatWrites, Apply, SuperOk, Field, BitOf, LowBits, RootTable, LoadTable, Padded, ReadMounted,
      NameOf;
    var blank := d.(disk := BlankDisk());
    var ws := FormatWrites();
    assert InRange(ws) by { FormatInRange(); }
    InRangePrefix(blank, ws);
    assert ws[..|ws|] == ws;
    var disk := Format(d).dev.disk;
    FormatEffect(BlankDisk());
    SuperBlockOk();
    ZeroHeaderEmpty();
    EmptyHeaderRecovers(disk);
    BitSetAt(ZeroBlock(), 0, 0);
    RootTableAt();
    assert RootOk(disk);
    forall b | 0 <= b < DATA_START ensures BitOf(disk[BLOCK_BITMAP], b) {
      LowBitsAt(DATA_START, b);
    }
    forall j | 0 <= j < DIRENTS ensures !Live(disk, j) {
      FieldOfZeros(512, 40 * j, 4);
    }
    EmptyDirOk(disk);
    ReadIsNoEnt(disk, name, cap);
  }

  lemma {:induction false} EmptyDirOk(disk: Disk)
    requires SuperOk(disk[0]) && RootOk(disk) && SystemBlocksMarked(disk)
    requires forall j :: 0 <= j < DIRENTS ==> !Live(disk, j)
    ensures FsOk(disk)
  {
    hide SuperOk, RootOk, SystemBlocksMarked, Field, BitOf, LoadTable;
    forall j | 0 <= j < DIRENTS ensures SlotOk(disk, j) {
      assert !Live(disk, j);
    }
  }

  lemma {:induction false} FormatInRange()
    ensures InRange(FormatWrites())
  {
    hide SuperBlock, BitSet, LowBits, RootTable, TableBlock, ZeroBlock;
  }

  lemma {:induction false} RootTableAt()
    ensures var t := RootTable(); InodeUsed(t, 0) == 1 && InodeKind(t, 0) == 2 && InodeBlock(t, 0) == ROOT_DIR
  {
    hide SetInode, Field;
    SetInodeAt(Zeros(2048), 0, 2, 0, ROOT_DIR, 0);
  }

  // ---------- histories ----------

  /** A file write, or a mount (which recover, read_file and fsck also perform), with its write budget. */
  datatype Event = WriteEvent(name: seq<byte>, data: seq<byte>, stop: bool, fuel: int) | MountEvent(fuel: int)

  predicate ValidEvent(e: Event) { e.WriteEvent? ==> CString(e.name) }

  function Perform(disk: Disk, e: Event): Outcome {
    match e
    case WriteEvent(name, data, stop, fuel) => WriteFile(Device(disk, fuel, 0), name, data, stop)
    case MountEvent(fuel) => Mount(Device(disk, fuel, 0))
  }

  function Run(disk: Disk, es: seq<Event>): Disk
    decreases |es|
  {
    if es == [] then disk else Perform(Run(disk, es[..|es| - 1]), es[|es| - 1]).dev.disk
  }

  /** What reading the name gives after the next uninterrupted mount. */
  function Contents(disk: Disk, name: seq<byte>, cap: nat): ReadResult {
    ReadMounted(Recovered(disk), name, cap)
  }

  function Whole(data: seq<byte>, cap: nat): ReadResult {
    if |data| > cap then ReadErr(Inval) else ReadOk(data)
  }

  lemma {:induction false} MountSafe(disk: Disk, fuel: int, name: seq<byte>, cap: nat)
    requires Consistent(disk) && CString(name)
    ensures var d1 := Mount(Device(disk, fuel, 0)).dev.disk;
            Consistent(d1) && Contents(d1, name, cap) == Contents(disk, name, cap)
  {
    hide FsOk, ReadMounted, Recover, Sound, PlanOf;
    var d := Device(disk, fuel, 0);
    RecoverCut(d);
    HomeReads(Recovered(disk), Recovered(Recover(d).dev.disk), name, cap);
  }

  lemma {:induction false} WriteSafe(disk: Disk, e: Event, name: seq<byte>, cap: nat)
    requires Consistent(disk) && e.WriteEvent? && CString(e.name) && CString(name)
    ensures var o := WriteFile(Device(disk, e.fuel, 0), e.name, e.data, e.stop);
            && Consistent(o.dev.disk)
            && (Contents(o.dev.disk, name, cap) == Contents(disk, name, cap)
                || (e.name == name && Contents(disk, name, cap) == ReadErr(NoEnt)
                      && Contents(o.dev.disk, name, cap) == Whole(e.data, cap)))
            && (o.rc == Ok && e.name == name ==> Contents(o.dev.disk, name, cap) == Whole(e.data, cap))
  {
    hide FsOk, ReadMounted, Recovered, Written, Absent, WriteFile, OnlyReserved;
    var d := Device(disk, e.fuel, 0);
    WriteFileCrashSafe(d, e.name, e.data, e.stop);
    var o := WriteFile(d, e.name, e.data, e.stop);
    var before, after := Recovered(disk), Recovered(o.dev.disk);
    if Absent(before, e.name) && 0 < |e.name| && Written(before, after, e.name, e.data) {
      WrittenName(before, after, e.name, e.data);
      AfterWritten(before, after, e.name, e.data, name, cap);
    } else if OnlyReserved(before, after, |e.data|) {
      AfterReserve(before, after, |e.data|, name, cap);
    } else {
      HomeReads(before, after, name, cap);
    }
    if o.rc == Ok { OkMeansNamed(d, e.name, e.data, e.stop); }
  }

  lemma {:induction false} OkMeansNamed(d: Device, name: seq<byte>, data: seq<byte>, stop: bool)
    requires WriteFile(d, name, data, stop).rc == Ok
    ensures 0 < |name|
  {
    hide WriteMounted, Mount;
  }

  /** One event changes at most one name, from absent to complete, and does so if it reports success. */
  lemma {:induction false} PerformSafe(disk: Disk, e: Event, name: seq<byte>, cap: nat)
    requires Consistent(disk) && ValidEvent(e) && CString(name)
    ensures var o := Perform(disk, e);
            && Consistent(o.dev.disk)
            && (Contents(o.dev.disk, name, cap) == Contents(disk, name, cap)
                || (e.WriteEvent? && e.name == name && Contents(disk, name, cap) == ReadErr(NoEnt)
                    && Contents(o.dev.disk, name, cap) == Whole(e.data, cap)))
            && (e.WriteEvent? && o.rc == Ok && e.name == name ==> Contents(o.dev.disk, name, cap) == Whole(e.data, cap))
  {
    hide Consistent, Contents, Mount, WriteFile;
    match e
    case MountEvent(fuel) => MountSafe(disk, fuel, name, cap);
    case WriteEvent(n, data, stop, fuel) => WriteSafe(disk, e, name, cap);
  }

  lemma {:induction false} WrittenName(before: Disk, after: Disk, name: seq<byte>, data: seq<byte>)
    requires Written(before, after, name, data)
    ensures |name| < MAX_NAME
  {
  }

  /** Every state of every history is consistent: it mounts, and fsck reports no error. */
  lemma {:induction false} RunConsistent(disk: Disk, es: seq<Event>)
    requires Consistent(disk) && forall i :: 0 <= i < |es| ==> ValidEvent(es[i])
    ensures Consistent(Run(disk, es))
    ensures Mount(Device(Run(disk, es), -1, 0)).rc == Ok && FsckMounted(Recovered(Run(disk, es))) == Ok
    decreases |es|
  {
    hide Consistent, Perform, FsckMounted, Mount;
    if es != [] {
      RunConsistent(disk, es[..|es| - 1]);
      PerformSafe(Run(disk, es[..|es| - 1]), es[|es| - 1], [], 0);
    }
    ConsistentMounts(Run(disk, es));
  }

  lemma {:induction false} ConsistentMounts(disk: Disk)
    requires Consistent(disk)
    ensures Mount(Device(disk, -1, 0)).rc == Ok && FsckMounted(Recovered(disk)) == Ok
    ensures Mount(Device(disk, -1, 0)).dev.disk == Recovered(disk)
  {
    hide FsOk, FsckMounted, Recover;
    RecoverCut(Device(disk, -1, 0));
    FsOkSuper(Recovered(disk));
    FsOkPassesFsck(Recovered(disk));
  }

  /** A file that reads back once reads back unchanged for the rest of every history. */
  lemma {:induction false} FilesPersist(disk: Disk, es: seq<Event>, name: seq<byte>, cap: nat)
    requires Consistent(disk) && CString(name) && Contents(disk, name, cap).ReadOk?
    requires forall i :: 0 <= i < |es| ==> ValidEvent(es[i])
    ensures Contents(Run(disk, es), name, cap) == Contents(disk, name, cap)
    decreases |es|
  {
    hide Consistent, Perform, Contents;
    if es != [] {
      var init := es[..|es| - 1];
      FilesPersist(disk, init, name, cap);
      RunConsistent(disk, init);
      PerformSafe(Run(disk, init), es[|es| - 1], name, cap);
    }
  }

  lemma {:induction false} RunConcat(disk: Disk, a: seq<Event>, b: seq<Event>)
    ensures Run(disk, a + b) == Run(Run(disk, a), b)
    decreases |b|
  {
    hide Perform;
    if b == [] {
      assert a + b == a;
    } else {
      RunConcat(disk, a, b[..|b| - 1]);
      assert (a + b)[..|a + b| - 1] == a + b[..|b| - 1];
    }
  }

  /** A write that reported success survives whatever happens afterwards. */
  lemma {:induction false} AcknowledgedWritesSurvive(disk: Disk, before: seq<Event>, e: Event, after: seq<Event>)
    requires Consistent(disk) && e.WriteEvent?
    requires forall i :: 0 <= i < |before + [e] + after| ==> ValidEvent((before + [e] + after)[i])
    requires Perform(Run(disk, before), e).rc == Ok
    ensures forall cap: nat :: |e.data| <= cap ==>
            Contents(Run(disk, before + [e] + after), e.name, cap) == ReadOk(e.data)
  {
    hide Consistent, Perform, Contents;
    var all := before + [e] + after;
    forall i | 0 <= i < |before| ensures ValidEvent(before[i]) { assert all[i] == before[i]; }
    forall i | 0 <= i < |after| ensures ValidEvent(after[i]) { assert all[|before| + 1 + i] == after[i]; }
    assert all[|before|] == e;
    RunConsistent(disk, before);
    RunConcat(disk, before + [e], after);
    assert (before + [e])[..|before|] == before;
    var now := Run(disk, before + [e]);
    forall cap: nat | |e.data| <= cap ensures Contents(Run(now, after), e.name, cap) == ReadOk(e.data) {
      PerformSafe(Run(disk, before), e, e.name, cap);
      FilesPersist(now, after, e.name, cap);
    }
  }

  /** No history invents or tears data: what a name reads was there before or was given whole to some write of it. */
  lemma {:induction false} NothingFromNowhere(disk: Disk, es: seq<Event>, name: seq<byte>, cap: nat)
    requires Consistent(disk) && CString(name)
    requires forall i :: 0 <= i < |es| ==> ValidEvent(es[i])
    ensures var c := Contents(Run(disk, es), name, cap);
            || c == Contents(disk, name, cap)
            || exists i :: 0 <= i < |es| && es[i].WriteEvent? && es[i].name == name
                           && c == Whole(es[i].data, cap)
    decreases |es|
  {
    hide Consistent, Perform, Contents;
    if es != [] {
      var init := es[..|es| - 1];
      NothingFromNowhere(disk, init, name, cap);
      RunConsistent(disk, init);
      PerformSafe(Run(disk, init), es[|es| - 1], name, cap);
      if i :| 0 <= i < |init| && init[i].WriteEvent? && init[i].name == name
              && Contents(Run(disk, init), name, cap) == Whole(init[i].data, cap) {
        assert es[i] == init[i];
      }
    }
  }

  /**
   From a completed format, after any history of writes, mounts and power losses: the disk
   mounts and passes fsck; recovering it may be interrupted any number of times; a name reads
   as absent or as what some write of it was given, whole; and a write that was acknowledged
   reads back.
   */
  lemma {:induction false} FormattedHistory(d: Device, es: seq<Event>, name: seq<byte>, cap: nat, fuels: seq<int>)
    requires Format(d).rc == Ok && CString(name) && forall i :: 0 <= i < |es| ==> ValidEvent(es[i])
    ensures var disk := Run(Format(d).dev.disk, es);
            && Mount(Device(disk, -1, 0)).rc == Ok && FsckMounted(Recovered(disk)) == Ok
            && Sound(disk) && SameHome(Recovered(RecoverMany(disk, fuels)), Recovered(disk))
    ensures var c := Contents(Run(Format(d).dev.disk, es), name, cap);
            || c == ReadErr(NoEnt)
            || exists i :: 0 <= i < |es| && es[i].WriteEvent? && es[i].name == name && c == Whole(es[i].data, cap)
    ensures var start := Format(d).dev.disk;
            forall i :: 0 <= i < |es| && Acknowledged(start, es, i) && es[i].name == name && |es[i].data| <= cap ==>
                          Contents(Run(start, es), name, cap) == ReadOk(es[i].data)
  {
    hide Perform, Contents, Run, Format, FsOk, Recover, PlanOf, FsckMounted, Mount, Sound;
    var start := Format(d).dev.disk;
    FormatOk(d, name, cap);
    RunConsistent(start, es);
    RecoveryIdempotent(Run(start, es), fuels);
    NothingFromNowhere(start, es, name, cap);
    assert Contents(start, name, cap) == ReadErr(NoEnt) by { ContentsIs(start, name, cap); }
    forall i | 0 <= i < |es| && Acknowledged(start, es, i) && es[i].name == name && |es[i].data| <= cap
      ensures Contents(Run(start, es), name, cap) == ReadOk(es[i].data)
    {
      assert es == es[..i] + [es[i]] + es[i + 1..];
      AcknowledgedWritesSurvive(start, es[..i], es[i], es[i + 1..]);
    }
  }

  /** Event i of the history is a write that returned OK. */
  predicate Acknowledged(disk: Disk, es: seq<Event>, i: nat)
    requires i < |es|
  {
    es[i].WriteEvent? && Perform(Run(disk, es[..i]), es[i]).rc == Ok
  }

  /** m16_read_file on a consistent disk, once its mount succeeds, delivers the contents and never overruns. */
  lemma {:induction false} ReadGivesContents(d: Device, name: seq<byte>, cap: nat)
    requires Consistent(d.disk) && CString(name) && Mount(d).rc == Ok
    ensures ReadMounted(Mount(d).dev.disk, name, cap) == Contents(d.disk, name, cap)
    ensures Contents(d.disk, name, cap) != ReadOverrun
  {
    hide Recover, ReadMounted, FsOk, PlanOf, Sound;
    RecoverCut(d);
    var disk := Recovered(d.disk);
    NoOverrun(disk, name, cap);
  }

  lemma {:induction false} NoOverrun(disk: Disk, name: seq<byte>, cap: nat)
    requires FsOk(disk)
    ensures ReadMounted(disk, name, cap) != ReadOverrun
  {
    hide Field, BitOf, StrEq, SuperOk, RootOk, SystemBlocksMarked;
    var slot := FindSlot(disk[ROOT_DIR], name, 0);
    if slot < DIRENTS { assert SlotOk(disk, slot); }
  }

  lemma {:induction false} ContentsIs(disk: Disk, name: seq<byte>, cap: nat)
    ensures Contents(disk, name, cap) == ReadMounted(Recovered(disk), name, cap)
  {
  }
}
