/**
 Crash behaviour of the journal: a commit cut at any write is all or nothing after
 recovery, and recovery may itself be cut any number of times.
 */
module JournalCrash {
  import opened Bytes
  import opened Journal

  predicate SameHome(a: Disk, b: Disk) {
    forall lba :: 0 <= lba < 128 && !InJournal(lba) ==> a[lba] == b[lba]
  }

  predicate SameJournal(a: Disk, b: Disk) {
    forall lba :: 1 <= lba <= 17 ==> a[lba] == b[lba]
  }

  /** Valid targets outside LBAs 1..17. */
  predicate Outside(recs: seq<Rec>) {
    forall i :: 0 <= i < |recs| ==> recs[i].lba < 128 && !InJournal(recs[i].lba)
  }

  // ---------- what recovery will do, read off the disk in one look ----------

  function RecAt(disk: Disk, i: nat): Rec
    requires i < MAX_RECORDS
  {
    Rec(Field(disk[2 + 2 * i], 8, 4), disk[3 + 2 * i])
  }

  /** The first n records up to the first invalid one. */
  function ValidLog(disk: Disk, n: nat): (recs: seq<Rec>)
    requires n <= MAX_RECORDS
    ensures |recs| <= n && InRange(recs)
  {
    if n == 0 then []
    else
      var recs := ValidLog(disk, n - 1);
      if |recs| == n - 1 && DescValid(disk[2 * n], disk[1 + 2 * n]) then recs + [RecAt(disk, n - 1)]
      else recs
  }

  datatype Plan = Nothing | Refuse | Replay(recs: seq<Rec>, complete: bool)

  function PlanOf(disk: Disk): (p: Plan)
    ensures p.Replay? ==> |p.recs| <= MAX_RECORDS && InRange(p.recs)
  {
    var h := disk[JOURNAL_START];
    if HeaderEmpty(h) then Nothing
    else if !HeaderCommitted(h) then Refuse
    else
      var n := Field(h, 20, 4);
      var recs := ValidLog(disk, n);
      Replay(recs, |recs| == n)
  }

  function PlanWrites(p: Plan): seq<Rec> {
    if !p.Replay? then [] else p.recs + if p.complete then [ClearWrite()] else []
  }

  function PlanRc(p: Plan): Rc {
    if p.Refuse? || (p.Replay? && !p.complete) then Corrupt else Ok
  }

  /** The logged records all go outside the journal, as those of every m16 transaction do. */
  predicate Sound(disk: Disk) {
    PlanOf(disk).Replay? ==> Outside(PlanOf(disk).recs)
  }

  lemma {:induction false} ValidLogAt(disk: Disk, n: nat, i: nat)
    requires n <= MAX_RECORDS && i < n
    ensures i < |ValidLog(disk, n)| ==>
            ValidLog(disk, n)[i] == RecAt(disk, i) && DescValid(disk[2 + 2 * i], disk[3 + 2 * i])
    ensures i == |ValidLog(disk, n)| ==> !DescValid(disk[2 + 2 * i], disk[3 + 2 * i])
  {
    if i < n - 1 {
      ValidLogAt(disk, n - 1, i);
    }
  }

  lemma {:induction false} ValidLogSame(a: Disk, b: Disk, n: nat)
    requires n <= MAX_RECORDS && SameJournal(a, b)
    ensures ValidLog(a, n) == ValidLog(b, n)
  {
    if n > 0 {
      ValidLogSame(a, b, n - 1);
    }
  }

  lemma {:induction false} PlanSame(a: Disk, b: Disk)
    requires SameJournal(a, b)
    ensures PlanOf(a) == PlanOf(b)
  {
    var h := a[JOURNAL_START];
    if HeaderCommitted(h) {
      ValidLogSame(a, b, Field(h, 20, 4));
    }
  }

  lemma {:induction false} ApplyOutside(disk: Disk, ws: seq<Rec>)
    requires Outside(ws)
    ensures SameJournal(Apply(disk, ws), disk)
  {
    if ws != [] {
      ApplyOutside(disk, ws[..|ws| - 1]);
    }
  }

  lemma {:induction false} ApplySameHome(a: Disk, b: Disk, ws: seq<Rec>)
    requires SameHome(a, b)
    ensures SameHome(Apply(a, ws), Apply(b, ws))
  {
    if ws != [] {
      ApplySameHome(a, b, ws[..|ws| - 1]);
    }
  }

  lemma {:induction false} ApplyInside(disk: Disk, ws: seq<Rec>)
    requires forall i :: 0 <= i < |ws| ==> InJournal(ws[i].lba)
    ensures SameHome(Apply(disk, ws), disk)
  {
    if ws != [] {
      ApplyInside(disk, ws[..|ws| - 1]);
    }
  }

  /** The replay loop, which reads the disk as it rewrites it, performs the planned list. */
  lemma {:induction false} ReplayIsRun(start: Disk, d: Device, i: nat, n: nat)
    requires n <= MAX_RECORDS && Outside(ValidLog(start, n)) && i <= |ValidLog(start, n)|
    requires SameJournal(d.disk, start)
    ensures var recs := ValidLog(start, n);
            var complete := |recs| == n;
            var o := RunWrites(d, recs[i..] + if complete then [ClearWrite()] else []);
            ReplayFrom(d, i, n) == if o.rc == Ok && !complete then Outcome(o.dev, Corrupt) else o
    decreases n - i
  {
    hide DescValid, Field, ZeroBlock, RunWrites, ValidLog;
    var recs := ValidLog(start, n);
    var tail := if |recs| == n then [ClearWrite()] else [];
    if i == n {
      assert recs[i..] + tail == [ClearWrite()] + [];
      RunWritesCons(d, ClearWrite(), []);
      EmptyRun(WriteBlock(d, JOURNAL_START, ZeroBlock()).dev);
    } else {
      ValidLogAt(start, n, i);
      if i == |recs| {
        assert recs[i..] + tail == [];
        EmptyRun(d);
      } else {
        assert recs[i..] + tail == [recs[i]] + (recs[i + 1..] + tail);
        RunWritesCons(d, recs[i], recs[i + 1..] + tail);
        var o := WriteBlock(d, recs[i].lba, recs[i].data);
        if o.rc == Ok {
          ReplayIsRun(start, o.dev, i + 1, n);
        }
      }
    }
  }

  lemma {:induction false} EmptyRun(d: Device)
    ensures RunWrites(d, []) == Outcome(d, Ok)
  {
  }

  /** Recovery performs exactly the plan. */
  lemma {:induction false} RecoverIsPlan(d: Device)
    requires Sound(d.disk)
    ensures var p := PlanOf(d.disk);
            var o := RunWrites(d, PlanWrites(p));
            Recover(d) == if o.rc == Ok then Outcome(o.dev, PlanRc(p)) else o
  {
    var h := d.disk[JOURNAL_START];
    if !HeaderEmpty(h) && HeaderCommitted(h) {
      var recs := PlanOf(d.disk).recs;
      ReplayIsRun(d.disk, d, 0, Field(h, 20, 4));
      assert recs[0..] == recs;
    }
  }

  /** What an uninterrupted recovery leaves. */
  function Recovered(disk: Disk): Disk {
    Recover(Device(disk, -1, 0)).dev.disk
  }

  lemma {:induction false} RecoveredIs(disk: Disk)
    requires Sound(disk)
    ensures Recovered(disk) == Apply(disk, PlanWrites(PlanOf(disk)))
    ensures Recover(Device(disk, -1, 0)).rc == PlanRc(PlanOf(disk))
  {
    var d := Device(disk, -1, 0);
    var ws := PlanWrites(PlanOf(disk));
    RecoverIsPlan(d);
    InRangePrefix(d, ws);
    assert ws[..|ws|] == ws;
  }

  /** A recovery cut after any number of writes still recovers to the same home blocks and code. */
  lemma {:induction false} RecoverCut(d: Device)
    requires Sound(d.disk)
    ensures var d1 := Recover(d).dev.disk;
            && Sound(d1)
            && SameHome(Recovered(d1), Recovered(d.disk))
            && PlanRc(PlanOf(d1)) == PlanRc(PlanOf(d.disk))
    ensures Recover(d).rc == Ok ==>
            HeaderEmpty(Recover(d).dev.disk[JOURNAL_START]) && Recover(d).dev.disk == Recovered(d.disk)
    ensures Recover(d).rc in {Ok, Io, Corrupt} && (Recover(d).rc == Corrupt ==> PlanRc(PlanOf(d.disk)) == Corrupt)
    ensures Recover(d).rc == Ok ==> PlanRc(PlanOf(d.disk)) == Ok
    ensures d.fuel < 0 ==> Recover(d).dev.fuel == d.fuel && Recover(d).rc == PlanRc(PlanOf(d.disk))
  {
    hide Recover, RunWrites, Apply, PlanOf, HeaderEmpty;
    var p := PlanOf(d.disk);
    var ws := PlanWrites(p);
    var k := Performed(d.fuel, |ws|);
    RecoverIsPlan(d);
    InRangePrefix(d, ws);
    RecoveredIs(d.disk);
    if p.Replay? && (k < |ws| || !p.complete) {
      assert ws[..k] == p.recs[..k];
      PrefixReplans(d.disk, p, k);
    } else if p.Replay? {
      assert ws[..k] == ws;
      FullReplay(d.disk, p, k);
    } else {
      assert ws[..k] == [] == ws;
      NoReplay(d.disk);
    }
  }

  /** Nothing to replay: recovery changes nothing, and succeeds only on an empty header. */
  lemma {:induction false} NoReplay(disk: Disk)
    requires !PlanOf(disk).Replay?
    ensures Apply(disk, []) == disk
    ensures PlanRc(PlanOf(disk)) == Ok ==> HeaderEmpty(disk[JOURNAL_START])
  {
    hide Field;
  }

  /** With any prefix of its records applied the disk still plans, and recovers to, the same. */
  lemma {:induction false} PrefixReplans(disk: Disk, p: Plan, k: nat)
    requires p == PlanOf(disk) && p.Replay? && k <= |p.recs| && Outside(p.recs)
    ensures var d1 := Apply(disk, p.recs[..k]);
            PlanOf(d1) == p && Sound(d1) && SameHome(Recovered(d1), Apply(disk, PlanWrites(p)))
  {
    hide Apply, PlanOf, Recover;
    var d1 := Apply(disk, p.recs[..k]);
    ApplyOutside(disk, p.recs[..k]);
    PlanSame(d1, disk);
    RecoveredIs(d1);
    PrefixThenPlan(disk, p, k);
  }

  lemma {:induction false} PrefixThenPlan(disk: Disk, p: Plan, k: nat)
    requires p.Replay? && k <= |p.recs| && Outside(p.recs)
    ensures SameHome(Apply(Apply(disk, p.recs[..k]), PlanWrites(p)), Apply(disk, PlanWrites(p)))
  {
    var part := Apply(disk, p.recs[..k]);
    ApplyAbsorbsPrefix(disk, p.recs, k);
    if p.complete {
      ApplyConcat(part, p.recs, [ClearWrite()]);
      ApplyConcat(disk, p.recs, [ClearWrite()]);
    } else {
      assert PlanWrites(p) == p.recs;
    }
  }

  lemma {:induction false} FullReplay(disk: Disk, p: Plan, k: nat)
    requires p.Replay? && p.complete && k == |p.recs| + 1
    ensures Sound(Apply(disk, PlanWrites(p))) && PlanRc(PlanOf(Apply(disk, PlanWrites(p)))) == Ok
    ensures var ws := PlanWrites(p);
            var d1 := Apply(disk, ws[..k]);
            && d1 == Apply(disk, ws)
            && HeaderEmpty(d1[JOURNAL_START]) && PlanOf(d1) == Nothing && Recovered(d1) == d1
  {
    var ws := PlanWrites(p);
    assert ws[..k] == ws == p.recs + [ClearWrite()];
    ApplySnoc(disk, p.recs, ClearWrite());
    ZeroHeaderEmpty();
  }

  /** Recover once per entry of `fuels`, each run with that write budget. */
  function RecoverMany(disk: Disk, fuels: seq<int>): Disk
    decreases |fuels|
  {
    if fuels == [] then disk
    else RecoverMany(Recover(Device(disk, fuels[0], 0)).dev.disk, fuels[1..])
  }

  /** Any number of interrupted recoveries followed by a full one equal a single full one. */
  lemma {:induction false} RecoveryIdempotent(disk: Disk, fuels: seq<int>)
    requires Sound(disk)
    ensures Sound(RecoverMany(disk, fuels))
    ensures SameHome(Recovered(RecoverMany(disk, fuels)), Recovered(disk))
    ensures Recover(Device(RecoverMany(disk, fuels), -1, 0)).rc == Recover(Device(disk, -1, 0)).rc
    decreases |fuels|
  {
    if fuels == [] {
    } else {
      var d := Device(disk, fuels[0], 0);
      RecoverCut(d);
      var d1 := Recover(d).dev.disk;
      RecoveryIdempotent(d1, fuels[1..]);
      RecoveredIs(disk);
      RecoveredIs(d1);
    }
  }

  /** A log whose first record overwrites the header itself; no m16 transaction writes one. */
  function SelfErasingLog(p: Block): Disk {
    var blank := seq<Block>(128, i => ZeroBlock());
    blank[1 := CommitHeader(0, 2)][2 := DescBlock(ClearWrite())][4 := DescBlock(Rec(30, p))][5 := p]
  }

  /** Soundness is needed: replaying the self-erasing log, cut after one write, loses its second record. */
  lemma {:induction false} UnsoundLogNotIdempotent(p: Block)
    requires p != ZeroBlock()
    ensures var disk := SelfErasingLog(p);
            !SameHome(Recovered(RecoverMany(disk, [1])), Recovered(disk))
  {
    hide Field, CommitHeader, DescBlock, ZeroBlock, Checksum;
    var disk := SelfErasingLog(p);
    var h := disk[JOURNAL_START];
    CommitHeaderReadsBack(0, 2);
    DescReadsBack(ClearWrite());
    DescReadsBack(Rec(30, p));
    ZeroHeaderEmpty();
    assert disk[3] == ZeroBlock() && disk[30] == ZeroBlock();
    var cut := Device(disk, 1, 0);
    var c1 := WriteBlock(cut, 1, ZeroBlock()).dev;
    assert DescValid(c1.disk[4], c1.disk[5]);
    assert ReplayFrom(c1, 1, 2) == Outcome(c1, Io);
    assert Recover(cut) == ReplayFrom(cut, 0, 2) == Outcome(c1, Io);
    assert RecoverMany(disk, [1]) == c1.disk;
    assert Recovered(c1.disk)[30] == ZeroBlock();
    var full := Device(disk, -1, 0);
    var f1 := WriteBlock(full, 1, ZeroBlock()).dev;
    var f2 := WriteBlock(f1, 30, p).dev;
    assert ReplayFrom(f2, 2, 2).dev.disk[30] == p;
    assert ReplayFrom(f1, 1, 2) == ReplayFrom(f2, 2, 2);
    assert Recover(full) == ReplayFrom(full, 0, 2) == ReplayFrom(f1, 1, 2);
    assert Recovered(disk)[30] == p;
    assert !InJournal(30);
  }

  // ---------- commit ----------

  /** How many writes a commit makes before its header is on disk, that one included. */
  function CommitPoint(n: nat): nat { 2 * n + 2 }

  /** How many block writes a whole commit of n records makes. */
  function CommitCost(n: nat, stop: bool): nat { if stop then 2 * n + 2 else 3 * n + 3 }

  predicate Committed(fuel: int, n: nat) {
    fuel < 0 || fuel >= CommitPoint(n)
  }

  lemma {:induction false} LogWritesInside(recs: seq<Rec>)
    requires |recs| <= MAX_RECORDS
    ensures forall i :: 0 <= i < |LogWrites(recs)| ==> 2 <= LogWrites(recs)[i].lba < 2 + 2 * |recs|
  {
    if recs != [] {
      LogWritesInside(recs[..|recs| - 1]);
    }
  }

  /** The journal region spells out `recs`. */
  predicate Logged(disk: Disk, recs: seq<Rec>) {
    && |recs| <= MAX_RECORDS
    && forall i :: 0 <= i < |recs| ==> disk[2 + 2 * i] == DescBlock(recs[i]) && disk[3 + 2 * i] == recs[i].data
  }

  lemma {:induction false} LogWritesLog(disk: Disk, recs: seq<Rec>)
    requires |recs| <= MAX_RECORDS
    ensures Logged(Apply(disk, LogWrites(recs)), recs)
  {
    hide ZeroBlock, DescBlock, Apply;
    if recs != [] {
      var n := |recs| - 1;
      var init := recs[..n];
      LogWritesLog(disk, init);
      var ws := LogWrites(init);
      var a, b := Rec(2 + 2 * n, DescBlock(recs[n])), Rec(3 + 2 * n, recs[n].data);
      assert LogWrites(recs) == (ws + [a]) + [b];
      ApplySnoc(disk, ws, a);
      ApplySnoc(disk, ws + [a], b);
    }
  }

  lemma {:induction false} LoggedReads(disk: Disk, recs: seq<Rec>, n: nat)
    requires Logged(disk, recs) && Outside(recs) && n <= |recs|
    ensures ValidLog(disk, n) == recs[..n]
  {
    hide Field, Checksum, ZeroBlock, DescBlock;
    if n > 0 {
      LoggedReads(disk, recs, n - 1);
      DescReadsBack(recs[n - 1]);
      assert recs[..n] == recs[..n - 1] + [recs[n - 1]];
    }
  }

  /** A disk with the records and a commit header plans to replay exactly those records. */
  lemma {:induction false} CommittedPlan(disk: Disk, recs: seq<Rec>, sequence: nat)
    requires Logged(disk, recs) && Outside(recs)
    requires disk[JOURNAL_START] == CommitHeader(sequence, |recs|)
    ensures PlanOf(disk) == Replay(recs, true)
  {
    CommitHeaderReadsBack(sequence, |recs|);
    LoggedReads(disk, recs, |recs|);
    assert recs[..|recs|] == recs;
  }

  /** Before its header is on disk a commit has touched only the journal and left the header empty. */
  lemma {:induction false} CommitBefore(disk: Disk, recs: seq<Rec>, sequence: nat, stop: bool, k: nat)
    requires HeaderEmpty(disk[JOURNAL_START]) && |recs| <= MAX_RECORDS
    requires k < CommitPoint(|recs|)
    ensures var d1 := Apply(disk, CommitWrites(recs, sequence, stop)[..k]);
            SameHome(d1, disk) && HeaderEmpty(d1[JOURNAL_START])
  {
    hide Field, Checksum, ZeroBlock, DescBlock, CommitHeader, Apply, LogWrites, HeaderEmpty;
    var log := LogWrites(recs);
    var ws := CommitWrites(recs, sequence, stop);
    LogWritesInside(recs);
    var pre := [ClearWrite()] + log;
    assert pre <= ws;
    assert ws[..k] == pre[..k];
    ApplyInside(disk, pre[..k]);
    if k > 0 {
      assert pre[..k] == [ClearWrite()] + log[..k - 1];
      ApplyConcat(disk, [ClearWrite()], log[..k - 1]);
      assert [ClearWrite()] == [] + [ClearWrite()];
      ApplySnoc(disk, [], ClearWrite());
      var mid := Apply(disk, [ClearWrite()]);
      ApplyAt(mid, mid, log[..k - 1], JOURNAL_START);
      ZeroHeaderEmpty();
    } else {
      ApplyNothing(disk);
    }
  }

  lemma {:induction false} ApplyNothing(disk: Disk)
    ensures Apply(disk, []) == disk
  {
  }

  lemma {:induction false} CommitAtPoint(disk: Disk, recs: seq<Rec>, sequence: nat)
    requires |recs| <= MAX_RECORDS && Outside(recs)
    ensures var d1 := Apply(disk, CommitHead(recs, sequence));
            SameHome(d1, disk) && PlanOf(d1) == Replay(recs, true)
  {
    hide Field, Checksum, ZeroBlock, DescBlock, CommitHeader;
    var log := LogWrites(recs);
    var hdr := Rec(JOURNAL_START, CommitHeader(sequence, |recs|));
    var pre := [ClearWrite()] + log;
    LogWritesInside(recs);
    ApplyInside(disk, pre + [hdr]);
    ApplyConcat(disk, [ClearWrite()], log);
    LogWritesLog(Apply(disk, [ClearWrite()]), recs);
    ApplySnoc(disk, pre, hdr);
    CommittedPlan(Apply(disk, pre + [hdr]), recs, sequence);
  }

  /** With its header on disk and any prefix applied, the disk still recovers to all records applied. */
  lemma {:induction false} CommitMidway(disk: Disk, recs: seq<Rec>, sequence: nat, j: nat)
    requires |recs| <= MAX_RECORDS && Outside(recs) && j <= |recs|
    ensures var d1 := Apply(disk, CommitHead(recs, sequence) + recs[..j]);
            && Sound(d1)
            && PlanRc(PlanOf(d1)) == Ok
            && SameHome(Recovered(d1), Apply(disk, recs))
  {
    hide CommitHead, HeaderEmpty, HeaderCommitted, DescValid, ZeroBlock, Recover;
    var head := CommitHead(recs, sequence);
    var d0 := Apply(disk, head);
    var d1 := Apply(d0, recs[..j]);
    var p := Replay(recs, true);
    CommitAtPoint(disk, recs, sequence);
    ApplyConcat(disk, head, recs[..j]);
    ApplyOutside(d0, recs[..j]);
    PlanSame(d1, d0);
    RecoveredIs(d1);
    PrefixThenPlan(d0, p, j);
    ApplySameHome(d0, disk, recs);
    ApplySnoc(d0, recs, ClearWrite());
  }

  /** From its header on, a commit cut anywhere recovers to all records applied. */
  lemma {:induction false} CommitAfter(disk: Disk, recs: seq<Rec>, sequence: nat, stop: bool, k: nat)
    requires |recs| <= MAX_RECORDS && Outside(recs)
    requires CommitPoint(|recs|) <= k <= |CommitWrites(recs, sequence, stop)|
    ensures var d1 := Apply(disk, CommitWrites(recs, sequence, stop)[..k]);
            && Sound(d1)
            && PlanRc(PlanOf(d1)) == Ok
            && SameHome(Recovered(d1), Apply(disk, recs))
  {
    hide CommitHead, HeaderCommitted, DescValid, ZeroBlock, Apply;
    var ws := CommitWrites(recs, sequence, stop);
    var head := CommitHead(recs, sequence);
    var j := k - |head|;
    if j <= |recs| {
      assert ws[..k] == head + recs[..j];
      CommitMidway(disk, recs, sequence, j);
    } else {
      assert ws[..k] == CommitWrites(recs, sequence, false);
      CommitDone(disk, recs, sequence);
    }
  }

  /** A finished commit has applied everything and emptied its header. */
  lemma {:induction false} CommitDone(disk: Disk, recs: seq<Rec>, sequence: nat)
    requires |recs| <= MAX_RECORDS && Outside(recs)
    ensures var d1 := Apply(disk, CommitWrites(recs, sequence, false));
            HeaderEmpty(d1[JOURNAL_START]) && SameHome(d1, Apply(disk, recs))
  {
    hide CommitHead, HeaderEmpty, HeaderCommitted, DescValid, ZeroBlock;
    var head := CommitHead(recs, sequence);
    var d0 := Apply(disk, head);
    assert CommitWrites(recs, sequence, false) == head + (recs + [ClearWrite()]);
    ApplyConcat(disk, head, recs + [ClearWrite()]);
    CommitAtPoint(disk, recs, sequence);
    ApplySameHome(d0, disk, recs);
    ApplySnoc(d0, recs, ClearWrite());
    ZeroHeaderEmpty();
  }

  /**
   Journal atomicity. From an empty header, a commit of at most 8 records with targets
   outside LBAs 1..17, cut by any write budget, recovers without error to exactly the old
   home blocks or exactly the old ones with every record applied in order, the latter if
   and only if the commit header was written.
   */
  lemma {:induction false} CommitAtomic(d: Device, recs: seq<Rec>, sequence: nat, stop: bool)
    requires HeaderEmpty(d.disk[JOURNAL_START]) && |recs| <= MAX_RECORDS && Outside(recs)
    ensures var o := Commit(d, recs, sequence, stop);
            && Sound(o.dev.disk)
            && Recover(Device(o.dev.disk, -1, 0)).rc == Ok
            && SameHome(Recovered(o.dev.disk), if Committed(d.fuel, |recs|) then Apply(d.disk, recs) else d.disk)
            && o.rc == (if d.fuel < 0 || d.fuel >= CommitCost(|recs|, stop) then Ok else Io)
            && o.dev.fuel == (if d.fuel < 0 then d.fuel else d.fuel - Performed(d.fuel, CommitCost(|recs|, stop)))
            && (o.rc == Ok ==> Committed(d.fuel, |recs|))
            && (o.rc == Ok && !stop ==>
                  HeaderEmpty(o.dev.disk[JOURNAL_START]) && SameHome(o.dev.disk, Apply(d.disk, recs)))
            && (d.fuel < 0 ==> o.rc == Ok && o.dev.fuel == d.fuel)
  {
    hide Field, Checksum, ZeroBlock, DescBlock, CommitHeader;
    var ws := CommitWrites(recs, sequence, stop);
    var k := Performed(d.fuel, |ws|);
    LogWritesInside(recs);
    InRangePrefix(d, ws);
    var d1 := Apply(d.disk, ws[..k]);
    if k < CommitPoint(|recs|) {
      CommitBefore(d.disk, recs, sequence, stop, k);
    } else {
      CommitAfter(d.disk, recs, sequence, stop, k);
      if k == |ws| && !stop {
        CommitDone(d.disk, recs, sequence);
        assert ws[..k] == ws;
      }
    }
    RecoveredIs(d1);
  }
}
