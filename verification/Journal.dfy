/**
 The MCSFS1J write-ahead journal (kernel/fs/mcsfs1j/m16_mcsfs_journal.c) as pure
 functions of a device value. Every state change of the C code is a sequence of
 single-block writes, and power loss is a write budget that runs out, so a commit
 cut anywhere is a prefix of one write list.
 */
module Journal {
  import opened Bytes

  const JOURNAL_START: nat := 1
  const MAX_RECORDS: nat := 8
  /** 0x4d43534a524e4c31 */
  const JMAGIC: nat := 0x4d43534a524e4c31
  const VERSION: nat := 1
  const J_EMPTY: nat := 0
  const J_COMMITTED: nat := 2

  datatype Rc = Ok | Inval | Io | NoSpc | Exists | NoEnt | Corrupt | TooLong

  type Disk = d: seq<Block> | |d| == 128 witness seq<Block>(128, i => ZeroBlock())

  /** fuel is fail_after: negative means unlimited, otherwise the writes still allowed. */
  datatype Device = Device(disk: Disk, fuel: int, writes: nat)

  datatype Outcome = Outcome(dev: Device, rc: Rc)

  /** A block and where it goes: a single write, and also one journal record. */
  datatype Rec = Rec(lba: nat, data: Block)

  // ---------- single writes and write lists ----------

  function WriteBlock(d: Device, lba: nat, b: Block): Outcome {
    if lba >= 128 then Outcome(d, Inval)
    else if d.fuel == 0 then Outcome(d, Io)
    else Outcome(Device(d.disk[lba := b],
                        if d.fuel > 0 then d.fuel - 1 else d.fuel,
                        (d.writes + 1) % 0x1_0000_0000_0000_0000), Ok)
  }

  /** Performs the writes in order and stops at the first one refused. */
  function RunWrites(d: Device, ws: seq<Rec>): Outcome {
    if ws == [] then Outcome(d, Ok)
    else
      var w := ws[|ws| - 1];
      var o := RunWrites(d, ws[..|ws| - 1]);
      if o.rc != Ok then o else WriteBlock(o.dev, w.lba, w.data)
  }

  /** The disk after all the writes. */
  function Apply(disk: Disk, ws: seq<Rec>): Disk {
    if ws == [] then disk
    else
      var w := ws[|ws| - 1];
      var d := Apply(disk, ws[..|ws| - 1]);
      if w.lba < 128 then d[w.lba := w.data] else d
  }

  predicate InRange(ws: seq<Rec>) {
    forall i :: 0 <= i < |ws| ==> ws[i].lba < 128
  }

  /** How many of n writes a device with this budget performs. */
  function Performed(fuel: int, n: nat): (k: nat)
    ensures k <= n
  {
    if fuel < 0 || fuel >= n then n else fuel
  }

  lemma {:induction false} RunWritesSnoc(d: Device, ws: seq<Rec>, w: Rec)
    ensures RunWrites(d, ws + [w]) ==
            var o := RunWrites(d, ws); if o.rc != Ok then o else WriteBlock(o.dev, w.lba, w.data)
  {
    assert (ws + [w])[..|ws|] == ws;
  }

  lemma {:induction false} ApplySnoc(disk: Disk, ws: seq<Rec>, w: Rec)
    ensures Apply(disk, ws + [w]) ==
            if w.lba < 128 then Apply(disk, ws)[w.lba := w.data] else Apply(disk, ws)
  {
    assert (ws + [w])[..|ws|] == ws;
  }

  lemma {:induction false} RunWritesConcat(d: Device, a: seq<Rec>, b: seq<Rec>)
    ensures RunWrites(d, a + b) ==
            var o := RunWrites(d, a); if o.rc != Ok then o else RunWrites(o.dev, b)
  {
    if b == [] {
      assert a + b == a;
    } else {
      var b0, w := b[..|b| - 1], b[|b| - 1];
      RunWritesConcat(d, a, b0);
      assert a + b == (a + b0) + [w];
      RunWritesSnoc(d, a + b0, w);
    }
  }

  lemma {:induction false} RunWritesCons(d: Device, w: Rec, rest: seq<Rec>)
    ensures RunWrites(d, [w] + rest) ==
            var o := WriteBlock(d, w.lba, w.data); if o.rc != Ok then o else RunWrites(o.dev, rest)
  {
    RunWritesConcat(d, [w], rest);
    assert [w] == [] + [w];
    RunWritesSnoc(d, [], w);
  }

  lemma {:induction false} ApplyConcat(disk: Disk, a: seq<Rec>, b: seq<Rec>)
    ensures Apply(disk, a + b) == Apply(Apply(disk, a), b)
  {
    if b == [] {
      assert a + b == a;
    } else {
      var b0, w := b[..|b| - 1], b[|b| - 1];
      ApplyConcat(disk, a, b0);
      assert a + b == (a + b0) + [w];
      ApplySnoc(disk, a + b0, w);
    }
  }

  /** How many writes come before the first one outside the device. */
  function Leading(ws: seq<Rec>): (m: nat)
    ensures m <= |ws| && (forall i :: 0 <= i < m ==> ws[i].lba < 128) && (m < |ws| ==> ws[m].lba >= 128)
  {
    if ws == [] then 0
    else
      var m := Leading(ws[..|ws| - 1]);
      if m == |ws| - 1 && ws[m].lba < 128 then |ws| else m
  }

  /**
   Power loss after any number of writes leaves exactly a prefix of the write list: up to the
   budget, with EIO, or up to the first block outside the device, with EINVAL.
   */
  lemma {:induction false} RunWritesIsPrefix(d: Device, ws: seq<Rec>)
    ensures var o, m := RunWrites(d, ws), Leading(ws);
            var k := Performed(d.fuel, m);
            && o.dev.disk == Apply(d.disk, ws[..k])
            && o.rc == (if k < m then Io else if m < |ws| then Inval else Ok)
            && o.dev.fuel == (if d.fuel < 0 then d.fuel else d.fuel - k)
  {
    if ws != [] {
      var init := ws[..|ws| - 1];
      RunWritesIsPrefix(d, init);
      var k, k0 := Performed(d.fuel, Leading(ws)), Performed(d.fuel, Leading(init));
      if k == |ws| {
        assert ws[..k] == ws;
        assert init[..k0] == init;
      } else {
        assert init[..k0] == ws[..k];
      }
    } else {
      assert ws[..0] == [];
    }
  }

  /** dev->writes counts the blocks written, modulo 2^64. */
  lemma {:induction false} WritesCounted(d: Device, ws: seq<Rec>)
    requires d.writes < 0x1_0000_0000_0000_0000
    ensures RunWrites(d, ws).dev.writes == (d.writes + Performed(d.fuel, Leading(ws))) % 0x1_0000_0000_0000_0000
  {
    hide Apply;
    if ws != [] {
      var init := ws[..|ws| - 1];
      WritesCounted(d, init);
      RunWritesIsPrefix(d, init);
      CountOne(d.writes, Performed(d.fuel, Leading(init)));
    }
  }

  lemma {:induction false} CountOne(a: nat, k: nat)
    ensures ((a + k) % 0x1_0000_0000_0000_0000 + 1) % 0x1_0000_0000_0000_0000 == (a + k + 1) % 0x1_0000_0000_0000_0000
  {
  }

  lemma {:induction false} InRangePrefix(d: Device, ws: seq<Rec>)
    requires InRange(ws)
    ensures var o := RunWrites(d, ws);
            var k := Performed(d.fuel, |ws|);
            && o.dev.disk == Apply(d.disk, ws[..k])
            && o.rc == (if k < |ws| then Io else Ok)
            && o.dev.fuel == (if d.fuel < 0 then d.fuel else d.fuel - k)
  {
    hide RunWrites, Apply, Leading;
    RunWritesIsPrefix(d, ws);
  }

  predicate Targets(ws: seq<Rec>, lba: nat) {
    exists i :: 0 <= i < |ws| && ws[i].lba == lba
  }

  /** A block that is not written keeps its value; one that is written does not depend on the old disk. */
  lemma {:induction false} ApplyAt(disk: Disk, other: Disk, ws: seq<Rec>, lba: nat)
    requires lba < 128
    ensures !Targets(ws, lba) ==> Apply(disk, ws)[lba] == disk[lba]
    ensures Targets(ws, lba) ==> Apply(disk, ws)[lba] == Apply(other, ws)[lba]
  {
    if ws != [] {
      var init, w := ws[..|ws| - 1], ws[|ws| - 1];
      ApplyAt(disk, other, init, lba);
      if w.lba != lba && Targets(ws, lba) {
        var i :| 0 <= i < |ws| && ws[i].lba == lba;
        assert init[i].lba == lba;
      }
      if !Targets(ws, lba) {
        assert w.lba != lba;
        assert forall i :: 0 <= i < |init| ==> init[i] == ws[i];
      }
    }
  }

  /** Replaying a whole list over a disk that already has a prefix of it gives the same disk. */
  lemma {:induction false} ApplyAbsorbsPrefix(disk: Disk, ws: seq<Rec>, k: nat)
    requires k <= |ws|
    ensures Apply(Apply(disk, ws[..k]), ws) == Apply(disk, ws)
  {
    var part := Apply(disk, ws[..k]);
    forall lba | 0 <= lba < 128 ensures Apply(part, ws)[lba] == Apply(disk, ws)[lba] {
      ApplyAt(part, disk, ws, lba);
      ApplyAt(disk, part, ws, lba);
      ApplyAt(disk, disk, ws[..k], lba);
      if Targets(ws[..k], lba) {
        var i :| 0 <= i < k && ws[..k][i].lba == lba;
        assert ws[i].lba == lba;
      }
    }
  }

  // ---------- on-disk journal ----------

  /** FNV-1a on 32 bits. */
  function Checksum(s: seq<byte>): (c: nat)
    ensures c < 0x1_0000_0000
  {
    if s == [] then 2166136261
    else (Xor(Checksum(s[..|s| - 1]), s[|s| - 1], 32) * 16777619) % 0x1_0000_0000
  }

  /** Block 1 holds a committed or a cleared header; pairs (2 + 2i, 3 + 2i) hold record i. */
  predicate InJournal(lba: nat) {
    1 <= lba <= 17
  }

  function HeaderSum(h: Block): nat {
    Checksum(SetField(h, 24, 4, 0))
  }

  function HeaderMembers(sequence: nat, count: nat): (ms: seq<Member>)
    requires count <= MAX_RECORDS
    ensures Layout(ms, 512)
  {
    Pow256Values();
    [Member(0, 8, JMAGIC), Member(8, 4, VERSION), Member(12, 4, J_COMMITTED),
     Member(16, 4, sequence % 0x1_0000_0000), Member(20, 4, count)]
  }

  function CommitHeader(sequence: nat, count: nat): Block
    requires count <= MAX_RECORDS
  {
    var h := SetMembers(ZeroBlock(), HeaderMembers(sequence, count));
    SetField(h, 24, 4, HeaderSum(h))
  }

  function DescMembers(r: Rec): (ms: seq<Member>)
    ensures Layout(ms, 512)
  {
    Pow256Values();
    [Member(0, 8, JMAGIC), Member(8, 4, r.lba % 0x1_0000_0000), Member(12, 4, Checksum(r.data))]
  }

  function DescBlock(r: Rec): Block {
    SetMembers(ZeroBlock(), DescMembers(r))
  }

  predicate HeaderEmpty(h: Block) {
    Field(h, 0, 8) == 0 && Field(h, 12, 4) == J_EMPTY
  }

  predicate HeaderCommitted(h: Block) {
    && Field(h, 0, 8) == JMAGIC
    && Field(h, 8, 4) == VERSION
    && Field(h, 12, 4) == J_COMMITTED
    && Field(h, 20, 4) <= MAX_RECORDS
    && HeaderSum(h) == Field(h, 24, 4)
  }

  predicate DescValid(desc: Block, data: Block) {
    && Field(desc, 0, 8) == JMAGIC
    && Field(desc, 8, 4) < 128
    && Checksum(data) == Field(desc, 12, 4)
  }

  lemma {:induction false} ZeroHeaderEmpty()
    ensures HeaderEmpty(ZeroBlock())
  {
    FieldOfZeros(512, 0, 8);
    FieldOfZeros(512, 12, 4);
  }

  /** Reading a commit header back accepts it and yields its record count. */
  lemma {:induction false} CommitHeaderReadsBack(sequence: nat, count: nat)
    requires count <= MAX_RECORDS
    ensures HeaderCommitted(CommitHeader(sequence, count))
    ensures Field(CommitHeader(sequence, count), 16, 4) == sequence % 0x1_0000_0000
    ensures Field(CommitHeader(sequence, count), 20, 4) == count
    ensures forall i :: 28 <= i < 512 ==> CommitHeader(sequence, count)[i] == 0
    ensures !HeaderEmpty(CommitHeader(sequence, count))
  {
    Pow256Values();
    var ms := HeaderMembers(sequence, count);
    var h := SetMembers(ZeroBlock(), ms);
    var c := HeaderSum(h);
    forall i | 0 <= i < 5
      ensures Field(SetField(h, 24, 4, c), ms[i].off, ms[i].n) == ms[i].v
    {
      MemberAt(ZeroBlock(), ms, i);
      FieldOther(h, 24, 4, c, ms[i].off, ms[i].n);
    }
    assert ms[0] == Member(0, 8, JMAGIC) && ms[1] == Member(8, 4, VERSION);
    assert ms[2] == Member(12, 4, J_COMMITTED) && ms[3].v == sequence % 0x1_0000_0000 && ms[4] == Member(20, 4, count);
    MembersOther(ZeroBlock(), ms, 28, 484);
    FieldOther(h, 24, 4, c, 28, 484);
    forall i | 28 <= i < 512 ensures SetField(h, 24, 4, c)[i] == 0 {
      assert SetField(h, 24, 4, c)[i] == SetField(h, 24, 4, c)[28..512][i - 28] == h[28..512][i - 28];
    }
    FieldSame(h, 24, 4, c);
    assert SetField(SetField(h, 24, 4, c), 24, 4, 0) == SetField(h, 24, 4, 0);
  }

  lemma {:induction false} DescReadsBack(r: Rec)
    requires r.lba < 128
    ensures DescValid(DescBlock(r), r.data)
    ensures Field(DescBlock(r), 8, 4) == r.lba
  {
    hide Checksum;
    var ms := DescMembers(r);
    MemberAt(ZeroBlock(), ms, 0);
    MemberAt(ZeroBlock(), ms, 1);
    MemberAt(ZeroBlock(), ms, 2);
  }

  // ---------- commit and recover ----------

  function ClearWrite(): Rec {
    Rec(JOURNAL_START, ZeroBlock())
  }

  /** Descriptor and payload of every record, in journal order. */
  function LogWrites(recs: seq<Rec>): (ws: seq<Rec>)
    ensures |ws| == 2 * |recs|
  {
    if recs == [] then []
    else
      var n := |recs| - 1;
      LogWrites(recs[..n]) + [Rec(2 + 2 * n, DescBlock(recs[n])), Rec(3 + 2 * n, recs[n].data)]
  }

  /** Everything up to and including the commit header. */
  function CommitHead(recs: seq<Rec>, sequence: nat): (ws: seq<Rec>)
    requires |recs| <= MAX_RECORDS
    ensures |ws| == 2 * |recs| + 2
  {
    [ClearWrite()] + LogWrites(recs) + [Rec(JOURNAL_START, CommitHeader(sequence, |recs|))]
  }

  function CommitWrites(recs: seq<Rec>, sequence: nat, stop: bool): (ws: seq<Rec>)
    requires |recs| <= MAX_RECORDS
    ensures |ws| == 2 * |recs| + 2 + (if stop then 0 else |recs| + 1)
  {
    CommitHead(recs, sequence) + (if stop then [] else recs + [ClearWrite()])
  }

  function Commit(d: Device, recs: seq<Rec>, sequence: nat, stop: bool): Outcome {
    if |recs| > MAX_RECORDS then Outcome(d, Inval)
    else RunWrites(d, CommitWrites(recs, sequence, stop))
  }

  /** The replay loop from record i on, reading each record just before applying it. */
  function ReplayFrom(d: Device, i: nat, n: nat): Outcome
    requires i <= n <= MAX_RECORDS
    decreases n - i
  {
    if i == n then WriteBlock(d, JOURNAL_START, ZeroBlock())
    else
      var desc, data := d.disk[2 + 2 * i], d.disk[3 + 2 * i];
      if !DescValid(desc, data) then Outcome(d, Corrupt)
      else
        var o := WriteBlock(d, Field(desc, 8, 4), data);
        if o.rc != Ok then o else ReplayFrom(o.dev, i + 1, n)
  }

  function Recover(d: Device): Outcome {
    var h := d.disk[JOURNAL_START];
    if HeaderEmpty(h) then Outcome(d, Ok)
    else if !HeaderCommitted(h) then Outcome(d, Corrupt)
    else ReplayFrom(d, 0, Field(h, 20, 4))
  }
}
