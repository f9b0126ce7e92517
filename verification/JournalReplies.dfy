/**
 What m16_journal_recover accepts, refuses and applies, said of the raw bytes of blocks 1 to
 17: the answer and the resulting disk for every header and every log.
 */
module JournalReplies {
  import opened Bytes
  import opened Journal
  import opened JournalCrash

  /** The header of a finished or never started transaction. */
  predicate Blank(h: Block) { Field(h, 0, 8) == 0 && Field(h, 12, 4) == 0 }

  /** Magic, version 1, state committed, at most eight records, and the checksum of the rest. */
  predicate Sealed(h: Block) {
    && Field(h, 0, 8) == 0x4d43534a524e4c31 && Field(h, 8, 4) == 1 && Field(h, 12, 4) == 2
    && Field(h, 20, 4) <= 8 && Field(h, 24, 4) == Checksum(SetField(h, 24, 4, 0))
  }

  /** Record i: magic, a target on the device, and the checksum of its payload. */
  predicate Intact(disk: Disk, i: nat)
    requires i < 8
  {
    && Field(disk[2 + 2 * i], 0, 8) == 0x4d43534a524e4c31 && Field(disk[2 + 2 * i], 8, 4) < 128
    && Field(disk[2 + 2 * i], 12, 4) == Checksum(disk[3 + 2 * i])
  }

  /** k is the number of intact records before the first that is not, out of n. */
  predicate IntactUpTo(disk: Disk, k: nat, n: nat) {
    k <= n <= 8 && (forall i :: 0 <= i < k ==> Intact(disk, i)) && (k < n ==> !Intact(disk, k))
  }

  /** The first k records go to home blocks, as those of every file-system transaction do. */
  predicate Homeward(disk: Disk, k: nat) {
    k <= 8 && forall i :: 0 <= i < k ==> !(1 <= Field(disk[2 + 2 * i], 8, 4) <= 17)
  }

  function LoggedRecs(disk: Disk, k: nat): seq<Rec>
    requires k <= 8
  {
    seq(k, i requires 0 <= i < k => Rec(Field(disk[2 + 2 * i], 8, 4), disk[3 + 2 * i]))
  }

  /**
   Recovery with faults off. A blank header: OK and nothing changes. A header that is neither
   blank nor sealed: CORRUPT and nothing changes. Otherwise exactly the intact records before
   the first bad one are applied, and the answer is OK, with the header cleared, if and only if
   there is no bad one.
   */
  lemma {:induction false} RecoverAnswers(d: Device, k: nat)
    requires d.fuel < 0
    requires var h := d.disk[1];
             !Blank(h) && Sealed(h) ==> IntactUpTo(d.disk, k, Field(h, 20, 4)) && Homeward(d.disk, k)
    ensures var h, o := d.disk[1], Recover(d);
            if Blank(h) then o.rc == Ok && o.dev.disk == d.disk
            else if !Sealed(h) then o.rc == Corrupt && o.dev.disk == d.disk
            else if k < Field(h, 20, 4) then o.rc == Corrupt && o.dev.disk == Apply(d.disk, LoggedRecs(d.disk, k))
            else o.rc == Ok && o.dev.disk == Apply(d.disk, LoggedRecs(d.disk, k))[1 := ZeroBlock()]
  {
    hide Field, Checksum, SetField, Apply, Recover, ZeroBlock, LoggedRecs, PlanOf, HeaderEmpty, Intact;
    PlanSays(d.disk, k);
    RecoverCut(d);
    RecoverIsPlan(d);
    var ws := PlanWrites(PlanOf(d.disk));
    InRangePrefix(d, ws);
    assert ws[..|ws|] == ws;
    if !Blank(d.disk[1]) && Sealed(d.disk[1]) {
      ApplySnoc(d.disk, LoggedRecs(d.disk, k), ClearWrite());
      assert LoggedRecs(d.disk, k) + [] == LoggedRecs(d.disk, k);
    }
  }

  /** The plan of a recovery in these terms. */
  lemma {:induction false} PlanSays(disk: Disk, k: nat)
    requires var h := disk[1]; !Blank(h) && Sealed(h) ==> IntactUpTo(disk, k, Field(h, 20, 4)) && Homeward(disk, k)
    ensures Sound(disk) && InRange(PlanWrites(PlanOf(disk)))
    ensures var h := disk[1];
            PlanOf(disk) == if Blank(h) then Nothing else if !Sealed(h) then Refuse
                            else Replay(LoggedRecs(disk, k), k == Field(h, 20, 4))
  {
    hide Field, Checksum, SetField, LoggedRecs, ValidLog, Intact;
    var h := disk[1];
    if !Blank(h) && Sealed(h) {
      ValidIsIntact(disk, k, Field(h, 20, 4), Field(h, 20, 4));
      LoggedOutside(disk, k);
      LoggedSize(disk, k);
    }
  }

  lemma {:induction false} LoggedSize(disk: Disk, k: nat)
    requires k <= 8
    ensures |LoggedRecs(disk, k)| == k
  {
  }

  lemma {:induction false} ValidIsIntact(disk: Disk, k: nat, n: nat, m: nat)
    requires IntactUpTo(disk, k, n) && m <= n
    ensures ValidLog(disk, m) == LoggedRecs(disk, if m < k then m else k)
    decreases m
  {
    hide Field, Checksum;
    if m > 0 {
      ValidIsIntact(disk, k, n, m - 1);
      assert m <= k ==> Intact(disk, m - 1);
      assert m == k + 1 ==> !Intact(disk, m - 1);
    }
  }

  lemma {:induction false} LoggedOutside(disk: Disk, k: nat)
    requires Homeward(disk, k) && forall i :: 0 <= i < k ==> Intact(disk, i)
    ensures Outside(LoggedRecs(disk, k)) && InRange(LoggedRecs(disk, k))
  {
    hide Field, Checksum;
    forall i | 0 <= i < k ensures Field(disk[2 + 2 * i], 8, 4) < 128 { assert Intact(disk, i); }
  }

  /** Every log has such a k. */
  lemma {:induction false} FirstBroken(disk: Disk, n: nat) returns (k: nat)
    requires n <= 8
    ensures IntactUpTo(disk, k, n)
  {
    hide Intact;
    k := 0;
    if n > 0 {
      k := FirstBroken(disk, n - 1);
      if k == n - 1 && Intact(disk, k) { k := n; }
    }
  }

  /**
   OK on a header that is not blank, on a device that may fail at any write, means a sealed
   header and intact records, every one.
   */
  lemma {:induction false} OkMeansIntact(d: Device)
    requires !Blank(d.disk[1]) && Recover(d).rc == Ok
    requires Sealed(d.disk[1]) ==> Homeward(d.disk, Field(d.disk[1], 20, 4))
    ensures Sealed(d.disk[1]) && forall i :: 0 <= i < Field(d.disk[1], 20, 4) ==> Intact(d.disk, i)
  {
    hide Recover, Sealed, Blank, Intact, LoggedRecs, Field, PlanOf, RunWrites, PlanWrites;
    var k := 0;
    if Sealed(d.disk[1]) {
      SealedBound(d.disk[1]);
      k := FirstBroken(d.disk, Field(d.disk[1], 20, 4));
    }
    PlanSays(d.disk, k);
    RecoverIsPlan(d);
  }

  lemma {:induction false} SealedBound(h: Block)
    requires Sealed(h)
    ensures Field(h, 20, 4) <= 8
  {
  }

  /** The damage of one descriptor: with the magic of record i gone, recovery stops there with CORRUPT. */
  lemma {:induction false} DamageIsNoticed(d: Device, i: nat)
    requires d.fuel < 0 && !Blank(d.disk[1]) && Sealed(d.disk[1]) && i < Field(d.disk[1], 20, 4)
    requires forall j :: 0 <= j < i ==> Intact(d.disk, j)
    requires Homeward(d.disk, i) && Field(d.disk[2 + 2 * i], 0, 8) != 0x4d43534a524e4c31
    ensures Recover(d).rc == Corrupt && Recover(d).dev.disk == Apply(d.disk, LoggedRecs(d.disk, i))
  {
    hide Recover, Apply, LoggedRecs, Field, Checksum, SetField;
    RecoverAnswers(d, i);
  }

  /** A transaction of more than eight records is refused before anything is written. */
  lemma {:induction false} CommitRefusesNine(d: Device, recs: seq<Rec>, sequence: nat, stop: bool)
    ensures |recs| > 8 ==> Commit(d, recs, sequence, stop) == Outcome(d, Inval)
    ensures |recs| <= 8 && (forall i :: 0 <= i < |recs| ==> recs[i].lba < 128) ==>
            Commit(d, recs, sequence, stop).rc != Inval
  {
    hide RunWrites, Apply, LogWrites, CommitHeader, ZeroBlock;
    if |recs| <= 8 && forall i :: 0 <= i < |recs| ==> recs[i].lba < 128 {
      LogWritesInside(recs);
      var ws := CommitWrites(recs, sequence, stop);
      InRangePrefix(d, ws);
    }
  }

  /** What a commit header says: magic, version, state, the sequence number, the count, its checksum. */
  lemma {:induction false} HeaderSays(sequence: nat, count: nat)
    requires count <= 8
    ensures var h := CommitHeader(sequence, count);
            && Sealed(h) && !Blank(h) && Field(h, 16, 4) == sequence % 0x1_0000_0000 && Field(h, 20, 4) == count
            && forall i :: 28 <= i < 512 ==> h[i] == 0
  {
    hide Checksum, Field, SetField;
    CommitHeaderReadsBack(sequence, count);
  }

  /** What a descriptor says: magic, target cut to 32 bits, and the checksum of the payload beside it. */
  lemma {:induction false} DescriptorSays(r: Rec)
    ensures var b := DescBlock(r);
            && Field(b, 0, 8) == 0x4d43534a524e4c31 && Field(b, 8, 4) == r.lba % 0x1_0000_0000
            && Field(b, 12, 4) == Checksum(r.data)
  {
    hide Checksum, Decode;
    var ms := DescMembers(r);
    MemberAt(ZeroBlock(), ms, 0);
    MemberAt(ZeroBlock(), ms, 1);
    MemberAt(ZeroBlock(), ms, 2);
  }
}
