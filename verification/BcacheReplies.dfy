/**
 Where the cache goes to its devices and where it does not: the block layer's range check, the
 entry a miss takes, hits that cost no device call, and how far a failing flush gets.
 */
module BcacheReplies {
  import opened Bytes
  import opened Bcache
  import opened BcacheProps

  // ---------- the block layer ----------

  /** A request is served exactly if it asks for at least one block and ends within the device. */
  lemma {:induction false} RangeSays(blockCount: nat, lba: nat, count: nat)
    ensures ValidateRange(blockCount, lba, count) ==
            if count == 0 then Inval else if lba + count <= blockCount then Ok else Range
  {
  }

  /** A block beyond the device is refused before the driver is called; otherwise one driver call is made. */
  lemma {:induction false} BlockSays(d: Dev, lba: nat, data: seq<byte>)
    ensures lba >= |d.blocks| ==> ReadBlock(d, lba) == (d, Range, []) && WriteBlock(d, lba, data) == (d, Range)
    ensures lba < |d.blocks| ==>
      var (r, rst, got), (w, wst) := ReadBlock(d, lba), WriteBlock(d, lba, data);
      && r.faults == w.faults == (if |d.faults| > 0 then d.faults[1..] else [])
      && r.blocks == d.blocks && r.blockSize == w.blockSize == d.blockSize
      && if |d.faults| > 0 && d.faults[0].Fails? then rst == wst == Io && got == []
         else rst == wst == Ok && got == d.blocks[lba] && w.blocks == d.blocks[lba := data]
  {
  }

  // ---------- hits and misses ----------

  /** A read hit changes nothing; a write hit changes its entry and no device. */
  lemma {:induction false} HitSays<D>(c: Cache<D>, dev: D, lba: nat, data: seq<byte>, i: nat)
    requires CacheOk(c) && dev in c.devs && c.blockSize == c.devs[dev].blockSize
    requires i < |c.entries| && Holds(c.entries[i], dev, lba)
    ensures Known(c)
    ensures Read(c, dev, lba) == (c, Ok, c.entries[i].data)
    ensures Write(c, dev, lba, data) == (c.(entries := c.entries[i := Entry(true, true, dev, lba, data)]), Ok)
  {
    hide CacheOk;
    OkKnown(c);
    FindIs(c, dev, lba, i);
  }

  /** After an OK read the block is cached, so that reading it again asks no device. */
  lemma {:induction false} ReadTwice<D>(c: Cache<D>, dev: D, lba: nat)
    requires CacheOk(c) && dev in c.devs
    ensures Known(c)
    ensures var (c1, st, data) := Read(c, dev, lba);
            st == Ok ==> Known(c1) && dev in c1.devs && Read(c1, dev, lba) == (c1, Ok, data)
  {
    hide CacheOk, SelectVictim, SameView;
    OkKnown(c);
    ReadRefines(c, dev, lba);
    var (c1, st, data) := Read(c, dev, lba);
    if st == Ok {
      OkKnown(c1);
      ReadSize(c, dev, lba);
      var i := Find(c1.entries, dev, lba, 0);
      if Find(c.entries, dev, lba, 0) == |c.entries| {
        var (c0, _, v) := SelectVictim(c);
        assert Holds(c1.entries[v], dev, lba);
        FindIs(c1, dev, lba, v);
      }
    }
  }

  lemma {:induction false} ReadSize<D>(c: Cache<D>, dev: D, lba: nat)
    requires CacheOk(c) && Known(c) && dev in c.devs && Read(c, dev, lba).1 == Ok
    ensures var c1 := Read(c, dev, lba).0; dev in c1.devs && c1.blockSize == c1.devs[dev].blockSize
  {
    hide CacheOk, SelectVictim, View;
    ReadRefines(c, dev, lba);
  }

  /** A read makes no entry modified. */
  lemma {:induction false} ReadStaysClean<D>(c: Cache<D>, dev: D, lba: nat, j: nat)
    requires CacheOk(c) && dev in c.devs && j < |c.entries|
    ensures Known(c)
    ensures var r := Read(c, dev, lba).0;
            |r.entries| == |c.entries| && (r.entries[j].dirty ==> r.entries[j] == c.entries[j])
  {
    hide CacheOk, SelectVictim, SameView, ReadBlock;
    OkKnown(c);
    SelectKeeps(c);
    SelectDirty(c, j);
  }

  lemma {:induction false} SelectDirty<D>(c: Cache<D>, j: nat)
    requires CacheOk(c) && Known(c) && j < |c.entries|
    ensures var r := SelectVictim(c).0; r.entries[j].dirty ==> r.entries[j] == c.entries[j]
  {
    hide WriteBlock, CacheOk;
  }

  /** Pass p is the first, going round from the hand, that finds an unused entry. */
  predicate FirstUnused<D>(c: Cache<D>, p: nat)
    requires |c.entries| > 0
  {
    && p < |c.entries| && !c.entries[Round(c.hand, p, |c.entries|)].valid
    && forall k :: 0 <= k < p ==> c.entries[Round(c.hand, k, |c.entries|)].valid
  }

  /** p places on from the hand, going round n entries. */
  function Round(hand: nat, p: nat, n: nat): (i: nat)
    requires n > 0
    ensures i < n
  {
    (hand + p) % n
  }

  lemma {:induction false} HandWraps(hand: nat, p: nat, n: nat)
    requires n > 0
    ensures At(hand % n, p, n) == Round(hand, p, n)
  {
    var q, r := hand / n, hand % n;
    assert hand == q * n + r;
    ModShift(r + p, n, q);
  }

  lemma {:induction false} ModShift(x: nat, n: nat, q: nat)
    requires n > 0
    ensures (q * n + x) % n == x % n
    decreases q
  {
    if q > 0 {
      ModShift(x + n, n, q - 1);
      assert (q - 1) * n + (x + n) == q * n + x;
      ModOnce(x, n);
    }
  }

  lemma {:induction false} ModOnce(x: nat, n: nat)
    requires n > 0
    ensures (x + n) % n == x % n
  {
    var d, r := x / n, x % n;
    assert x + n == (d + 1) * n + r;
    ModIs(x + n, n, d + 1, r);
  }

  lemma {:induction false} ModIs(y: nat, n: nat, d: nat, r: nat)
    requires n > 0 && y == d * n + r && r < n
    ensures y % n == r
  {
    var e, z := y / n, y / n - d;
    assert y == e * n + y % n;
    assert z * n == e * n - d * n == r - y % n;
    assert z >= 1 ==> z * n >= n;
    assert z <= -1 ==> z * n <= -(n as int);
  }

  /**
   The entry a miss takes: the first unused one going round from the hand, with no device call; if
   every entry is used, the one under the hand, written back first if it is modified. Either way
   the hand moves past it.
   */
  lemma {:induction false} VictimSays<D>(c: Cache<D>, p: nat)
    requires Known(c)
    ensures FirstUnused(c, p) ==>
            var v := Round(c.hand, p, |c.entries|); SelectVictim(c) == (c.(hand := v + 1), Ok, v)
    ensures (forall k :: 0 <= k < |c.entries| ==> c.entries[k].valid) ==>
            var v := c.hand % |c.entries|;
            var c0 := c.(hand := v + 1);
            Known(c0) && SelectVictim(c).2 == v && (SelectVictim(c).0, SelectVictim(c).1) == FlushEntry(c0, v)
  {
    hide FlushEntry, At, Round;
    var n, start := |c.entries|, c.hand % |c.entries|;
    if FirstUnused(c, p) {
      forall k | 0 <= k <= p ensures At(start, k, n) == Round(c.hand, k, n) { HandWraps(c.hand, k, n); }
      assert Unused(c.entries, start, 0) == p;
    }
    if forall k :: 0 <= k < n ==> c.entries[k].valid {
      assert Unused(c.entries, start, 0) == n;
    }
  }

  // ---------- flush ----------

  /** A used and modified entry is written to its own block, with one driver call; any other costs none. */
  lemma {:induction false} FlushEntrySays<D>(c: Cache<D>, i: nat)
    requires Known(c) && i < |c.entries|
    ensures var e := c.entries[i];
            if e.valid && e.dirty then
              var (d, st) := WriteBlock(c.devs[e.dev], e.lba, e.data);
              && FlushEntry(c, i).1 == st && FlushEntry(c, i).0.devs == c.devs[e.dev := d]
              && FlushEntry(c, i).0.entries == (if st == Ok then c.entries[i := e.(dirty := false)] else c.entries)
            else FlushEntry(c, i) == (c, Ok)
  {
    hide WriteBlock;
  }

  /** Entries before k are clean and otherwise as they were; those from k on are as they were. */
  predicate FlushedTo<D(==)>(c: Cache<D>, r: Cache<D>, k: nat) {
    && |r.entries| == |c.entries| && k <= |c.entries|
    && (forall j :: 0 <= j < k ==> r.entries[j] == c.entries[j].(dirty := false))
    && (forall j :: k <= j < |c.entries| ==> r.entries[j] == c.entries[j])
  }

  /** flush_all goes through the entries in order and stops at the first that cannot be written. */
  lemma {:induction false} FlushAllSays<D>(c: Cache<D>, i: nat) returns (k: nat)
    requires CacheOk(c) && i <= |c.entries| && forall j :: 0 <= j < i ==> !c.entries[j].dirty
    ensures Known(c)
    ensures var (r, st) := FlushAll(c, i);
            && FlushedTo(c, r, k) && i <= k && r.hand == c.hand
            && (st == Ok <==> k == |c.entries|) && (st != Ok ==> c.entries[k].valid && c.entries[k].dirty)
    decreases |c.entries| - i
  {
    hide CacheOk, FlushEntry, WriteBlock;
    OkKnown(c);
    k := i;
    if i < |c.entries| {
      var (c1, st) := FlushEntry(c, i);
      FlushEntryKeeps(c, i);
      FlushOne(c, i);
      if st == Ok {
        k := FlushAllSays(c1, i + 1);
        assert forall j :: 0 <= j < |c.entries| ==> c1.entries[j].(dirty := false) == c.entries[j].(dirty := false);
      }
    }
  }

  lemma {:induction false} FlushOne<D>(c: Cache<D>, i: nat)
    requires CacheOk(c) && Known(c) && i < |c.entries|
    ensures var (c1, st) := FlushEntry(c, i);
            && c1.entries == (if st == Ok then c.entries[i := c.entries[i].(dirty := false)] else c.entries)
            && (st != Ok ==> c.entries[i].valid && c.entries[i].dirty) && c1.hand == c.hand
  {
    hide DevOk, WriteBlock;
    assert EntryOk(c, c.entries[i]);
  }
}
