/**
 Whole runs of the cache: every successful read returns the last successful write to its
 block, or what the device held at the start; a successful flush puts exactly that on the
 devices. Also when, on devices that do not fail, the operations succeed.
 */
module BcacheRuns {
  import opened Bytes
  import opened Bcache
  import opened BcacheProps

  datatype Op<D> = DoRead(dev: D, lba: nat) | DoWrite(dev: D, lba: nat, data: seq<byte>) | DoFlush

  datatype Reply = Reply(status: Status, data: seq<byte>)

  predicate OpOk<D(==)>(c: Cache<D>, op: Op<D>) {
    match op
    case DoRead(dev, _) => dev in c.devs
    case DoWrite(dev, _, data) => dev in c.devs && |data| == c.blockSize
    case DoFlush => true
  }

  function Step<D(==)>(c: Cache<D>, op: Op<D>): (Cache<D>, Reply)
    requires Known(c) && OpOk(c, op)
  {
    match op
    case DoRead(dev, lba) => var (c1, st, data) := Read(c, dev, lba); (c1, Reply(st, data))
    case DoWrite(dev, lba, data) => var (c1, st) := Write(c, dev, lba, data); (c1, Reply(st, []))
    case DoFlush => var (c1, st) := FlushAll(c, 0); (c1, Reply(st, []))
  }

  /** The states a run goes through and what its calls return; ends in the last state. */
  datatype Trace<D> = Trace(state: Cache<D>, replies: seq<Reply>)

  predicate Admissible<D(==)>(c: Cache<D>, ops: seq<Op<D>>) {
    forall i :: 0 <= i < |ops| ==> OpOk(c, ops[i])
  }

  ghost function Run<D>(c: Cache<D>, ops: seq<Op<D>>): (t: Trace<D>)
    requires CacheOk(c) && Admissible(c, ops)
    ensures CacheOk(t.state) && |t.replies| == |ops|
    ensures t.state.blockSize == c.blockSize && t.state.devs.Keys == c.devs.Keys
    decreases |ops|
  {
    hide CacheOk, View, Step;
    if ops == [] then Trace(c, [])
    else
      var n := |ops| - 1;
      var t := Run(c, ops[..n]);
      assert OpOk(c, ops[n]);
      StepRefines(t.state, ops[n]);
      var (s, r) := Step(t.state, ops[n]);
      Trace(s, t.replies + [r])
  }

  /** One call: a write that succeeds changes its block, anything else changes nothing visible. */
  lemma {:induction false} StepRefines<D>(c: Cache<D>, op: Op<D>)
    requires CacheOk(c) && OpOk(c, op)
    ensures Known(c)
    ensures var (s, r) := Step(c, op);
            && CacheOk(s) && s.blockSize == c.blockSize && s.devs.Keys == c.devs.Keys
            && (if op.DoWrite? && r.status == Ok then Updated(c, s, op.dev, op.lba, op.data) else SameView(c, s))
            && (op.DoRead? && r.status == Ok ==> View(c, op.dev, op.lba) == Some(r.data))
            && (op.DoFlush? && r.status == Ok ==> Settled(s))
  {
    hide CacheOk, View, Settled;
    match op
    case DoRead(dev, lba) => ReadRefines(c, dev, lba);
    case DoWrite(dev, lba, data) => WriteRefines(c, dev, lba, data);
    case DoFlush => FlushAllRefines(c);
  }

  /** The data of the last write to a block that succeeded, if any. */
  function LastWrite<D(==)>(ops: seq<Op<D>>, rs: seq<Reply>, dev: D, lba: nat): Option<seq<byte>>
    requires |ops| == |rs|
    decreases |ops|
  {
    if ops == [] then None
    else
      var n := |ops| - 1;
      var op := ops[n];
      if op.DoWrite? && op.dev == dev && op.lba == lba && rs[n].status == Ok then Some(op.data)
      else LastWrite(ops[..n], rs[..n], dev, lba)
  }

  /** What a plain device with the given starting blocks would hold after the successful writes. */
  function Expected<D(==)>(c: Cache<D>, ops: seq<Op<D>>, rs: seq<Reply>, dev: D, lba: nat): Option<seq<byte>>
    requires |ops| == |rs| && dev in c.devs
  {
    var w := LastWrite(ops, rs, dev, lba);
    if w.Some? then w else View(c, dev, lba)
  }

  /** After any run, with any failures, the visible blocks are those of the plain device. */
  lemma {:induction false} RunRefines<D>(c: Cache<D>, ops: seq<Op<D>>, dev: D, lba: nat)
    requires CacheOk(c) && Admissible(c, ops) && dev in c.devs
    ensures View(Run(c, ops).state, dev, lba) == Expected(c, ops, Run(c, ops).replies, dev, lba)
    decreases |ops|
  {
    hide CacheOk, View, Step;
    if ops != [] {
      var n := |ops| - 1;
      RunRefines(c, ops[..n], dev, lba);
      var t, all := Run(c, ops[..n]), Run(c, ops);
      assert OpOk(c, ops[n]);
      StepRefines(t.state, ops[n]);
      assert all.replies[..n] == t.replies;
    }
  }

  /** The first replies of a run are the replies of its beginning. */
  lemma {:induction false} RunPrefix<D>(c: Cache<D>, ops: seq<Op<D>>, i: nat)
    requires CacheOk(c) && Admissible(c, ops) && i <= |ops|
    ensures Run(c, ops[..i]).replies == Run(c, ops).replies[..i]
    decreases |ops|
  {
    hide CacheOk, View, Step;
    if i == |ops| {
      assert ops[..i] == ops;
    } else {
      var n := |ops| - 1;
      RunPrefix(c, ops[..n], i);
      assert ops[..n][..i] == ops[..i];
    }
  }

  /** Reply i is what call i returns in the state its predecessors lead to. */
  lemma {:induction false} ReplyAt<D>(c: Cache<D>, ops: seq<Op<D>>, i: nat)
    requires CacheOk(c) && Admissible(c, ops) && i < |ops|
    ensures Known(Run(c, ops[..i]).state) && OpOk(Run(c, ops[..i]).state, ops[i])
    ensures Run(c, ops).replies[i] == Step(Run(c, ops[..i]).state, ops[i]).1
  {
    hide CacheOk, View, Step;
    assert OpOk(c, ops[i]);
    RunPrefix(c, ops, i + 1);
    assert ops[..i + 1][..i] == ops[..i];
    StepRefines(Run(c, ops[..i]).state, ops[i]);
    assert Run(c, ops).replies[i] == Run(c, ops[..i + 1]).replies[i];
  }

  /** A cache fresh from mcsos_bcache_init shows the devices as they are. */
  predicate Fresh<D(==)>(c: Cache<D>) {
    && |c.entries| > 0 && c.hand == 0
    && (forall i :: 0 <= i < |c.entries| ==> !c.entries[i].valid && !c.entries[i].dirty)
    && (forall d :: d in c.devs ==> DevOk(c.devs[d]))
  }

  lemma {:induction false} FreshOk<D>(c: Cache<D>)
    requires Fresh(c)
    ensures CacheOk(c) && Known(c)
    ensures forall d, lba :: d in c.devs ==> View(c, d, lba) == OnDevice(c.devs[d], lba)
  {
    hide DevOk;
    forall d, lba | d in c.devs ensures View(c, d, lba) == OnDevice(c.devs[d], lba) { FindNone(c.entries, d, lba); }
  }

  /**
   Every successful read of a run from a fresh cache returns the last successful write to
   its block before it, or the device's original bytes, across evictions and failures.
   */
  lemma {:induction false} ReadsAreRight<D>(c: Cache<D>, ops: seq<Op<D>>, i: nat)
    requires Fresh(c) && Admissible(c, ops) && i < |ops| && ops[i].DoRead?
    ensures CacheOk(c)
    ensures var rs := Run(c, ops).replies;
            rs[i].status == Ok ==>
              var w := LastWrite(ops[..i], rs[..i], ops[i].dev, ops[i].lba);
              Some(rs[i].data) == if w.Some? then w else OnDevice(c.devs[ops[i].dev], ops[i].lba)
  {
    FreshOk(c);
    hide CacheOk, View, Step, Run, Fresh;
    assert OpOk(c, ops[i]);
    RunPrefix(c, ops, i);
    RunRefines(c, ops[..i], ops[i].dev, ops[i].lba);
    StepRefines(Run(c, ops[..i]).state, ops[i]);
    ReplyAt(c, ops, i);
  }

  /**
   If the last call of a run is a flush that succeeds, no entry is modified and every device
   holds, block for block, the last successful writes over its original contents.
   */
  lemma {:induction false} FlushIsComplete<D>(c: Cache<D>, ops: seq<Op<D>>, dev: D, lba: nat)
    requires Fresh(c) && Admissible(c, ops + [DoFlush]) && Admissible(c, ops) && dev in c.devs
    ensures CacheOk(c)
    ensures var t := Run(c, ops + [DoFlush]);
            t.replies[|ops|].status == Ok ==>
              && (forall k :: 0 <= k < |t.state.entries| ==> !t.state.entries[k].dirty)
              && var w := LastWrite(ops, t.replies[..|ops|], dev, lba);
                 OnDevice(t.state.devs[dev], lba) == if w.Some? then w else OnDevice(c.devs[dev], lba)
  {
    FreshOk(c);
    hide CacheOk, View, Step;
    var all := ops + [DoFlush];
    assert all[..|ops|] == ops;
    RunPrefix(c, all, |ops|);
    RunRefines(c, ops, dev, lba);
    var t := Run(c, ops);
    StepRefines(t.state, DoFlush);
    var s := Step(t.state, DoFlush).0;
    ViewSame(t.state, s, dev, lba);
    assert Run(c, all).state == s;
  }

  // ---------- when calls succeed ----------

  /** No device has a failure ahead of it. */
  predicate Reliable<D(==)>(c: Cache<D>) {
    forall d :: d in c.devs ==> c.devs[d].faults == []
  }

  predicate InRange<D(==)>(c: Cache<D>, e: Entry<D>) {
    e.valid && e.dirty ==> e.dev in c.devs && e.lba < |c.devs[e.dev].blocks|
  }

  /** Every modified entry has a place on its device. */
  predicate Flushable<D(==)>(c: Cache<D>) {
    forall i :: 0 <= i < |c.entries| ==> InRange(c, c.entries[i])
  }

  lemma {:induction false} FlushEntryWorks<D>(c: Cache<D>, i: nat)
    requires CacheOk(c) && Reliable(c) && Known(c) && i < |c.entries|
    ensures var (c1, st) := FlushEntry(c, i);
            && Reliable(c1) && |c1.entries| == |c.entries| && (st == Ok <==> InRange(c, c.entries[i]))
              && (st != Ok ==> st == Range)
            && (st == Ok ==> forall k :: 0 <= k < |c.entries| && k != i ==>
                  (InRange(c1, c1.entries[k]) <==> InRange(c, c.entries[k])))
            && InRange(c1, c1.entries[i]) == InRange(c, c.entries[i])
  {
    hide DevOk;
    assert EntryOk(c, c.entries[i]);
  }

  /**
   mcsos_bcache_write accepts a block number beyond the device. On devices that do not fail,
   flush_all succeeds if and only if no such block is waiting to be written.
   */
  lemma {:induction false} FlushAllOkIff<D>(c: Cache<D>, i: nat)
    requires CacheOk(c) && Reliable(c) && Known(c) && i <= |c.entries|
    ensures FlushAll(c, i).1 == Ok <==> forall k :: i <= k < |c.entries| ==> InRange(c, c.entries[k])
    decreases |c.entries| - i
  {
    hide CacheOk, FlushEntry, InRange, Known;
    if i < |c.entries| {
      FlushEntryWorks(c, i);
      FlushEntryKeeps(c, i);
      var (c1, st) := FlushEntry(c, i);
      if st == Ok {
        OkKnown(c1);
        FlushAllOkIff(c1, i + 1);
        assert forall k :: i + 1 <= k < |c.entries| ==> (InRange(c1, c1.entries[k]) <==> InRange(c, c.entries[k]));
      }
    }
  }

  lemma {:induction false} SelectWorks<D>(c: Cache<D>)
    requires CacheOk(c) && Reliable(c) && Flushable(c)
    ensures Known(c)
    ensures var (c1, st, v) := SelectVictim(c); st == Ok && Reliable(c1)
  {
    hide CacheOk, FlushEntry;
    OkKnown(c);
    OkNonempty(c);
    var start := c.hand % |c.entries|;
    var c0 := c.(hand := start + 1);
    HandMoves(c, start + 1);
    assert InRange(c, c.entries[start]);
    FlushEntryWorks(c0, start);
  }

  /** On devices that do not fail and with nothing stuck, a read fails only for a wrong block size or number. */
  lemma {:induction false} ReadWorks<D>(c: Cache<D>, dev: D, lba: nat)
    requires CacheOk(c) && Reliable(c) && Flushable(c) && dev in c.devs
    ensures Known(c)
    ensures Read(c, dev, lba).1 ==
            if c.blockSize != c.devs[dev].blockSize then Inval else if View(c, dev, lba) == None then Range else Ok
  {
    hide CacheOk, SelectVictim, Flushable, SameView;
    OkKnown(c);
    if c.blockSize == c.devs[dev].blockSize && Find(c.entries, dev, lba, 0) == |c.entries| {
      SelectWorks(c);
      SelectKeeps(c);
      var (c1, st, v) := SelectVictim(c);
      MissStays(c, c1, dev, lba);
      NoneView(c1, dev, lba);
      ViewSame(c, c1, dev, lba);
    }
  }

  lemma {:induction false} WriteWorks<D>(c: Cache<D>, dev: D, lba: nat, data: seq<byte>)
    requires CacheOk(c) && Reliable(c) && Flushable(c) && dev in c.devs
    ensures Known(c)
    ensures Write(c, dev, lba, data).1 == if c.blockSize != c.devs[dev].blockSize then Inval else Ok
  {
    hide CacheOk, SelectVictim, Flushable;
    OkKnown(c);
    SelectWorks(c);
  }
}
