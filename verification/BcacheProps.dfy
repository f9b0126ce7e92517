/**
 The cache agrees with a plain device: whatever is evicted, written back or fails, a
 successful read returns the last successfully written block, or the device's own.
 */
module BcacheProps {
  import opened Bytes
  import opened Bcache

  // ---------- lookup ----------

  /** With one entry per key, any entry that holds the key is the one found. */
  lemma {:induction false} FindIs<D>(c: Cache<D>, dev: D, lba: nat, i: nat)
    requires CacheOk(c) && i < |c.entries| && Holds(c.entries[i], dev, lba)
    ensures Find(c.entries, dev, lba, 0) == i
  {
    hide EntryOk, DevOk;
    var r := Find(c.entries, dev, lba, 0);
    assert r <= i;
  }

  lemma {:induction false} OkKnown<D>(c: Cache<D>)
    requires CacheOk(c)
    ensures Known(c)
  {
    hide DevOk;
    forall i | 0 <= i < |c.entries|
      ensures c.entries[i].valid ==> c.entries[i].dev in c.devs
    {
      assert EntryOk(c, c.entries[i]);
    }
  }

  /** A key that no entry holds is looked up on the device. */
  lemma {:induction false} FindNone<D>(es: seq<Entry<D>>, dev: D, lba: nat)
    requires forall k :: 0 <= k < |es| ==> !Holds(es[k], dev, lba)
    ensures Find(es, dev, lba, 0) == |es|
  {
  }

  // ---------- writing one entry back ----------

  lemma {:induction false} WriteBlockKeeps(d: Dev, lba: nat, data: seq<byte>)
    requires DevOk(d) && |data| == d.blockSize
    ensures var (e, st) := WriteBlock(d, lba, data);
            && DevOk(e) && e.blockSize == d.blockSize && |e.blocks| == |d.blocks|
            && (forall i :: 0 <= i < |d.blocks| && i != lba ==> e.blocks[i] == d.blocks[i])
            && (st == Ok ==> lba < |d.blocks| && e.blocks[lba] == data)
  {
  }

  /** The state after a write-back, taken apart. */
  lemma {:induction false} FlushShape<D>(c: Cache<D>, i: nat)
    requires CacheOk(c) && i < |c.entries| && c.entries[i].valid && c.entries[i].dirty
    ensures Known(c)
    ensures var e := c.entries[i];
            var (c1, st) := FlushEntry(c, i);
            && e.dev in c.devs && |e.data| == c.blockSize == c.devs[e.dev].blockSize && DevOk(c.devs[e.dev])
            && c1.blockSize == c.blockSize && c1.hand == c.hand
            && c1.entries == (if st == Ok then c.entries[i := e.(dirty := false)] else c.entries)
            && c1.devs == c.devs[e.dev := WriteBlock(c.devs[e.dev], e.lba, e.data).0]
            && st == WriteBlock(c.devs[e.dev], e.lba, e.data).1
  {
    hide WriteBlock;
    OkKnown(c);
    assert EntryOk(c, c.entries[i]);
  }

  /** An entry that is not being written back still agrees with its device. */
  lemma {:induction false} FlushOther<D>(c: Cache<D>, i: nat, j: nat)
    requires CacheOk(c) && i < |c.entries| && c.entries[i].valid && c.entries[i].dirty && j < |c.entries| && j != i
             && Known(c)
    ensures EntryOk(FlushEntry(c, i).0, c.entries[j])
  {
    hide WriteBlock, DevOk;
    FlushShape(c, i);
    var e := c.entries[i];
    WriteBlockKeeps(c.devs[e.dev], e.lba, e.data);
    assert EntryOk(c, c.entries[j]);
    if c.entries[j].valid { Different(c, i, j); }
  }

  lemma {:induction false} Different<D>(c: Cache<D>, i: nat, j: nat)
    requires CacheOk(c) && i < |c.entries| && j < |c.entries| && i != j && c.entries[i].valid && c.entries[j].valid
    ensures c.entries[i].dev != c.entries[j].dev || c.entries[i].lba != c.entries[j].lba
  {
    hide EntryOk, DevOk;
    if i < j { assert !Holds(c.entries[j], c.entries[i].dev, c.entries[i].lba); }
    else { assert !Holds(c.entries[i], c.entries[j].dev, c.entries[j].lba); }
  }

  lemma {:induction false} FlushOk<D>(c: Cache<D>, i: nat)
    requires CacheOk(c) && i < |c.entries|
    ensures Known(c) && CacheOk(FlushEntry(c, i).0)
  {
    hide WriteBlock, DevOk, EntryOk;
    OkKnown(c);
    var e := c.entries[i];
    if e.valid && e.dirty {
      FlushShape(c, i);
      WriteBlockKeeps(c.devs[e.dev], e.lba, e.data);
      var c1 := FlushEntry(c, i).0;
      forall j | 0 <= j < |c1.entries| ensures EntryOk(c1, c1.entries[j]) {
        if j != i { FlushOther(c, i, j); } else { FlushSelf(c, i); }
      }
      forall a, b | 0 <= a < b < |c1.entries| && c1.entries[a].valid
        ensures !Holds(c1.entries[b], c1.entries[a].dev, c1.entries[a].lba)
      {
        assert !Holds(c.entries[b], c.entries[a].dev, c.entries[a].lba);
      }
    }
  }

  lemma {:induction false} FlushSelf<D>(c: Cache<D>, i: nat)
    requires CacheOk(c) && i < |c.entries| && c.entries[i].valid && c.entries[i].dirty && Known(c)
    ensures EntryOk(FlushEntry(c, i).0, FlushEntry(c, i).0.entries[i])
  {
    hide WriteBlock, DevOk;
    FlushShape(c, i);
    var e := c.entries[i];
    WriteBlockKeeps(c.devs[e.dev], e.lba, e.data);
  }

  /** A write-back, successful or not, is invisible; a successful one leaves the entry clean. */
  lemma {:induction false} FlushEntryKeeps<D>(c: Cache<D>, i: nat)
    requires CacheOk(c) && i < |c.entries|
    ensures Known(c)
    ensures var (c1, st) := FlushEntry(c, i);
            && CacheOk(c1) && SameView(c, c1)
            && (st == Ok ==> !c1.entries[i].dirty)
            && c1.hand == c.hand && |c1.entries| == |c.entries|
            && forall j :: 0 <= j < |c.entries| ==>
              c1.entries[j].(dirty := false) == c.entries[j].(dirty := false)
                && (j != i ==> c1.entries[j] == c.entries[j])
  {
    hide WriteBlock, DevOk, EntryOk, CacheOk, FlushEntry, View;
    OkKnown(c);
    var e := c.entries[i];
    var (c1, st) := FlushEntry(c, i);
    if e.valid && e.dirty {
      FlushOk(c, i);
      FlushShape(c, i);
      WriteBlockKeeps(c.devs[e.dev], e.lba, e.data);
      forall d, lba | d in c.devs ensures View(c1, d, lba) == View(c, d, lba) { FlushView(c, i, d, lba); }
    } else {
      CleanFlush(c, i);
    }
  }

  lemma {:induction false} CleanFlush<D>(c: Cache<D>, i: nat)
    requires CacheOk(c) && i < |c.entries| && !(c.entries[i].valid && c.entries[i].dirty)
    ensures Known(c) && FlushEntry(c, i) == (c, Ok) && !c.entries[i].dirty
  {
    hide DevOk;
    OkKnown(c);
    assert EntryOk(c, c.entries[i]);
  }

  lemma {:induction false} FlushView<D>(c: Cache<D>, i: nat, d: D, lba: nat)
    requires CacheOk(c) && i < |c.entries| && c.entries[i].valid && c.entries[i].dirty && Known(c) && d in c.devs
    ensures d in FlushEntry(c, i).0.devs && View(FlushEntry(c, i).0, d, lba) == View(c, d, lba)
  {
    hide WriteBlock, DevOk, EntryOk, FlushEntry, CacheOk;
    FlushShape(c, i);
    var e := c.entries[i];
    WriteBlockKeeps(c.devs[e.dev], e.lba, e.data);
    var c1 := FlushEntry(c, i).0;
    var r := Find(c.entries, d, lba, 0);
    if r < |c.entries| {
      FlushOk(c, i);
      assert Holds(c1.entries[r], d, lba);
      FindIs(c1, d, lba, r);
    } else {
      forall k | 0 <= k < |c1.entries| ensures !Holds(c1.entries[k], d, lba) { assert !Holds(c.entries[k], d, lba); }
      FindNone(c1.entries, d, lba);
      assert !Holds(e, d, lba);
    }
  }

  // ---------- choosing a victim ----------

  lemma {:induction false} HandMoves<D>(c: Cache<D>, h: nat)
    requires CacheOk(c) && h <= |c.entries|
    ensures CacheOk(c.(hand := h)) && SameView(c, c.(hand := h))
  {
    hide DevOk;
    var a := c.(hand := h);
    forall i | 0 <= i < |a.entries| ensures EntryOk(a, a.entries[i]) { assert EntryOk(c, c.entries[i]); }
  }

  lemma {:induction false} SameViewTrans<D>(a: Cache<D>, b: Cache<D>, c: Cache<D>)
    requires SameView(a, b) && SameView(b, c)
    ensures SameView(a, c)
  {
    hide View;
    forall d, lba | d in a.devs ensures View(c, d, lba) == View(a, d, lba) {
      assert View(b, d, lba) == View(a, d, lba);
    }
  }

  /** A victim, once chosen, holds nothing that is not also on its device. */
  lemma {:induction false} SelectKeeps<D>(c: Cache<D>)
    requires CacheOk(c)
    ensures Known(c)
    ensures var (c1, st, v) := SelectVictim(c);
            && CacheOk(c1) && SameView(c, c1) && v < |c1.entries|
            && (st == Ok ==> !c1.entries[v].dirty)
            && (st == Ok && c1.entries[v].valid ==> forall k :: 0 <= k < |c.entries| ==> c.entries[k].valid)
            && forall j :: 0 <= j < |c.entries| ==> c1.entries[j].(dirty := false) == c.entries[j].(dirty := false)
  {
    hide CacheOk, SameView, FlushEntry;
    OkKnown(c);
    OkNonempty(c);
    var n := |c.entries|;
    var start := c.hand % n;
    var p := Unused(c.entries, start, 0);
    if p < n {
      HandMoves(c, At(start, p, n) + 1);
      CleanFlush(c, At(start, p, n));
    } else {
      AllUsed(c.entries, start);
      var c0 := c.(hand := start + 1);
      HandMoves(c, start + 1);
      FlushEntryKeeps(c0, start);
      SameViewTrans(c, c0, FlushEntry(c0, start).0);
    }
  }

  lemma {:induction false} OkNonempty<D>(c: Cache<D>)
    requires CacheOk(c)
    ensures |c.entries| > 0
  {
  }

  /** A full turn of the clock hand visits every entry. */
  lemma {:induction false} AllUsed<D>(es: seq<Entry<D>>, start: nat)
    requires |es| > 0 && start < |es| && Unused(es, start, 0) == |es|
    ensures forall k :: 0 <= k < |es| ==> es[k].valid
  {
    var n := |es|;
    forall k | 0 <= k < n ensures es[k].valid {
      var p := if k >= start then k - start else k + n - start;
      Wrap(start, p, n);
      assert es[At(start, p, n)].valid;
    }
  }

  lemma {:induction false} Wrap(start: nat, p: nat, n: nat)
    requires start < n && p < n
    ensures At(start, p, n) == if start + p < n then start + p else start + p - n
  {
    var q := if start + p < n then 0 else 1;
    Remainder(start + p, n, q);
  }

  lemma {:induction false} Remainder(a: nat, n: nat, q: nat)
    requires q <= 1 && q * n <= a < q * n + n
    ensures a % n == a - q * n
  {
    var d := a / n;
    assert a == d * n + a % n;
    Times(q + 1, d, n);
    Times(d + 1, q, n);
  }

  lemma {:induction false} Times(a: nat, b: nat, n: nat)
    ensures a <= b ==> a * n <= b * n
  {
  }

  // ---------- evicting and installing ----------

  /** Put an entry for a key that no other entry holds in place of an unmodified one. */
  lemma {:induction false} InstallOk<D>(c: Cache<D>, v: nat, e: Entry<D>, c1: Cache<D>)
    requires CacheOk(c) && v < |c.entries| && c1 == c.(entries := c.entries[v := e], devs := c1.devs)
    requires c1.devs.Keys == c.devs.Keys
    requires forall d :: d in c.devs ==>
             c1.devs[d].blocks == c.devs[d].blocks && c1.devs[d].blockSize == c.devs[d].blockSize
    requires EntryOk(c1, e)
    requires e.valid ==> forall k :: 0 <= k < |c.entries| && k != v ==> !Holds(c.entries[k], e.dev, e.lba)
    ensures CacheOk(c1)
  {
    forall d | d in c1.devs ensures DevOk(c1.devs[d]) { assert DevOk(c.devs[d]); }
    forall i | 0 <= i < |c1.entries| ensures EntryOk(c1, c1.entries[i]) {
      if i != v { assert EntryOk(c, c.entries[i]); }
    }
    forall i, j | 0 <= i < j < |c1.entries| && c1.entries[i].valid
      ensures !Holds(c1.entries[j], c1.entries[i].dev, c1.entries[i].lba)
    {
      if i != v && j != v { assert !Holds(c.entries[j], c.entries[i].dev, c.entries[i].lba); }
    }
  }

  /** What the view of a key is once the unmodified entry v has been replaced by e. */
  lemma {:induction false} InstallView<D>(c: Cache<D>, v: nat, e: Entry<D>, c1: Cache<D>, d: D, lba: nat)
    requires CacheOk(c) && CacheOk(c1) && v < |c.entries| && c1.entries == c.entries[v := e]
             && c1.devs.Keys == c.devs.Keys && d in c.devs
    requires forall x :: x in c.devs ==> c1.devs[x].blocks == c.devs[x].blocks
    requires !c.entries[v].dirty
    ensures View(c1, d, lba) == if Holds(e, d, lba) then Some(e.data) else View(c, d, lba)
  {
    hide CacheOk, EntryOk, DevOk;
    if Holds(e, d, lba) {
      FindIs(c1, d, lba, v);
    } else {
      var r := Find(c.entries, d, lba, 0);
      if r < |c.entries| && r != v {
        FindIs(c1, d, lba, r);
      } else {
        forall k | 0 <= k < |c1.entries| ensures !Holds(c1.entries[k], d, lba) {
          if k != v && Holds(c.entries[k], d, lba) { FindIs(c, d, lba, k); }
        }
        FindNone(c1.entries, d, lba);
        if r == v { CleanMatches(c, v); }
      }
    }
  }

  lemma {:induction false} CleanMatches<D>(c: Cache<D>, v: nat)
    requires CacheOk(c) && v < |c.entries| && c.entries[v].valid && !c.entries[v].dirty
    ensures var e := c.entries[v]; e.dev in c.devs && OnDevice(c.devs[e.dev], e.lba) == Some(e.data)
  {
    assert EntryOk(c, c.entries[v]);
  }

  // ---------- read ----------

  lemma {:induction false} ReadBlockKeeps(d: Dev, lba: nat)
    ensures var (e, st, data) := ReadBlock(d, lba);
            && e.blocks == d.blocks && e.blockSize == d.blockSize
            && (st == Ok ==> lba < |d.blocks| && data == d.blocks[lba])
            && (st == Range <==> lba >= |d.blocks|) && st != Inval
  {
  }

  lemma {:induction false} LoadKeeps<D>(c: Cache<D>, dev: D, lba: nat, v: nat)
    requires CacheOk(c) && dev in c.devs && c.devs[dev].blockSize == c.blockSize && v < |c.entries|
             && !c.entries[v].dirty
    requires forall k :: 0 <= k < |c.entries| ==> !Holds(c.entries[k], dev, lba)
    ensures var (c1, st, data) := Load(c, dev, lba, v);
            CacheOk(c1) && SameView(c, c1) && (st == Ok ==> View(c, dev, lba) == Some(data))
              && (st == Range <==> View(c, dev, lba) == None)
  {
    hide CacheOk, ReadBlock, DevOk, View;
    var (c1, st, data) := Load(c, dev, lba, v);
    ReadBlockKeeps(c.devs[dev], lba);
    var e := c1.entries[v];
    NewEntryOk(c, dev, lba, v);
    InstallOk(c, v, e, c1);
    NoneView(c, dev, lba);
    forall d, l | d in c.devs ensures View(c1, d, l) == View(c, d, l) {
      InstallView(c, v, e, c1, d, l);
      assert Holds(e, d, l) ==> d == dev && l == lba;
    }
  }

  lemma {:induction false} NoneView<D>(c: Cache<D>, dev: D, lba: nat)
    requires dev in c.devs && forall k :: 0 <= k < |c.entries| ==> !Holds(c.entries[k], dev, lba)
    ensures View(c, dev, lba) == OnDevice(c.devs[dev], lba)
  {
    FindNone(c.entries, dev, lba);
  }

  lemma {:induction false} NewEntryOk<D>(c: Cache<D>, dev: D, lba: nat, v: nat)
    requires CacheOk(c) && dev in c.devs && c.devs[dev].blockSize == c.blockSize && v < |c.entries|
             && !c.entries[v].dirty
    ensures var c1 := Load(c, dev, lba, v).0; EntryOk(c1, c1.entries[v])
  {
    hide ReadBlock;
    ReadBlockKeeps(c.devs[dev], lba);
    assert DevOk(c.devs[dev]);
    assert EntryOk(c, c.entries[v]);
  }

  /**
   A read changes nothing a user can see, and when it succeeds it returns the visible block.
   A block that is neither cached nor on the device is never delivered.
   */
  lemma {:induction false} ReadRefines<D>(c: Cache<D>, dev: D, lba: nat)
    requires CacheOk(c) && dev in c.devs
    ensures Known(c)
    ensures var (c1, st, data) := Read(c, dev, lba);
            && CacheOk(c1) && SameView(c, c1)
            && (st == Ok ==> View(c, dev, lba) == Some(data))
            && (st == Inval <==> c.blockSize != c.devs[dev].blockSize)
  {
    hide CacheOk, SameView, SelectVictim, Load, View;
    OkKnown(c);
    SameViewRefl(c);
    var i := Find(c.entries, dev, lba, 0);
    if c.blockSize == c.devs[dev].blockSize {
      if i < |c.entries| {
        HitView(c, dev, lba);
      } else {
        SelectKeeps(c);
        SelectStatus(c);
        var (c1, st, v) := SelectVictim(c);
        if st == Ok {
          MissStays(c, c1, dev, lba);
          LoadKeeps(c1, dev, lba, v);
          ViewSame(c, c1, dev, lba);
          LoadStatus(c1, dev, lba, v);
          SameViewTrans(c, c1, Load(c1, dev, lba, v).0);
        }
      }
    }
  }

  lemma {:induction false} ViewSame<D>(a: Cache<D>, b: Cache<D>, d: D, lba: nat)
    requires SameView(a, b) && d in a.devs
    ensures d in b.devs && View(b, d, lba) == View(a, d, lba)
  {
    hide View;
  }

  lemma {:induction false} SameViewRefl<D>(c: Cache<D>)
    ensures SameView(c, c)
  {
    hide View;
  }

  lemma {:induction false} HitView<D>(c: Cache<D>, dev: D, lba: nat)
    requires dev in c.devs && Find(c.entries, dev, lba, 0) < |c.entries|
    ensures View(c, dev, lba) == Some(c.entries[Find(c.entries, dev, lba, 0)].data)
  {
  }

  lemma {:induction false} LoadStatus<D>(c: Cache<D>, dev: D, lba: nat, v: nat)
    requires dev in c.devs && v < |c.entries|
    ensures Load(c, dev, lba, v).1 != Inval
  {
  }

  lemma {:induction false} SelectStatus<D>(c: Cache<D>)
    requires Known(c)
    ensures SelectVictim(c).1 != Inval
  {
  }

  /** Choosing a victim does not make a key appear, and leaves device sizes alone. */
  lemma {:induction false} MissStays<D>(c: Cache<D>, c1: Cache<D>, dev: D, lba: nat)
    requires dev in c.devs && SameView(c, c1) && Find(c.entries, dev, lba, 0) == |c.entries|
    requires forall j :: 0 <= j < |c.entries| ==> c1.entries[j].(dirty := false) == c.entries[j].(dirty := false)
    ensures dev in c1.devs && c1.devs[dev].blockSize == c.devs[dev].blockSize && c1.blockSize == c.blockSize
    ensures |c1.entries| == |c.entries| && forall k :: 0 <= k < |c1.entries| ==> !Holds(c1.entries[k], dev, lba)
  {
    hide View;
    forall k | 0 <= k < |c1.entries| ensures !Holds(c1.entries[k], dev, lba) {
      assert !Holds(c.entries[k], dev, lba);
      assert c1.entries[k].(dirty := false) == c.entries[k].(dirty := false);
    }
  }

  // ---------- write ----------

  /** What a user sees after block `lba` of `dev` has become `data`. */
  ghost predicate Updated<D>(a: Cache<D>, b: Cache<D>, dev: D, lba: nat, data: seq<byte>) {
    && b.blockSize == a.blockSize && |b.entries| == |a.entries| && b.devs.Keys == a.devs.Keys
    && (forall d :: d in a.devs ==>
          b.devs[d].blockSize == a.devs[d].blockSize && |b.devs[d].blocks| == |a.devs[d].blocks|)
    && (forall d, l :: d in a.devs ==> View(b, d, l) == if d == dev && l == lba then Some(data) else View(a, d, l))
  }

  lemma {:induction false} StoreKeeps<D>(c: Cache<D>, dev: D, lba: nat, v: nat, data: seq<byte>)
    requires CacheOk(c) && dev in c.devs && c.devs[dev].blockSize == c.blockSize == |data| && v < |c.entries|
    requires Holds(c.entries[v], dev, lba) || !c.entries[v].dirty
    requires forall k :: 0 <= k < |c.entries| && k != v ==> !Holds(c.entries[k], dev, lba)
    ensures var c1 := c.(entries := c.entries[v := Entry(true, true, dev, lba, data)]);
            CacheOk(c1) && Updated(c, c1, dev, lba, data)
  {
    hide CacheOk, DevOk, View;
    var e := Entry(true, true, dev, lba, data);
    var c1 := c.(entries := c.entries[v := e]);
    InstallOk(c, v, e, c1);
    forall d, l | d in c.devs ensures View(c1, d, l) == if d == dev && l == lba then Some(data) else View(c, d, l) {
      StoreView(c, c1, v, e, d, l);
    }
  }

  lemma {:induction false} StoreView<D>(c: Cache<D>, c1: Cache<D>, v: nat, e: Entry<D>, d: D, l: nat)
    requires CacheOk(c) && v < |c.entries| && c1 == c.(entries := c.entries[v := e]) && CacheOk(c1) && d in c.devs
             && e.valid
    requires Holds(c.entries[v], e.dev, e.lba) || !c.entries[v].dirty
    ensures View(c1, d, l) == if d == e.dev && l == e.lba then Some(e.data) else View(c, d, l)
  {
    hide CacheOk, EntryOk, DevOk;
    if Holds(e, d, l) {
      FindIs(c1, d, l, v);
    } else if !c.entries[v].dirty {
      InstallView(c, v, e, c1, d, l);
    } else {
      SameKeyFind(c.entries, v, e, d, l, 0);
    }
  }

  lemma {:induction false} SameKeyFind<D>(es: seq<Entry<D>>, v: nat, e: Entry<D>, d: D, l: nat, i: nat)
    requires v < |es| && !Holds(e, d, l) && !Holds(es[v], d, l) && i <= |es|
    ensures Find(es[v := e], d, l, i) == Find(es, d, l, i) != v
    decreases |es| - i
  {
    if i < |es| { SameKeyFind(es, v, e, d, l, i + 1); }
  }

  /** A successful write changes exactly one visible block; a failed one changes none. */
  lemma {:induction false} WriteRefines<D>(c: Cache<D>, dev: D, lba: nat, data: seq<byte>)
    requires CacheOk(c) && dev in c.devs && |data| == c.blockSize
    ensures Known(c)
    ensures var (c1, st) := Write(c, dev, lba, data);
            && CacheOk(c1)
            && (if st == Ok then Updated(c, c1, dev, lba, data) else SameView(c, c1))
            && (st == Inval <==> c.blockSize != c.devs[dev].blockSize)
  {
    hide CacheOk, SameView, SelectVictim, Updated;
    OkKnown(c);
    SameViewRefl(c);
    var i := Find(c.entries, dev, lba, 0);
    if c.blockSize == c.devs[dev].blockSize {
      if i < |c.entries| {
        forall k | 0 <= k < |c.entries| && k != i ensures !Holds(c.entries[k], dev, lba) {
          if Holds(c.entries[k], dev, lba) { FindIs(c, dev, lba, k); }
        }
        StoreKeeps(c, dev, lba, i, data);
      } else {
        SelectKeeps(c);
        SelectStatus(c);
        var (c1, st, v) := SelectVictim(c);
        if st == Ok {
          MissStays(c, c1, dev, lba);
          StoreKeeps(c1, dev, lba, v, data);
          UpdatedAfter(c, c1, c1.(entries := c1.entries[v := Entry(true, true, dev, lba, data)]), dev, lba, data);
        }
      }
    }
  }

  lemma {:induction false} UpdatedAfter<D>(a: Cache<D>, b: Cache<D>, c: Cache<D>, dev: D, lba: nat, data: seq<byte>)
    requires SameView(a, b) && Updated(b, c, dev, lba, data)
    ensures Updated(a, c, dev, lba, data)
  {
    hide View;
    forall d, l | d in a.devs ensures View(c, d, l) == if d == dev && l == lba then Some(data) else View(a, d, l) {
      assert View(b, d, l) == View(a, d, l);
    }
  }

  // ---------- flush ----------

  /** Every device holds what the user sees and no entry is modified. */
  ghost predicate Settled<D>(c: Cache<D>) {
    && (forall i :: 0 <= i < |c.entries| ==> !c.entries[i].dirty)
    && (forall d, lba :: d in c.devs ==> View(c, d, lba) == OnDevice(c.devs[d], lba))
  }

  lemma {:induction false} FlushAllKeeps<D>(c: Cache<D>, i: nat)
    requires CacheOk(c) && Known(c) && i <= |c.entries| && forall k :: 0 <= k < i ==> !c.entries[k].dirty
    ensures var (c1, st) := FlushAll(c, i);
            CacheOk(c1) && SameView(c, c1) && (st == Ok ==> forall k :: 0 <= k < |c1.entries| ==> !c1.entries[k].dirty)
    decreases |c.entries| - i
  {
    hide CacheOk, SameView, FlushEntry;
    SameViewRefl(c);
    if i < |c.entries| {
      FlushEntryKeeps(c, i);
      var (c1, st) := FlushEntry(c, i);
      if st == Ok {
        OkKnown(c1);
        FlushAllKeeps(c1, i + 1);
        SameViewTrans(c, c1, FlushAll(c1, i + 1).0);
      }
    }
  }

  /** flush_all is invisible to users; when it reports success the devices hold exactly what they see. */
  lemma {:induction false} FlushAllRefines<D>(c: Cache<D>)
    requires CacheOk(c)
    ensures Known(c)
    ensures var (c1, st) := FlushAll(c, 0); CacheOk(c1) && SameView(c, c1) && (st == Ok ==> Settled(c1))
  {
    hide SameView, FlushAll, View, EntryOk, DevOk;
    OkKnown(c);
    FlushAllKeeps(c, 0);
    var (c1, st) := FlushAll(c, 0);
    if st == Ok {
      forall d, lba | d in c1.devs ensures View(c1, d, lba) == OnDevice(c1.devs[d], lba) { CleanView(c1, d, lba); }
    }
  }

  lemma {:induction false} CleanView<D>(c: Cache<D>, d: D, lba: nat)
    requires CacheOk(c) && d in c.devs && forall i :: 0 <= i < |c.entries| ==> !c.entries[i].dirty
    ensures View(c, d, lba) == OnDevice(c.devs[d], lba)
  {
    hide CacheOk;
    var r := Find(c.entries, d, lba, 0);
    if r < |c.entries| { CleanMatches(c, r); }
  }
}
