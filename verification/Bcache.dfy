/**
 The write-back block cache (kernel/block/bcache.c) over the block layer (block.c), as pure
 functions. A device may fail any call: a failed write leaves anything in the one block it
 was writing, a failed read delivers nothing. Devices are told apart by an identity `D`.
 */
module Bcache {
  import opened Bytes

  datatype Status = Ok | Inval | Range | Io

  /** What the driver does with its next call: serve it, or fail it and leave `junk` in a block being written. */
  datatype Fault = Works | Fails(junk: seq<byte>)

  /** A device: its blocks and what will happen to its coming calls (served, once the list is used up). */
  datatype Dev = Dev(blockSize: nat, blocks: seq<seq<byte>>, faults: seq<Fault>)

  datatype Entry<D> = Entry(valid: bool, dirty: bool, dev: D, lba: nat, data: seq<byte>)

  datatype Cache<D> = Cache(blockSize: nat, entries: seq<Entry<D>>, hand: nat, devs: map<D, Dev>)

  datatype Option<T> = None | Some(value: T)

  // ---------- the block layer ----------

  /** mcsos_blk_validate_range */
  function ValidateRange(blockCount: nat, lba: nat, count: nat): Status {
    if count == 0 then Inval
    else if lba >= blockCount then Range
    else if count > blockCount - lba then Range
    else Ok
  }

  function NextFault(d: Dev): Fault { if d.faults == [] then Works else d.faults[0] }
  function Advance(d: Dev): Dev { if d.faults == [] then d else d.(faults := d.faults[1..]) }

  function ReadBlock(d: Dev, lba: nat): (Dev, Status, seq<byte>) {
    if ValidateRange(|d.blocks|, lba, 1) != Ok then (d, ValidateRange(|d.blocks|, lba, 1), [])
    else if NextFault(d).Fails? then (Advance(d), Io, [])
    else (Advance(d), Ok, d.blocks[lba])
  }

  function WriteBlock(d: Dev, lba: nat, data: seq<byte>): (Dev, Status) {
    if ValidateRange(|d.blocks|, lba, 1) != Ok then (d, ValidateRange(|d.blocks|, lba, 1))
    else
      match NextFault(d)
      case Works => (Advance(d).(blocks := d.blocks[lba := data]), Ok)
      case Fails(junk) =>
        (if |junk| == d.blockSize then Advance(d).(blocks := d.blocks[lba := junk]) else Advance(d), Io)
  }

  // ---------- cache operations ----------

  /** mcsos_bcache_find: the first valid entry for the key, or the number of entries. */
  function Find<D(==)>(es: seq<Entry<D>>, dev: D, lba: nat, i: nat): (r: nat)
    requires i <= |es|
    ensures i <= r <= |es|
    ensures r < |es| ==> Holds(es[r], dev, lba)
    ensures forall k :: i <= k < r ==> !Holds(es[k], dev, lba)
    decreases |es| - i
  {
    if i == |es| || Holds(es[i], dev, lba) then i else Find(es, dev, lba, i + 1)
  }

  predicate Holds<D(==)>(e: Entry<D>, dev: D, lba: nat) { e.valid && e.dev == dev && e.lba == lba }

  /** Well-typed: the cached devices are known. */
  predicate Known<D(==)>(c: Cache<D>) {
    && |c.entries| > 0
    && forall i :: 0 <= i < |c.entries| ==> c.entries[i].valid ==> c.entries[i].dev in c.devs
  }

  /** mcsos_bcache_flush_entry */
  function FlushEntry<D(==)>(c: Cache<D>, i: nat): (Cache<D>, Status)
    requires Known(c) && i < |c.entries|
  {
    var e := c.entries[i];
    if !e.valid || !e.dirty then (c, Ok)
    else
      var (d, st) := WriteBlock(c.devs[e.dev], e.lba, e.data);
      if st != Ok then (c.(devs := c.devs[e.dev := d]), st)
      else (c.(devs := c.devs[e.dev := d], entries := c.entries[i := e.(dirty := false)]), Ok)
  }

  /** The entry the clock hand reaches after `pass` steps from `start`. */
  function At(start: nat, pass: nat, n: nat): (i: nat)
    requires n > 0
    ensures i < n
  {
    (start + pass) % n
  }

  /** The scan of mcsos_bcache_select_victim: how many steps from `start` to an unused entry. */
  function Unused<D>(es: seq<Entry<D>>, start: nat, pass: nat): (p: nat)
    requires |es| > 0 && pass <= |es|
    ensures pass <= p <= |es|
    ensures p < |es| ==> !es[At(start, p, |es|)].valid
    ensures forall k :: pass <= k < p ==> es[At(start, k, |es|)].valid
    decreases |es| - pass
  {
    hide At;
    if pass == |es| || !es[At(start, pass, |es|)].valid then pass else Unused(es, start, pass + 1)
  }

  /** mcsos_bcache_select_victim */
  function SelectVictim<D(==)>(c: Cache<D>): (r: (Cache<D>, Status, nat))
    requires Known(c)
    ensures r.2 < |c.entries| == |r.0.entries|
  {
    var n := |c.entries|;
    var start := c.hand % n;
    var p := Unused(c.entries, start, 0);
    if p < n then (c.(hand := At(start, p, n) + 1), Ok, At(start, p, n))
    else
      var (c1, st) := FlushEntry(c.(hand := start + 1), start);
      (c1, st, start)
  }

  /** mcsos_bcache_read */
  function Read<D(==)>(c: Cache<D>, dev: D, lba: nat): (Cache<D>, Status, seq<byte>)
    requires Known(c) && dev in c.devs
  {
    if c.blockSize != c.devs[dev].blockSize then (c, Inval, [])
    else
      var i := Find(c.entries, dev, lba, 0);
      if i < |c.entries| then (c, Ok, c.entries[i].data)
      else
        var (c1, st, v) := SelectVictim(c);
        if st != Ok then (c1, st, [])
        else Load(c1, dev, lba, v)
  }

  /** A miss: read the block into the victim, which stays unused if that fails. */
  function Load<D(==)>(c: Cache<D>, dev: D, lba: nat, v: nat): (Cache<D>, Status, seq<byte>)
    requires dev in c.devs && v < |c.entries|
  {
    var (d, st, data) := ReadBlock(c.devs[dev], lba);
    if st != Ok then (c.(devs := c.devs[dev := d], entries := c.entries[v := c.entries[v].(valid := false)]), st, [])
    else (c.(devs := c.devs[dev := d], entries := c.entries[v := Entry(true, false, dev, lba, data)]), Ok, data)
  }

  /** mcsos_bcache_write */
  function Write<D(==)>(c: Cache<D>, dev: D, lba: nat, data: seq<byte>): (Cache<D>, Status)
    requires Known(c) && dev in c.devs
  {
    if c.blockSize != c.devs[dev].blockSize then (c, Inval)
    else
      var i := Find(c.entries, dev, lba, 0);
      if i < |c.entries| then (c.(entries := c.entries[i := Entry(true, true, dev, lba, data)]), Ok)
      else
        var (c1, st, v) := SelectVictim(c);
        if st != Ok then (c1, st)
        else (c1.(entries := c1.entries[v := Entry(true, true, dev, lba, data)]), Ok)
  }

  /** mcsos_bcache_flush_all: entry after entry, stopping at the first failure. */
  function FlushAll<D(==)>(c: Cache<D>, i: nat): (Cache<D>, Status)
    requires Known(c) && i <= |c.entries|
    decreases |c.entries| - i
  {
    if i == |c.entries| then (c, Ok)
    else
      var (c1, st) := FlushEntry(c, i);
      if st != Ok then (c1, st) else FlushAll(c1, i + 1)
  }

  // ---------- what the cache means ----------

  predicate DevOk(d: Dev) {
    forall i :: 0 <= i < |d.blocks| ==> |d.blocks[i]| == d.blockSize
  }

  /** A used entry belongs to a device of the right block size; an unmodified one agrees with it. */
  predicate EntryOk<D(==)>(c: Cache<D>, e: Entry<D>) {
    && (e.valid ==> e.dev in c.devs && c.devs[e.dev].blockSize == c.blockSize && |e.data| == c.blockSize)
    && (e.valid && !e.dirty ==> e.lba < |c.devs[e.dev].blocks| && e.data == c.devs[e.dev].blocks[e.lba])
    && (!e.valid ==> !e.dirty)
  }

  predicate CacheOk<D(==)>(c: Cache<D>) {
    && |c.entries| > 0 && c.hand <= |c.entries|
    && (forall d :: d in c.devs ==> DevOk(c.devs[d]))
    && (forall i :: 0 <= i < |c.entries| ==> EntryOk(c, c.entries[i]))
    && (forall i, j :: 0 <= i < j < |c.entries| && c.entries[i].valid ==>
          !Holds(c.entries[j], c.entries[i].dev, c.entries[i].lba))
  }

  /** The block a user of the cache sees: the cached one if there is one, else the device's, if it has one. */
  function View<D(==)>(c: Cache<D>, dev: D, lba: nat): Option<seq<byte>>
    requires dev in c.devs
  {
    var i := Find(c.entries, dev, lba, 0);
    if i < |c.entries| then Some(c.entries[i].data) else OnDevice(c.devs[dev], lba)
  }

  function OnDevice(d: Dev, lba: nat): Option<seq<byte>> {
    if lba < |d.blocks| then Some(d.blocks[lba]) else None
  }

  /** Nothing a user can see has changed. */
  ghost predicate SameView<D>(a: Cache<D>, b: Cache<D>) {
    && b.blockSize == a.blockSize && |b.entries| == |a.entries| && b.devs.Keys == a.devs.Keys
    && (forall d :: d in a.devs ==>
          b.devs[d].blockSize == a.devs[d].blockSize && |b.devs[d].blocks| == |a.devs[d].blocks|)
    && (forall d, lba :: d in a.devs ==> View(b, d, lba) == View(a, d, lba))
  }
}
