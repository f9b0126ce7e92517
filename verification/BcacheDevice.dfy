/**
 The imperative form of kernel/block/bcache.c: an array of entries and a clock hand over
 RAM disks, each method proved equal to its specification function.
 */
module BcacheDevice {
  import opened Bytes
  import opened Bcache
  import opened BcacheProps
  import opened BcacheRuns
  import opened RamBlk

  type CacheEntry = Entry<RamDisk?>

  class BlockCache {
    const entries: array<CacheEntry>
    const blockSize: nat
    var hand: nat
    /** The devices reached through this cache. */
    ghost const devices: set<RamDisk>

    /** Each device is well formed and has its own storage. */
    ghost predicate Valid() {
      && entries.Length > 0
      && (forall d :: d in devices ==> d.Valid())
      && (forall d, e :: d in devices && e in devices && d != e ==> d.storage != e.storage)
    }

    ghost function Model(): Cache<RamDisk?>
      requires Valid()
      reads this, entries, devices, set d | d in devices :: d.storage
    {
      Cache(blockSize, entries[..], hand, map d: RamDisk | d in devices :: d.Model())
    }

    /** The assignments of mcsos_bcache_init, once its arguments have been checked */
    constructor (entryCount: nat, blockSize: nat, ghost devices: set<RamDisk>)
      requires entryCount > 0 && forall d :: d in devices ==> d.Valid()
      requires forall d, e :: d in devices && e in devices && d != e ==> d.storage != e.storage
      ensures Valid() && fresh(entries) && this.devices == devices
      ensures Fresh(Model()) && CacheOk(Model()) && Model().blockSize == blockSize && |Model().entries| == entryCount
    {
      var e: CacheEntry := Entry(false, false, null, 0, []);
      entries := new CacheEntry[entryCount](i => e);
      this.blockSize := blockSize;
      hand := 0;
      this.devices := devices;
      new;
      FreshOk(Model());
    }

    // ---------- one field or one device at a time ----------

    /** The map of device states, apart from the rest. */
    ghost function Devs(): map<RamDisk?, Dev>
      requires Valid()
      reads devices, set d | d in devices :: d.storage
    {
      map d: RamDisk | d in devices :: d.Model()
    }

    method SetEntry(i: nat, e: CacheEntry)
      requires Valid() && i < entries.Length
      modifies entries
      ensures Model() == old(Model()).(entries := old(Model()).entries[i := e])
    {
      ghost var m := Devs();
      entries[i] := e;
      assert Devs() == m;
    }

    method SetHand(h: nat)
      requires Valid()
      modifies this`hand
      ensures Model() == old(Model()).(hand := h)
    {
      ghost var m := Devs();
      hand := h;
      assert Devs() == m;
    }

    /** mcsos_blk_write on one of the devices */
    method DeviceWrite(dev: RamDisk, lba: nat, data: seq<byte>) returns (st: Status)
      requires Valid() && dev in devices && |data| == dev.blockSize
      modifies devices, set d | d in devices :: d.storage
      ensures var (d, s) := WriteBlock(old(Model()).devs[dev], lba, data);
              st == s && Model() == old(Model()).(devs := old(Model()).devs[dev := d])
    {
      hide WriteBlock, RamDisk.Model;
      ghost var m := Devs();
      st := dev.WriteOne(lba, data);
      assert Devs() == m[dev := WriteBlock(m[dev], lba, data).0];
    }

    /** mcsos_blk_read on one of the devices */
    method DeviceRead(dev: RamDisk, lba: nat) returns (st: Status, data: seq<byte>)
      requires Valid() && dev in devices
      modifies devices, set d | d in devices :: d.storage
      ensures var (d, s, x) := ReadBlock(old(Model()).devs[dev], lba);
              st == s && data == x && Model() == old(Model()).(devs := old(Model()).devs[dev := d])
    {
      hide ReadBlock, RamDisk.Model;
      ghost var m := Devs();
      st, data := dev.ReadOne(lba);
      assert Devs() == m[dev := ReadBlock(m[dev], lba).0];
    }

    // ---------- the cache ----------

    /** mcsos_bcache_find: index of the entry, or the number of entries */
    method FindEntry(dev: RamDisk, lba: nat) returns (i: nat)
      requires Valid()
      ensures i == Find(Model().entries, dev, lba, 0)
    {
      i := 0;
      while i < entries.Length
        invariant i <= entries.Length && Find(entries[..], dev, lba, 0) == Find(entries[..], dev, lba, i)
      {
        var e := entries[i];
        if e.valid && e.dev == dev && e.lba == lba { return; }
        i := i + 1;
      }
    }

    /** mcsos_bcache_flush_entry */
    method FlushOne(i: nat) returns (st: Status)
      requires Valid() && CacheOk(Model()) && i < entries.Length
      modifies this, entries, devices, set d | d in devices :: d.storage
      ensures CacheOk(Model()) && Known(old(Model())) && (Model(), st) == FlushEntry(old(Model()), i)
    {
      hide View, WriteBlock, DevOk;
      ghost var c := Model();
      FlushEntryKeeps(c, i);
      var e := entries[i];
      if !e.valid || !e.dirty { return Ok; }
      assert EntryOk(c, c.entries[i]);
      st := DeviceWrite(e.dev, e.lba, e.data);
      if st != Ok { return; }
      SetEntry(i, e.(dirty := false));
    }

    /** mcsos_bcache_select_victim */
    method ChooseVictim() returns (st: Status, v: nat)
      requires Valid() && CacheOk(Model())
      modifies this, entries, devices, set d | d in devices :: d.storage
      ensures CacheOk(Model()) && Known(old(Model())) && (Model(), st, v) == SelectVictim(old(Model()))
    {
      hide CacheOk, FlushEntry, SameView, View, RamDisk.Model, RamDisk.Valid;
      ghost var c := Model();
      SelectKeeps(c);
      var n := entries.Length;
      var start, pass := hand % n, 0;
      while pass < n
        invariant 0 <= pass <= n && Model() == c
        invariant Unused(c.entries, start, 0) == Unused(c.entries, start, pass)
      {
        var idx := (start + pass) % n;
        assert idx == At(start, pass, n);
        if !entries[idx].valid {
          SetHand(idx + 1);
          return Ok, idx;
        }
        pass := pass + 1;
      }
      SetHand(start + 1);
      HandMoves(c, start + 1);
      st := FlushOne(start);
      v := start;
    }

    /** mcsos_bcache_read */
    method CachedRead(dev: RamDisk, lba: nat) returns (st: Status, out: seq<byte>)
      requires Valid() && CacheOk(Model()) && dev in devices
      modifies this, entries, devices, set d | d in devices :: d.storage
      ensures CacheOk(Model()) && Known(old(Model())) && (Model(), st, out) == Read(old(Model()), dev, lba)
    {
      hide CacheOk, SelectVictim, ReadBlock, View, SameView, RamDisk.Model, RamDisk.Valid;
      ghost var c := Model();
      ReadRefines(c, dev, lba);
      out := [];
      if blockSize != dev.blockSize { return Inval, out; }
      var i := FindEntry(dev, lba);
      if i == entries.Length {
        st, i := ChooseVictim();
        if st != Ok { return; }
        var data;
        st, data := DeviceRead(dev, lba);
        if st != Ok {
          SetEntry(i, entries[i].(valid := false));
          return;
        }
        SetEntry(i, Entry(true, false, dev, lba, data));
      }
      return Ok, entries[i].data;
    }

    /** mcsos_bcache_write */
    method CachedWrite(dev: RamDisk, lba: nat, buffer: seq<byte>) returns (st: Status)
      requires Valid() && CacheOk(Model()) && dev in devices && |buffer| == blockSize
      modifies this, entries, devices, set d | d in devices :: d.storage
      ensures CacheOk(Model()) && Known(old(Model())) && (Model(), st) == Write(old(Model()), dev, lba, buffer)
    {
      hide CacheOk, SelectVictim, View, SameView, Updated, RamDisk.Model, RamDisk.Valid;
      ghost var c := Model();
      WriteRefines(c, dev, lba, buffer);
      if blockSize != dev.blockSize { return Inval; }
      var i := FindEntry(dev, lba);
      ghost var c1 := c;
      if i == entries.Length {
        st, i := ChooseVictim();
        if st != Ok { return; }
        c1 := Model();
        SetEntry(i, Entry(true, false, dev, lba, entries[i].data));
      }
      SetEntry(i, entries[i].(data := buffer, dirty := true));
      assert Model().entries == c1.entries[i := Entry(true, true, dev, lba, buffer)];
      return Ok;
    }

    /** mcsos_bcache_flush_all */
    method FlushEverything() returns (st: Status)
      requires Valid() && CacheOk(Model())
      modifies this, entries, devices, set d | d in devices :: d.storage
      ensures CacheOk(Model()) && Known(old(Model())) && (Model(), st) == FlushAll(old(Model()), 0)
    {
      hide CacheOk, FlushEntry, View;
      ghost var c := Model();
      OkKnown(c);
      var i := 0;
      while i < entries.Length
        invariant 0 <= i <= entries.Length && CacheOk(Model()) && Known(Model())
        invariant FlushAll(c, 0) == FlushAll(Model(), i)
      {
        st := FlushOne(i);
        if st != Ok { return; }
        OkKnown(Model());
        i := i + 1;
      }
      return Ok;
    }
  }

  /** mcsos_bcache_init: refuses an empty cache and an empty block. */
  method InitCache(entryCount: nat, blockSize: nat, ghost devices: set<RamDisk>)
      returns (st: Status, cache: BlockCache?)
    requires forall d :: d in devices ==> d.Valid()
    requires forall d, e :: d in devices && e in devices && d != e ==> d.storage != e.storage
    ensures st == if entryCount == 0 || blockSize == 0 then Inval else Ok
    ensures st == Ok ==>
              && cache != null && fresh(cache) && fresh(cache.entries) && cache.Valid() && cache.devices == devices
              && Fresh(cache.Model()) && cache.blockSize == blockSize && cache.entries.Length == entryCount
  {
    if entryCount == 0 || blockSize == 0 { return Inval, null; }
    cache := new BlockCache(entryCount, blockSize, devices);
    return Ok, cache;
  }
}
