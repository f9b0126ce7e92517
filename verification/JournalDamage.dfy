/**
 What the journal's checksum is good for: it is FNV-1a, each of its steps can be undone, and so
 no damage to a single byte of a committed header or of a logged payload goes unnoticed.
 */
module JournalDamage {
  import opened Bytes
  import opened Journal
  import opened JournalReplies

  // ---------- one step can be undone ----------

  lemma {:induction false} XorTwice(x: nat, y: nat, n: nat)
    requires x < Pow2(n)
    ensures Xor(Xor(x, y, n), y, n) == x
  {
    hide Xor;
    XorStep(x, y, n);
    if n > 0 {
      var w := Xor(x / 2, y / 2, n - 1);
      XorStep((x + y) % 2 + 2 * w, y, n);
      HalfOf((x + y) % 2, w);
      Parity(x, y, w);
      XorTwice(x / 2, y / 2, n - 1);
    }
  }

  lemma {:induction false} XorStep(x: nat, y: nat, n: nat)
    ensures Xor(x, y, n) == if n == 0 then 0 else (x + y) % 2 + 2 * Xor(x / 2, y / 2, n - 1)
  {
  }

  lemma {:induction false} HalfOf(b: nat, w: nat)
    requires b < 2
    ensures (b + 2 * w) / 2 == w
  {
  }

  lemma {:induction false} Parity(x: nat, y: nat, w: nat)
    ensures ((x + y) % 2 + 2 * w + y) % 2 == x % 2
  {
  }

  lemma {:induction false} XorFlip(x: nat, y: nat, n: nat)
    ensures Xor(x, y, n) == Xor(y, x, n)
  {
    if n > 0 { XorFlip(x / 2, y / 2, n - 1); }
  }

  lemma {:induction false} XorBound(x: nat, y: nat, n: nat)
    ensures Xor(x, y, n) < Pow2(n)
  {
    if n > 0 { XorBound(x / 2, y / 2, n - 1); }
  }

  lemma {:induction false} Pow2Of32()
    ensures Pow2(32) == 0x1_0000_0000 && Pow2(25) == 0x200_0000
  {
    assert Pow2(8) == 256;
    assert Pow2(16) == 0x1_0000;
    assert Pow2(24) == 0x100_0000;
  }

  /** Multiplying by the FNV prime is undone by multiplying by its inverse modulo 2^32. */
  lemma {:induction false} TimesPrime(x: nat)
    requires x < 0x1_0000_0000
    ensures (x * 16777619) % 0x1_0000_0000 * 899433627 % 0x1_0000_0000 == x
  {
    var q, r := x * 16777619 / 0x1_0000_0000, (x * 16777619) % 0x1_0000_0000;
    assert x * 16777619 == 0x1_0000_0000 * q + r;
    assert r * 899433627 == x + 0x1_0000_0000 * (3513497 * x - 899433627 * q);
    ModOf(r * 899433627, x, 3513497 * x - 899433627 * q);
  }

  lemma {:induction false} ModOf(y: nat, x: nat, z: int)
    requires x < 0x1_0000_0000 && y == x + 0x1_0000_0000 * z
    ensures y % 0x1_0000_0000 == x
  {
  }

  /** One step of the checksum: the state so far and the next byte. */
  function Mix(h: nat, b: nat): nat { (Xor(h, b, 32) * 16777619) % 0x1_0000_0000 }

  lemma {:induction false} MixUndone(h: nat, g: nat, b: nat, c: nat)
    requires h < 0x1_0000_0000 && g < 0x1_0000_0000 && Mix(h, b) == Mix(g, c)
    ensures Xor(h, b, 32) == Xor(g, c, 32)
  {
    hide Xor, Pow2;
    Pow2Of32();
    XorBound(h, b, 32);
    XorBound(g, c, 32);
    TimesPrime(Xor(h, b, 32));
    TimesPrime(Xor(g, c, 32));
  }

  /** Different states stay different, and different bytes make different states. */
  lemma {:induction false} MixInjective(h: nat, g: nat, b: nat, c: nat)
    requires h < 0x1_0000_0000 && g < 0x1_0000_0000 && b < 0x1_0000_0000 && c < 0x1_0000_0000 && Mix(h, b) == Mix(g, c)
    ensures b == c ==> h == g
    ensures h == g ==> b == c
  {
    hide Xor, Pow2, Mix;
    Pow2Of32();
    MixUndone(h, g, b, c);
    XorTwice(h, b, 32);
    XorTwice(g, c, 32);
    XorTwice(b, h, 32);
    XorTwice(c, g, 32);
    XorFlip(h, b, 32);
    XorFlip(g, c, 32);
  }

  // ---------- FNV-1a ----------

  lemma {:induction false} ChecksumStep(s: seq<byte>, b: byte)
    ensures Checksum(s + [b]) == Mix(Checksum(s), b)
  {
    assert (s + [b])[..|s|] == s;
  }

  /** The published values of 32-bit FNV-1a for no bytes and for the letter a. */
  lemma {:induction false} KnownValues()
    ensures Checksum([]) == 0x811C9DC5 && Checksum([0x61]) == 0xE40C292C
  {
    hide Xor;
    ChecksumStep([], 0x61);
    assert [] + [0x61] == [0x61];
    XorOfA();
  }

  lemma {:induction false} XorOfA()
    ensures Xor(0x811C9DC5, 0x61, 32) == 0x811C9DA4
  {
    hide Xor, Pow2;
    Pow2Of32();
    XorNothing(0x811C9DC5 / 0x80, 25);
    XorStep(0x811C9DC5, 0x61, 32);
    XorStep(0x811C9DC5 / 2, 0x30, 31);
    XorStep(0x811C9DC5 / 4, 0x18, 30);
    XorStep(0x811C9DC5 / 8, 0x0C, 29);
    XorStep(0x811C9DC5 / 16, 0x06, 28);
    XorStep(0x811C9DC5 / 32, 0x03, 27);
    XorStep(0x811C9DC5 / 64, 0x01, 26);
  }

  lemma {:induction false} XorNothing(x: nat, n: nat)
    requires x < Pow2(n)
    ensures Xor(x, 0, n) == x
  {
    if n > 0 { XorNothing(x / 2, n - 1); }
  }

  lemma {:induction false} TailKeepsApart(a: seq<byte>, b: seq<byte>, t: seq<byte>)
    requires Checksum(a) != Checksum(b)
    ensures Checksum(a + t) != Checksum(b + t)
    decreases |t|
  {
    hide Checksum, Mix;
    if t == [] {
      assert a + t == a && b + t == b;
    } else {
      var init, x := t[..|t| - 1], t[|t| - 1];
      TailKeepsApart(a, b, init);
      ChecksumStep(a + init, x);
      ChecksumStep(b + init, x);
      assert a + t == (a + init) + [x] && b + t == (b + init) + [x];
      if Checksum(a + t) == Checksum(b + t) { MixInjective(Checksum(a + init), Checksum(b + init), x, x); }
    }
  }

  /** Changing one byte of anything changes its checksum. */
  lemma {:induction false} OneByteShows(s: seq<byte>, i: nat, x: byte)
    requires i < |s| && x != s[i]
    ensures Checksum(s[i := x]) != Checksum(s)
  {
    hide Checksum, Mix;
    var a, t := s[..i], s[i + 1..];
    ChecksumStep(a, x);
    ChecksumStep(a, s[i]);
    if Checksum(a + [x]) == Checksum(a + [s[i]]) { MixInjective(Checksum(a), Checksum(a), x, s[i]); }
    TailKeepsApart(a + [x], a + [s[i]], t);
    assert s[i := x] == (a + [x]) + t && s == (a + [s[i]]) + t;
  }

  // ---------- damage to the journal ----------

  /** A logged record with one damaged byte in its payload is not intact. */
  lemma {:induction false} PayloadDamage(disk: Disk, i: nat, k: nat, x: byte)
    requires i < 8 && Intact(disk, i) && k < 512 && x != disk[3 + 2 * i][k]
    ensures !Intact(disk[3 + 2 * i := disk[3 + 2 * i][k := x]], i)
  {
    hide Checksum, Decode;
    OneByteShows(disk[3 + 2 * i], k, x);
  }

  lemma {:induction false} DecodeInjective(a: seq<byte>, b: seq<byte>)
    requires |a| == |b| && Decode(a) == Decode(b)
    ensures a == b
  {
    if a != [] {
      DecodeInjective(a[1..], b[1..]);
      assert a == [a[0]] + a[1..] && b == [b[0]] + b[1..];
    }
  }

  /** A changed byte inside a field changes the field; one outside does not. */
  lemma {:induction false} FieldDamage(h: Block, off: nat, n: nat, k: nat, x: byte)
    requires off + n <= 512 && k < 512 && x != h[k]
    ensures Field(h[k := x], off, n) == Field(h, off, n) <==> !(off <= k < off + n)
  {
    hide Decode;
    var d: Block := h[k := x];
    if off <= k < off + n {
      assert d[off..off + n][k - off] != h[off..off + n][k - off];
      if Decode(d[off..off + n]) == Decode(h[off..off + n]) { DecodeInjective(d[off..off + n], h[off..off + n]); }
    } else {
      assert d[off..off + n] == h[off..off + n];
    }
  }

  /** A committed header with one damaged byte, anywhere in its block, is not sealed. */
  lemma {:induction false} HeaderDamage(h: Block, k: nat, x: byte)
    requires Sealed(h) && k < 512 && x != h[k]
    ensures !Sealed(h[k := x])
  {
    hide Checksum, Field, Encode;
    var d: Block := h[k := x];
    FieldDamage(h, 24, 4, k, x);
    if 24 <= k < 28 {
      assert SetField(d, 24, 4, 0) == SetField(h, 24, 4, 0);
    } else {
      var z := SetField(h, 24, 4, 0);
      assert SetField(d, 24, 4, 0) == z[k := x] && z[k] == h[k];
      OneByteShows(z, k, x);
    }
  }

  /** So recovery of a log whose header has one damaged byte answers CORRUPT and changes nothing. */
  lemma {:induction false} HeaderDamageStops(d: Device, k: nat, x: byte)
    requires d.fuel < 0 && Sealed(d.disk[1]) && k < 512 && x != d.disk[1][k]
    ensures var o := Recover(d.(disk := d.disk[1 := d.disk[1][k := x]]));
            o.rc == Corrupt && o.dev.disk == d.disk[1 := d.disk[1][k := x]]
  {
    hide Recover, Sealed, Apply, LoggedRecs, Field;
    var e := d.(disk := d.disk[1 := d.disk[1][k := x]]);
    HeaderDamage(d.disk[1], k, x);
    NotBlank(d.disk[1], k, x);
    RecoverAnswers(e, 0);
  }

  /** One byte does not make a sealed header blank. */
  lemma {:induction false} NotBlank(h: Block, k: nat, x: byte)
    requires Sealed(h) && k < 512 && x != h[k]
    ensures !Blank(h[k := x])
  {
    hide Checksum, Field, SetField;
    FieldDamage(h, 0, 8, k, x);
    FieldDamage(h, 12, 4, k, x);
  }

  /** And one damaged byte in the payload of record i stops it there, with CORRUPT. */
  lemma {:induction false} PayloadDamageStops(d: Device, i: nat, k: nat, x: byte)
    requires d.fuel < 0 && Sealed(d.disk[1]) && !Blank(d.disk[1]) && i < Field(d.disk[1], 20, 4)
    requires (forall j :: 0 <= j <= i && j < 8 ==> Intact(d.disk, j)) && Homeward(d.disk, i)
    requires i < 8 && k < 512 && x != d.disk[3 + 2 * i][k]
    ensures var e := d.(disk := d.disk[3 + 2 * i := d.disk[3 + 2 * i][k := x]]);
            Recover(e).rc == Corrupt && Recover(e).dev.disk == Apply(e.disk, LoggedRecs(e.disk, i))
  {
    hide Recover, Sealed, Blank, Intact, Apply, LoggedRecs, Field;
    var e := d.(disk := d.disk[3 + 2 * i := d.disk[3 + 2 * i][k := x]]);
    SealedBound(d.disk[1]);
    assert Intact(d.disk, i);
    PayloadDamage(d.disk, i, k, x);
    forall j | 0 <= j < i ensures Intact(e.disk, j) { OtherRecord(d.disk, e.disk, i, j); }
    RecoverAnswers(e, i);
  }

  lemma {:induction false} OtherRecord(a: Disk, b: Disk, i: nat, j: nat)
    requires i < 8 && j < i && Intact(a, j) && forall lba :: 0 <= lba < 128 && lba != 3 + 2 * i ==> a[lba] == b[lba]
    ensures Intact(b, j)
  {
    hide Checksum, Field;
  }

  /**
   The target in a descriptor has no checksum: of the changes to one byte of a descriptor, exactly
   those outside its magic and checksum that leave the target on the device go unnoticed.
   */
  lemma {:induction false} DescriptorDamage(disk: Disk, i: nat, k: nat, x: byte)
    requires i < 8 && Intact(disk, i) && k < 512 && x != disk[2 + 2 * i][k]
    ensures var desc: Block := disk[2 + 2 * i][k := x];
            Intact(disk[2 + 2 * i := desc], i) <==> k >= 16 || (8 <= k < 12 && Field(desc, 8, 4) < 128)
  {
    hide Checksum, Field;
    FieldDamage(disk[2 + 2 * i], 0, 8, k, x);
    FieldDamage(disk[2 + 2 * i], 8, 4, k, x);
    FieldDamage(disk[2 + 2 * i], 12, 4, k, x);
  }
}
