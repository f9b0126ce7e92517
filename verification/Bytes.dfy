/**
 Bytes, 512-byte blocks, little-endian fields and bitmaps: the raw material both
 on-disk formats are made of. A struct member is a little-endian slice of a block,
 a struct assignment or memcpy is a splice of one.
 */
module Bytes {

  type byte = x: int | 0 <= x < 256

  /** One disk sector. */
  type Block = s: seq<byte> | |s| == 512 witness seq(512, i => 0)

  function Zeros(n: nat): (s: seq<byte>)
    ensures |s| == n && forall i :: 0 <= i < n ==> s[i] == 0
  {
    seq(n, i => 0)
  }

  function ZeroBlock(): (b: Block)
    ensures b == Zeros(512)
  {
    Zeros(512)
  }

  // ---------- little-endian integers ----------

  function Pow256(n: nat): (p: nat)
    ensures p > 0
  {
    if n == 0 then 1 else 256 * Pow256(n - 1)
  }

  function Decode(s: seq<byte>): nat {
    if s == [] then 0 else s[0] + 256 * Decode(s[1..])
  }

  function Encode(v: nat, n: nat): (s: seq<byte>)
    ensures |s| == n
  {
    if n == 0 then [] else [v % 256] + Encode(v / 256, n - 1)
  }

  /** Storing a value that fits and loading it back is the identity. */
  lemma {:induction false} DecodeEncode(v: nat, n: nat)
    requires v < Pow256(n)
    ensures Decode(Encode(v, n)) == v
  {
    if n > 0 {
      DecodeEncode(v / 256, n - 1);
      assert Encode(v, n)[1..] == Encode(v / 256, n - 1);
    }
  }

  lemma {:induction false} DecodeZeros(n: nat)
    ensures Decode(Zeros(n)) == 0
  {
    if n > 0 {
      DecodeZeros(n - 1);
      assert Zeros(n)[1..] == Zeros(n - 1);
    }
  }

  lemma {:induction false} Pow256Values()
    ensures Pow256(1) == 0x100 && Pow256(2) == 0x1_0000 && Pow256(4) == 0x1_0000_0000
    ensures Pow256(8) == 0x1_0000_0000_0000_0000
  {
    assert Pow256(3) == 0x100_0000;
    assert Pow256(4) == 0x1_0000_0000;
    assert Pow256(5) == 256 * Pow256(4);
    assert Pow256(6) == 256 * Pow256(5);
    assert Pow256(7) == 256 * Pow256(6);
  }

  // ---------- slices and splices ----------

  /** memcpy(s + off, x, |x|). */
  function Splice(s: seq<byte>, off: nat, x: seq<byte>): (r: seq<byte>)
    requires off + |x| <= |s|
    ensures |r| == |s|
    ensures forall i :: 0 <= i < |s| ==> r[i] == if off <= i < off + |x| then x[i - off] else s[i]
  {
    s[..off] + x + s[off + |x|..]
  }

  lemma {:induction false} SpliceSame(s: seq<byte>, off: nat, x: seq<byte>)
    requires off + |x| <= |s|
    ensures Splice(s, off, x)[off..off + |x|] == x
  {
    assert Splice(s, off, x)[off..off + |x|] == x;
  }

  lemma {:induction false} SpliceOther(s: seq<byte>, off: nat, x: seq<byte>, o: nat, n: nat)
    requires off + |x| <= |s| && o + n <= |s|
    requires o + n <= off || off + |x| <= o
    ensures Splice(s, off, x)[o..o + n] == s[o..o + n]
  {
    assert Splice(s, off, x)[o..o + n] == s[o..o + n];
  }

  lemma {:induction false} SliceOfSlice(s: seq<byte>, o: nat, n: nat, lo: nat, hi: nat)
    requires o + n <= |s| && lo <= hi <= n
    ensures s[o..o + n][lo..hi] == s[o + lo..o + hi]
  {
    var x, y := s[o..o + n][lo..hi], s[o + lo..o + hi];
    forall i | 0 <= i < hi - lo ensures x[i] == y[i] {
      assert x[i] == s[o..o + n][lo + i] == s[o + lo + i];
    }
  }

  /** The n-byte field at an offset. */
  function Field(s: seq<byte>, off: nat, n: nat): nat
    requires off + n <= |s|
  {
    Decode(s[off..off + n])
  }

  function SetField(s: seq<byte>, off: nat, n: nat, v: nat): (r: seq<byte>)
    requires off + n <= |s|
    ensures |r| == |s|
  {
    Splice(s, off, Encode(v, n))
  }

  lemma {:induction false} FieldSame(s: seq<byte>, off: nat, n: nat, v: nat)
    requires off + n <= |s| && v < Pow256(n)
    ensures Field(SetField(s, off, n, v), off, n) == v
  {
    SpliceSame(s, off, Encode(v, n));
    DecodeEncode(v, n);
  }

  lemma {:induction false} FieldOther(s: seq<byte>, off: nat, n: nat, v: nat, o: nat, m: nat)
    requires off + n <= |s| && o + m <= |s|
    requires o + m <= off || off + n <= o
    ensures SetField(s, off, n, v)[o..o + m] == s[o..o + m]
    ensures Field(SetField(s, off, n, v), o, m) == Field(s, o, m)
  {
    SpliceOther(s, off, Encode(v, n), o, m);
  }

  lemma {:induction false} FieldOfZeros(k: nat, off: nat, n: nat)
    requires off + n <= k
    ensures Field(Zeros(k), off, n) == 0
  {
    assert Zeros(k)[off..off + n] == Zeros(n);
    DecodeZeros(n);
  }

  // ---------- structs: several fields at increasing offsets ----------

  datatype Member = Member(off: nat, n: nat, v: nat)

  /** Members fit their widths, do not overlap and end inside `size` bytes. */
  predicate Layout(ms: seq<Member>, size: nat) {
    && (forall i :: 0 <= i < |ms| ==> ms[i].off + ms[i].n <= size && ms[i].v < Pow256(ms[i].n))
    && (forall i, j :: 0 <= i < j < |ms| ==> ms[i].off + ms[i].n <= ms[j].off)
  }

  function SetMembers(s: seq<byte>, ms: seq<Member>): (r: seq<byte>)
    requires Layout(ms, |s|)
    ensures |r| == |s|
  {
    if ms == [] then s
    else
      var m := ms[|ms| - 1];
      SetField(SetMembers(s, ms[..|ms| - 1]), m.off, m.n, m.v)
  }

  /** Bytes outside every member are untouched. */
  lemma {:induction false} MembersOther(s: seq<byte>, ms: seq<Member>, o: nat, n: nat)
    requires Layout(ms, |s|) && o + n <= |s|
    requires forall i :: 0 <= i < |ms| ==> o + n <= ms[i].off || ms[i].off + ms[i].n <= o
    ensures SetMembers(s, ms)[o..o + n] == s[o..o + n]
  {
    if ms != [] {
      var init, m := ms[..|ms| - 1], ms[|ms| - 1];
      MembersOther(s, init, o, n);
      FieldOther(SetMembers(s, init), m.off, m.n, m.v, o, n);
    }
  }

  /** Every member reads back as stored. */
  lemma {:induction false} MemberAt(s: seq<byte>, ms: seq<Member>, i: nat)
    requires Layout(ms, |s|) && i < |ms|
    ensures Field(SetMembers(s, ms), ms[i].off, ms[i].n) == ms[i].v
  {
    var init, m := ms[..|ms| - 1], ms[|ms| - 1];
    if i == |init| {
      FieldSame(SetMembers(s, init), m.off, m.n, m.v);
    } else {
      MemberAt(s, init, i);
      FieldOther(SetMembers(s, init), m.off, m.n, m.v, ms[i].off, ms[i].n);
    }
  }

  // ---------- bitmaps ----------

  /** x & (1 << k) != 0 */
  predicate TestBit(x: nat, k: nat) {
    if k == 0 then x % 2 == 1 else TestBit(x / 2, k - 1)
  }

  /** x | (1 << k) */
  function OrBit(x: nat, k: nat): nat {
    if k == 0 then x / 2 * 2 + 1 else x % 2 + 2 * OrBit(x / 2, k - 1)
  }

  /** x & ~(1 << k) */
  function AndNotBit(x: nat, k: nat): nat {
    if k == 0 then x / 2 * 2 else x % 2 + 2 * AndNotBit(x / 2, k - 1)
  }

  /** The low n bits of x ^ y */
  function Xor(x: nat, y: nat, n: nat): nat {
    if n == 0 then 0 else (x + y) % 2 + 2 * Xor(x / 2, y / 2, n - 1)
  }

  function Pow2(n: nat): (p: nat)
    ensures p > 0
  {
    if n == 0 then 1 else 2 * Pow2(n - 1)
  }

  lemma {:induction false} BitOps(x: nat, k: nat, j: nat)
    ensures TestBit(OrBit(x, k), j) <==> j == k || TestBit(x, j)
    ensures TestBit(AndNotBit(x, k), j) <==> j != k && TestBit(x, j)
  {
    OrBitAt(x, k, j);
    AndNotBitAt(x, k, j);
  }

  lemma {:induction false} OrBitAt(x: nat, k: nat, j: nat)
    ensures TestBit(OrBit(x, k), j) <==> j == k || TestBit(x, j)
  {
    if k > 0 && j > 0 {
      OrBitAt(x / 2, k - 1, j - 1);
    }
  }

  lemma {:induction false} AndNotBitAt(x: nat, k: nat, j: nat)
    ensures TestBit(AndNotBit(x, k), j) <==> j != k && TestBit(x, j)
  {
    if k > 0 && j > 0 {
      AndNotBitAt(x / 2, k - 1, j - 1);
    }
  }

  lemma {:induction false} BitOpsInRange(x: nat, k: nat, n: nat)
    requires k < n && x < Pow2(n)
    ensures OrBit(x, k) < Pow2(n) && AndNotBit(x, k) < Pow2(n)
  {
    OrInRange(x, k, n);
    AndNotInRange(x, k, n);
  }

  lemma {:induction false} Halved(x: nat, p: nat)
    requires x < 2 * p
    ensures x / 2 < p && x / 2 * 2 + 1 < 2 * p
  {
  }

  lemma {:induction false} OrInRange(x: nat, k: nat, n: nat)
    requires k < n && x < Pow2(n)
    ensures OrBit(x, k) < Pow2(n)
  {
    assert Pow2(n) == 2 * Pow2(n - 1);
    hide Pow2;
    Halved(x, Pow2(n - 1));
    if k > 0 { OrInRange(x / 2, k - 1, n - 1); }
  }

  lemma {:induction false} AndNotInRange(x: nat, k: nat, n: nat)
    requires k < n && x < Pow2(n)
    ensures AndNotBit(x, k) < Pow2(n)
  {
    assert Pow2(n) == 2 * Pow2(n - 1);
    hide Pow2;
    Halved(x, Pow2(n - 1));
    if k > 0 { AndNotInRange(x / 2, k - 1, n - 1); }
  }

  function ByteOr(x: byte, k: nat): byte
    requires k < 8
  {
    assert Pow2(8) == 256;
    BitOpsInRange(x, k, 8);
    OrBit(x, k)
  }

  function ByteAndNot(x: byte, k: nat): byte
    requires k < 8
  {
    assert Pow2(8) == 256;
    BitOpsInRange(x, k, 8);
    AndNotBit(x, k)
  }

  predicate BitOf(bm: seq<byte>, i: nat)
    requires i / 8 < |bm|
  {
    TestBit(bm[i / 8], i % 8)
  }

  function BitSet(bm: seq<byte>, i: nat): (r: seq<byte>)
    requires i / 8 < |bm|
    ensures |r| == |bm|
  {
    bm[i / 8 := ByteOr(bm[i / 8], i % 8)]
  }

  function BitClear(bm: seq<byte>, i: nat): (r: seq<byte>)
    requires i / 8 < |bm|
    ensures |r| == |bm|
  {
    bm[i / 8 := ByteAndNot(bm[i / 8], i % 8)]
  }

  /** Setting a bit sets that bit and no other. */
  lemma {:induction false} BitSetAt(bm: seq<byte>, i: nat, j: nat)
    requires i / 8 < |bm| && j / 8 < |bm|
    ensures BitOf(BitSet(bm, i), j) <==> i == j || BitOf(bm, j)
  {
    if i / 8 == j / 8 {
      BitOps(bm[i / 8], i % 8, j % 8);
    }
  }

  /** Clearing a bit clears that bit and no other. */
  lemma {:induction false} BitClearAt(bm: seq<byte>, i: nat, j: nat)
    requires i / 8 < |bm| && j / 8 < |bm|
    ensures BitOf(BitClear(bm, i), j) <==> i != j && BitOf(bm, j)
  {
    if i / 8 == j / 8 {
      BitOps(bm[i / 8], i % 8, j % 8);
    }
  }

  /** The first clear bit at or after lo, or hi when there is none below it. */
  function FirstClear(bm: seq<byte>, lo: nat, hi: nat): (r: nat)
    requires lo <= hi && (hi + 7) / 8 <= |bm|
    ensures lo <= r <= hi
    ensures forall k :: lo <= k < r ==> BitOf(bm, k)
    ensures r < hi ==> !BitOf(bm, r)
    decreases hi - lo
  {
    if lo == hi || !BitOf(bm, lo) then lo else FirstClear(bm, lo + 1, hi)
  }

  /** Bits 0 to k-1 set in an otherwise clear bitmap. */
  function LowBits(k: nat): Block
    requires k <= 4096
  {
    if k == 0 then ZeroBlock() else BitSet(LowBits(k - 1), k - 1)
  }

  lemma {:induction false} LowBitsAt(k: nat, x: nat)
    requires k <= 4096 && x < 4096
    ensures BitOf(LowBits(k), x) <==> x < k
  {
    hide BitOf, BitSet;
    if k > 0 {
      LowBitsAt(k - 1, x);
      BitSetAt(LowBits(k - 1), k - 1, x);
    } else {
      ZeroBit(x);
    }
  }

  lemma {:induction false} ZeroBit(x: nat)
    requires x < 4096
    ensures !BitOf(ZeroBlock(), x)
  {
    NoBit(x % 8);
  }

  lemma {:induction false} NoBit(k: nat)
    ensures !TestBit(0, k)
  {
    if k > 0 { NoBit(k - 1); }
  }

  // ---------- NUL-terminated names ----------

  /** The characters of a C string, terminator excluded. */
  predicate CString(s: seq<byte>) {
    forall i :: 0 <= i < |s| ==> s[i] != 0
  }

  function CharAt(s: seq<byte>, i: nat): byte {
    if i < |s| then s[i] else 0
  }

  /** A name stored in a fixed-width field: the characters, then zeros. */
  function Padded(name: seq<byte>, width: nat): (r: seq<byte>)
    requires |name| <= width
    ensures |r| == width
  {
    name + Zeros(width - |name|)
  }

  /** Index of the first zero at or after i, or the width when there is none. */
  function StrLen(a: seq<byte>, i: nat): (n: nat)
    requires i <= |a|
    ensures i <= n <= |a|
    ensures forall k :: i <= k < n ==> a[k] != 0
    ensures n < |a| ==> a[n] == 0
    decreases |a| - i
  {
    if i == |a| || a[i] == 0 then i else StrLen(a, i + 1)
  }

  function NameOf(a: seq<byte>): (n: seq<byte>)
    ensures CString(n) && |n| <= |a|
  {
    a[..StrLen(a, 0)]
  }

  lemma {:induction false} NameOfPadded(name: seq<byte>, width: nat)
    requires CString(name) && |name| < width
    ensures NameOf(Padded(name, width)) == name
  {
    var p := Padded(name, width);
    var n := StrLen(p, 0);
    assert p[|name|] == 0;
    assert n == |name|;
  }
}
