/**
 * Little-endian accessors over the firmware byte buffer, with the exact
 * arithmetic of the configurator's JavaScript: the 32-bit read goes through
 * JavaScript's signed 32-bit `<<`, and the writers keep the low bytes of
 * `value` (the buffer is a typed byte array, so every store keeps the value
 * modulo 256).
 */
module ByteAccess {
  import opened Layout

  const TWO_31: int := 0x8000_0000
  const TWO_32: int := 0x1_0000_0000

  /** A 16-bit read: `(d[o + 1] << 8) + d[o]`. */
  function GetU16(d: seq<Byte>, o: int): (v: int)
    requires 0 <= o && o + 2 <= |d|
    ensures 0 <= v < 0x1_0000
    ensures v % 256 == d[o] && v / 256 == d[o + 1]
  {
    d[o + 1] as int * 0x100 + d[o] as int
  }

  /** `b << 24` in JavaScript: the result is a signed 32-bit integer. */
  function ShiftTopByte(b: Byte): int
  {
    if b < 0x80 then b as int * 0x100_0000 else b as int * 0x100_0000 - TWO_32
  }

  /** The unsigned little-endian value of the four bytes at `o`. */
  function Unsigned32(d: seq<Byte>, o: int): int
    requires 0 <= o && o + 4 <= |d|
  {
    d[o + 3] as int * 0x100_0000 + d[o + 2] as int * 0x1_0000 + d[o + 1] as int * 0x100 + d[o] as int
  }

  /** The two's-complement reading of `v` modulo 2^32. */
  function Signed32(v: int): (r: int)
    ensures -TWO_31 <= r < TWO_31
    ensures (r - v) % TWO_32 == 0
  {
    var u := v % TWO_32;
    if u < TWO_31 then u else u - TWO_32
  }

  /**
   * A 32-bit read, `(d[o+3] << 24) + (d[o+2] << 16) + (d[o+1] << 8) + d[o]`.
   * Because the first shift is signed, the result is negative when the top
   * byte is 0x80 or more.
   */
  function GetU32(d: seq<Byte>, o: int): (v: int)
    requires 0 <= o && o + 4 <= |d|
    ensures v == Signed32(Unsigned32(d, o))
    ensures 0 <= v <==> d[o + 3] < 0x80
  {
    ShiftTopByte(d[o + 3]) + d[o + 2] as int * 0x1_0000 + d[o + 1] as int * 0x100 + d[o] as int
  }

  /** The buffer after one byte store of `v` at `k`. */
  function PutByte(d: seq<Byte>, k: int, v: int): (r: seq<Byte>)
    requires 0 <= k < |d|
    ensures |r| == |d| && r[k] == v % 256
    ensures forall j | 0 <= j < |d| && j != k :: r[j] == d[j]
  {
    d[k := v % 256]
  }

  /** The buffer after set_uint16: bytes `value & 0xff` and `(value >> 8) & 0xff`. */
  function PutU16(d: seq<Byte>, o: int, v: int): (r: seq<Byte>)
    requires 0 <= o && o + 2 <= |d|
    ensures |r| == |d|
    ensures forall j | 0 <= j < |d| && j != o && j != o + 1 :: r[j] == d[j]
    ensures GetU16(r, o) == v % 0x1_0000
  {
    d[o := v % 0x100][o + 1 := (v / 0x100) % 0x100]
  }

  /** The buffer after set_uint32: the four low bytes of `value`, least significant first. */
  function PutU32(d: seq<Byte>, o: int, v: int): (r: seq<Byte>)
    requires 0 <= o && o + 4 <= |d|
    ensures |r| == |d|
    ensures forall j | 0 <= j < |d| && (j < o || o + 4 <= j) :: r[j] == d[j]
  {
    d[o := v % 0x100][o + 1 := (v / 0x100) % 0x100]
      [o + 2 := (v / 0x1_0000) % 0x100][o + 3 := (v / 0x100_0000) % 0x100]
  }

  /** The word set_uint32 stores is `value` modulo 2^32, and reads back as its
      two's-complement value. */
  lemma PutU32Reads(d: seq<Byte>, o: int, v: int)
    requires 0 <= o && o + 4 <= |d|
    ensures Unsigned32(PutU32(d, o, v), o) == v % TWO_32
    ensures GetU32(PutU32(d, o, v), o) == Signed32(v)
  {
    Split32(v);
    Signed32Mod(v);
  }

  lemma Split32(v: int)
    ensures v % TWO_32 == (v / 0x100_0000) % 0x100 * 0x100_0000 + (v / 0x1_0000) % 0x100 * 0x1_0000
                          + (v / 0x100) % 0x100 * 0x100 + v % 0x100
  {
    var x1, r0 := v / 0x100, v % 0x100;
    var x2, r1 := x1 / 0x100, x1 % 0x100;
    var x3, r2 := x2 / 0x100, x2 % 0x100;
    var x4, r3 := x3 / 0x100, x3 % 0x100;
    assert v == 0x1_0000 * x2 + 0x100 * r1 + r0;
    assert v / 0x1_0000 == x2;
    assert v == 0x100_0000 * x3 + 0x1_0000 * r2 + 0x100 * r1 + r0;
    assert v / 0x100_0000 == x3;
    assert v == TWO_32 * x4 + 0x100_0000 * r3 + 0x1_0000 * r2 + 0x100 * r1 + r0;
  }

  lemma Signed32Mod(v: int)
    ensures Signed32(v % TWO_32) == Signed32(v)
  {
  }

  /** A 16-bit value in range reads back unchanged. */
  lemma U16RoundTrip(d: seq<Byte>, o: int, v: int)
    requires 0 <= o && o + 2 <= |d|
    requires 0 <= v < 0x1_0000
    ensures GetU16(PutU16(d, o, v), o) == v
  {
  }

  /** A value in the signed 32-bit range reads back unchanged; so does every
      value in 0 .. 2^31 - 1. */
  lemma U32RoundTrip(d: seq<Byte>, o: int, v: int)
    requires 0 <= o && o + 4 <= |d|
    requires -TWO_31 <= v < TWO_31
    ensures GetU32(PutU32(d, o, v), o) == v
  {
    PutU32Reads(d, o, v);
    if v >= 0 {
      assert v % TWO_32 == v;
    } else {
      assert v % TWO_32 == v + TWO_32;
    }
  }

  /** A value in 2^31 .. 2^32 - 1 comes back 2^32 too small. */
  lemma U32HighValuesReadNegative(d: seq<Byte>, o: int, v: int)
    requires 0 <= o && o + 4 <= |d|
    requires TWO_31 <= v < TWO_32
    ensures GetU32(PutU32(d, o, v), o) == v - TWO_32
  {
    PutU32Reads(d, o, v);
  }

  /** The buffer with `bs` stored from `p` on, one byte after another. */
  function PutBytes(d: seq<Byte>, p: int, bs: seq<Byte>): (r: seq<Byte>)
    requires 0 <= p && p + |bs| <= |d|
    ensures |r| == |d|
    ensures forall j | 0 <= j < |d| && (j < p || p + |bs| <= j) :: r[j] == d[j]
    ensures forall i | 0 <= i < |bs| :: r[p + i] == bs[i]
    ensures r[p..p + |bs|] == bs
  {
    d[..p] + bs + d[p + |bs|..]
  }

  /** Storing back what was read leaves the buffer as it was: a byte, a half-word ... */
  lemma PutWhatWasRead(d: seq<Byte>, o: int)
    requires 0 <= o && o + 2 <= |d|
    ensures PutByte(d, o, d[o]) == d
    ensures PutU16(d, o, GetU16(d, o)) == d
  {
  }

  /** ... or a word, whatever its top bit. */
  lemma PutU32WhatWasRead(d: seq<Byte>, o: int)
    requires 0 <= o && o + 4 <= |d|
    ensures PutU32(d, o, GetU32(d, o)) == d
  {
    var w := GetU32(d, o);
    var b0, b1, b2, b3 := d[o] as int, d[o + 1] as int, d[o + 2] as int, d[o + 3] as int;
    var top := if b3 < 0x80 then b3 else b3 - 256;
    assert w == b0 + 0x100 * b1 + 0x1_0000 * b2 + 0x100_0000 * top;
    assert w % 0x100 == b0;
    assert w / 0x100 == b1 + 0x100 * b2 + 0x1_0000 * top;
    assert w / 0x1_0000 == b2 + 0x100 * top;
    assert w / 0x100_0000 == top;
    var r := d[o := w % 0x100][o + 1 := (w / 0x100) % 0x100]
              [o + 2 := (w / 0x1_0000) % 0x100][o + 3 := (w / 0x100_0000) % 0x100];
    assert r == d;
  }

  /** Storing the run `bs` ends with one store of its last byte. */
  lemma PutBytesStep(d: seq<Byte>, p: int, bs: seq<Byte>, k: int)
    requires 0 <= p && p + |bs| <= |d| && 0 <= k < |bs|
    ensures PutBytes(d, p, bs[..k + 1]) == PutByte(PutBytes(d, p, bs[..k]), p + k, bs[k])
  {
    var r := PutBytes(d, p, bs[..k + 1]);
    var e := PutByte(PutBytes(d, p, bs[..k]), p + k, bs[k]);
    forall j | 0 <= j < |d|
      ensures r[j] == e[j]
    {
      if p <= j < p + k {
        assert r[p + (j - p)] == bs[..k + 1][j - p];
      }
    }
  }

  /** An empty run stores nothing. */
  lemma PutNoBytes(d: seq<Byte>, p: int, bs: seq<Byte>)
    requires 0 <= p <= |d|
    ensures PutBytes(d, p, bs[..0]) == d
  {
    assert d[..p] + [] + d[p..] == d;
  }

  /** A typed-array element store: the value is kept modulo 256. */
  method SetByte(a: array<Byte>, k: int, v: int)
    requires 0 <= k < a.Length
    modifies a
    ensures a[..] == PutByte(old(a[..]), k, v)
  {
    a[k] := v % 256;
  }

  /** A run of element stores, `bs[i]` at `p + i`, in order. */
  method SetBytes(a: array<Byte>, p: int, bs: seq<Byte>)
    requires 0 <= p && p + |bs| <= a.Length
    modifies a
    ensures a[..] == PutBytes(old(a[..]), p, bs)
  {
    ghost var d := a[..];
    PutNoBytes(d, p, bs);
    var i := 0;
    while i < |bs|
      invariant 0 <= i <= |bs|
      invariant a[..] == PutBytes(d, p, bs[..i])
    {
      SetByte(a, p + i, bs[i]);
      PutBytesStep(d, p, bs, i);
      i := i + 1;
    }
    assert bs[..|bs|] == bs;
  }

  method SetU16(a: array<Byte>, o: int, v: int)
    requires 0 <= o && o + 2 <= a.Length
    modifies a
    ensures a[..] == PutU16(old(a[..]), o, v)
  {
    a[o] := v % 0x100;
    a[o + 1] := (v / 0x100) % 0x100;
  }

  method SetU32(a: array<Byte>, o: int, v: int)
    requires 0 <= o && o + 4 <= a.Length
    modifies a
    ensures a[..] == PutU32(old(a[..]), o, v)
  {
    a[o] := v % 0x100;
    a[o + 1] := (v / 0x100) % 0x100;
    a[o + 2] := (v / 0x1_0000) % 0x100;
    a[o + 3] := (v / 0x100_0000) % 0x100;
  }

  /** The 32-bit words of a byte region, as uint8_array_to_uint32 splits it:
      a trailing partial word is dropped. */
  function Words(s: seq<Byte>): (w: seq<int>)
    ensures |w| == |s| / 4
    ensures forall k | 0 <= k < |w| :: w[k] == GetU32(s, 4 * k)
    decreases |s|
  {
    if |s| < 4 then [] else [GetU32(s, 0)] + Words(s[4..])
  }

  method Uint8ArrayToUint32(bytes: seq<Byte>) returns (words: seq<int>)
    ensures |words| == |bytes| / 4
    ensures forall k | 0 <= k < |words| :: words[k] == GetU32(bytes, 4 * k)
    ensures words == Words(bytes)
  {
    words := [];
    var i := 0;
    while i + 4 <= |bytes|
      invariant 0 <= i <= |bytes| && i % 4 == 0
      invariant |words| == i / 4
      invariant forall k | 0 <= k < |words| :: words[k] == GetU32(bytes, 4 * k)
    {
      words := words + [GetU32(bytes, i)];
      i := i + 4;
    }
  }
}
