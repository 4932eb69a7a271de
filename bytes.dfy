/**
 * Fixed-width integers and their little-endian two's-complement byte layout.
 *
 * The node copies `int`, `short` and `long` values into message buffers with
 * `memcpy`; this module makes that layout explicit: a value of width n bytes is
 * written least significant byte first, negative values as their two's
 * complement.
 */
module Bytes {

  newtype byte = b: int | 0 <= b < 256

  /** C `short`, `int` and `long` on the platform the node was written for. */
  newtype int16 = x: int | -0x8000 <= x < 0x8000
  newtype int32 = x: int | -0x8000_0000 <= x < 0x8000_0000
  newtype int64 = x: int | -0x8000_0000_0000_0000 <= x < 0x8000_0000_0000_0000

  const Int16Max: int := 0x7fff
  const Int32Max: int := 0x7fff_ffff
  const Int64Max: int := 0x7fff_ffff_ffff_ffff

  // ---------------------------------------------------------------- slicing a buffer
  // Facts about cutting and joining sequences, stated for arbitrary contents so
  // that proofs about encoded buffers never compare them byte by byte.

  lemma AppendAssoc<T>(a: seq<T>, b: seq<T>, c: seq<T>)
    ensures (a + b) + c == a + (b + c)
  {
  }

  lemma AppendNil<T>(a: seq<T>)
    ensures a + [] == a
  {
  }

  /** The pieces of a + b + c are found again at their offsets. */
  lemma Split3<T>(a: seq<T>, b: seq<T>, c: seq<T>)
    ensures var s := a + b + c;
            && s[..|a|] == a && s[|a|..|a| + |b|] == b && s[|a| + |b|..] == c
            && s[..|a| + |b|] == a + b
  {
  }

  /** Cutting s at i and j and joining the pieces gives s again. */
  lemma Join3<T>(s: seq<T>, i: nat, j: nat)
    requires i <= j <= |s|
    ensures s[..i] + s[i..j] + s[j..] == s
  {
  }

  /** Equal sequences cut at the same place give equal pieces. */
  lemma SplitEq<T>(a: seq<T>, b: seq<T>, c: seq<T>, d: seq<T>)
    requires a + b == c + d && |a| == |c|
    ensures a == c && b == d
  {
    assert a == (a + b)[..|a|] && c == (c + d)[..|c|];
    assert b == (a + b)[|a|..] && d == (c + d)[|c|..];
  }

  /** The first k + m elements are the first k followed by the next m. */
  lemma TakeSplit<T>(s: seq<T>, k: nat, m: nat)
    requires k + m <= |s|
    ensures s[..k + m] == s[..k] + s[k..][..m]
  {
  }

  /** 256^n, the number of distinct values of n bytes. */
  function Pow256(n: nat): (p: nat)
    ensures p >= 1
  {
    if n == 0 then 1 else 256 * Pow256(n - 1)
  }

  /** 2^(8n - 1): the smallest value an n-byte signed integer cannot hold. */
  function Half(n: nat): int
    requires n > 0
  {
    128 * Pow256(n - 1)
  }

  lemma PowValues()
    ensures Half(2) == 0x8000 && Pow256(2) == 0x1_0000
    ensures Half(4) == 0x8000_0000 && Pow256(4) == 0x1_0000_0000
    ensures Half(8) == 0x8000_0000_0000_0000 && Pow256(8) == 0x1_0000_0000_0000_0000
  {
  }

  /** The n bytes of the unsigned value v, least significant first. */
  function ToLE(v: nat, n: nat): (r: seq<byte>)
    requires v < Pow256(n)
    ensures |r| == n
  {
    if n == 0 then [] else [(v % 256) as byte] + ToLE(v / 256, n - 1)
  }

  /** The unsigned value of a little-endian byte string. */
  function FromLE(b: seq<byte>): (v: nat)
    ensures v < Pow256(|b|)
  {
    if b == [] then 0 else b[0] as int + 256 * FromLE(b[1..])
  }

  lemma {:induction false} FromToLE(v: nat, n: nat)
    requires v < Pow256(n)
    ensures FromLE(ToLE(v, n)) == v
  {
    if n > 0 {
      FromToLE(v / 256, n - 1);
    }
  }

  lemma {:induction false} ToFromLE(b: seq<byte>)
    ensures ToLE(FromLE(b), |b|) == b
  {
    if b != [] {
      ToFromLE(b[1..]);
      var v := FromLE(b);
      assert v % 256 == b[0] as int && v / 256 == FromLE(b[1..]);
    }
  }

  /** Two's-complement layout of x in n bytes. */
  function EncodeSigned(x: int, n: nat): (r: seq<byte>)
    requires n > 0 && -Half(n) <= x < Half(n)
    ensures |r| == n
  {
    ToLE(if x < 0 then x + Pow256(n) else x, n)
  }

  /** Reads n bytes as a two's-complement integer, as `*(int*)p` does for n = 4. */
  function DecodeSigned(b: seq<byte>): (x: int)
    requires |b| > 0
    ensures -Half(|b|) <= x < Half(|b|)
  {
    var u := FromLE(b);
    if u >= Half(|b|) then u - Pow256(|b|) else u
  }

  lemma DecodeEncodeSigned(x: int, n: nat)
    requires n > 0 && -Half(n) <= x < Half(n)
    ensures DecodeSigned(EncodeSigned(x, n)) == x
  {
    FromToLE(if x < 0 then x + Pow256(n) else x, n);
  }

  lemma EncodeDecodeSigned(b: seq<byte>)
    requires |b| > 0
    ensures EncodeSigned(DecodeSigned(b), |b|) == b
  {
    ToFromLE(b);
  }

  function EncodeInt16(x: int16): (r: seq<byte>)
    ensures |r| == 2
  {
    PowValues();
    EncodeSigned(x as int, 2)
  }

  function EncodeInt32(x: int32): (r: seq<byte>)
    ensures |r| == 4
  {
    PowValues();
    EncodeSigned(x as int, 4)
  }

  function EncodeInt64(x: int64): (r: seq<byte>)
    ensures |r| == 8
  {
    PowValues();
    EncodeSigned(x as int, 8)
  }

  function DecodeInt16(b: seq<byte>): int16
    requires |b| == 2
  {
    PowValues();
    DecodeSigned(b) as int16
  }

  function DecodeInt32(b: seq<byte>): int32
    requires |b| == 4
  {
    PowValues();
    DecodeSigned(b) as int32
  }

  function DecodeInt64(b: seq<byte>): int64
    requires |b| == 8
  {
    PowValues();
    DecodeSigned(b) as int64
  }

  /** Reading back what was written gives the value again, for each width. */
  lemma DecodeEncodeInt16(x: int16)
    ensures DecodeInt16(EncodeInt16(x)) == x
  {
    PowValues();
    DecodeEncodeSigned(x as int, 2);
  }

  lemma DecodeEncodeInt32(x: int32)
    ensures DecodeInt32(EncodeInt32(x)) == x
  {
    PowValues();
    DecodeEncodeSigned(x as int, 4);
  }

  lemma DecodeEncodeInt64(x: int64)
    ensures DecodeInt64(EncodeInt64(x)) == x
  {
    PowValues();
    DecodeEncodeSigned(x as int, 8);
  }

  /** Every byte string of the right width is the layout of the value read from it. */
  lemma EncodeDecodeInt16(s: seq<byte>)
    requires |s| == 2
    ensures EncodeInt16(DecodeInt16(s)) == s
  {
    PowValues();
    EncodeDecodeSigned(s);
  }

  lemma EncodeDecodeInt32(s: seq<byte>)
    requires |s| == 4
    ensures EncodeInt32(DecodeInt32(s)) == s
  {
    PowValues();
    EncodeDecodeSigned(s);
  }

  lemma EncodeDecodeInt64(s: seq<byte>)
    requires |s| == 8
    ensures EncodeInt64(DecodeInt64(s)) == s
  {
    PowValues();
    EncodeDecodeSigned(s);
  }

  /** Two's-complement wrap-around of an int result into 32 bits. */
  function Wrap32(x: int): (r: int32)
    ensures -0x8000_0000 <= x <= Int32Max ==> r as int == x
  {
    ((x + 0x8000_0000) % 0x1_0000_0000 - 0x8000_0000) as int32
  }

  /** `long` increment; signed overflow is taken to wrap around. */
  function Inc64(x: int64): (r: int64)
    ensures x as int < Int64Max ==> r as int == x as int + 1
    ensures x as int == Int64Max ==> r as int == -Int64Max - 1
  {
    if x as int == Int64Max then -0x8000_0000_0000_0000 else x + 1
  }
}
