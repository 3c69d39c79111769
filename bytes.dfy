/**
 * Fixed-width integers of the C# source, its truncating division and
 * unchecked 32-bit wrap-around, and the little-endian byte layout that
 * BinaryReader and BinaryWriter use.
 */
module Bytes {

  type byte = x: int | 0 <= x < 0x100
  type u16 = x: int | 0 <= x < 0x1_0000
  type u32 = x: int | 0 <= x < 0x1_0000_0000
  type i32 = x: int | -0x8000_0000 <= x < 0x8000_0000

  const INT32_MAX: int := 0x7FFF_FFFF

  /** C# unchecked `int` arithmetic: the result reduced into the signed 32-bit range. */
  function Wrap32(x: int): (r: i32)
    ensures -0x8000_0000 <= x <= INT32_MAX ==> r == x
    ensures (r - x) % 0x1_0000_0000 == 0
  {
    (x + 0x8000_0000) % 0x1_0000_0000 - 0x8000_0000
  }

  /** Wrapping an intermediate sum changes nothing: C# may wrap each step of `a + b` or only the total. */
  lemma Wrap32Absorbs(a: int, b: int)
    ensures Wrap32(a + Wrap32(b)) == Wrap32(a + b)
  {
    var M := 0x1_0000_0000;
    var q := (b + 0x8000_0000) / M;
    assert Wrap32(b) == b - M * q;
    var x := a + b + 0x8000_0000;
    var d := (x - M * q) / M - (x / M - q);
    assert M * d == x % M - (x - M * q) % M;
    assert -M < M * d < M;
  }

  /**
   * C# integer division `a / b`, which truncates toward zero: the quotient
   * leaves a remainder smaller than `b` whose sign follows the dividend.
   */
  function TruncDiv(a: int, b: int): (q: int)
    requires b > 0
    ensures a >= 0 ==> 0 <= a - q * b < b
    ensures a < 0 ==> -b < a - q * b <= 0
  {
    if a >= 0 then a / b else -((-a) / b)
  }

  /** C# remainder `a % b`: what truncating division leaves, with the sign of the dividend. */
  function TruncRem(a: int, b: int): (r: int)
    requires b != 0
    ensures b > 0 ==> r == a - TruncDiv(a, b) * b
    ensures a >= 0 ==> 0 <= r < Abs(b)
    ensures a < 0 ==> -Abs(b) < r <= 0
  {
    if a >= 0 then a % b else -((-a) % b)
  }

  function Abs(a: int): int { if a < 0 then -a else a }
  function Min(a: int, b: int): int { if a <= b then a else b }
  function Max(a: int, b: int): int { if a <= b then b else a }

  /** Unsigned 16-bit little-endian value stored at `off` (BinaryReader.ReadUInt16). */
  function U16At(f: seq<byte>, off: nat): u16
    requires off + 2 <= |f|
  {
    f[off] as int + 0x100 * (f[off + 1] as int)
  }

  /** Unsigned 32-bit little-endian value stored at `off` (BinaryReader.ReadUInt32). */
  function U32At(f: seq<byte>, off: nat): u32
    requires off + 4 <= |f|
  {
    U16At(f, off) + 0x1_0000 * U16At(f, off + 2)
  }

  /** Signed 32-bit little-endian value stored at `off` (BinaryReader.ReadInt32), two's complement. */
  function I32At(f: seq<byte>, off: nat): i32
    requires off + 4 <= |f|
  {
    var u := U32At(f, off);
    if u <= INT32_MAX then u else u - 0x1_0000_0000
  }

  /** The two bytes BinaryWriter.Write(ushort) emits. */
  function LE16(v: u16): (r: seq<byte>)
    ensures |r| == 2
  {
    [v % 0x100, v / 0x100]
  }

  /** The four bytes BinaryWriter.Write(uint) emits. */
  function LE32(v: u32): (r: seq<byte>)
    ensures |r| == 4
  {
    LE16(v % 0x1_0000) + LE16(v / 0x1_0000)
  }

  /** The four bytes BinaryWriter.Write(int) emits: two's complement, little-endian. */
  function LE32Signed(v: i32): (r: seq<byte>)
    ensures |r| == 4
  {
    LE32(if v < 0 then v + 0x1_0000_0000 else v)
  }

  lemma U16RoundTrip(v: u16, pre: seq<byte>, post: seq<byte>)
    ensures U16At(pre + LE16(v) + post, |pre|) == v
  {
    var f := pre + LE16(v) + post;
    assert f[|pre|] == v % 0x100 && f[|pre| + 1] == v / 0x100;
  }

  lemma U32RoundTrip(v: u32, pre: seq<byte>, post: seq<byte>)
    ensures U32At(pre + LE32(v) + post, |pre|) == v
  {
    var lo, hi := LE16(v % 0x1_0000), LE16(v / 0x1_0000);
    assert pre + LE32(v) + post == pre + lo + (hi + post);
    assert pre + lo + (hi + post) == (pre + lo) + hi + post;
    U16RoundTrip(v % 0x1_0000, pre, hi + post);
    U16RoundTrip(v / 0x1_0000, pre + lo, post);
  }

  lemma I32RoundTrip(v: i32, pre: seq<byte>, post: seq<byte>)
    ensures I32At(pre + LE32Signed(v) + post, |pre|) == v
  {
    U32RoundTrip(if v < 0 then v + 0x1_0000_0000 else v, pre, post);
  }

  /** The bytes of `f` with `b` written over them from offset `off` (a Seek followed by a Write). */
  function Overwrite(f: seq<byte>, off: nat, b: seq<byte>): (r: seq<byte>)
    requires off + |b| <= |f|
    ensures |r| == |f|
    ensures forall k :: 0 <= k < |f| ==> r[k] == if off <= k < off + |b| then b[k - off] else f[k]
  {
    seq(|f|, k requires 0 <= k < |f| => if off <= k < off + |b| then b[k - off] else f[k])
  }

  function Zeros(n: nat): (r: seq<byte>)
    ensures |r| == n && forall k :: 0 <= k < n ==> r[k] == 0
  {
    seq(n, _ => 0)
  }
}
