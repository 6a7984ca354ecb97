/** Little-endian integers as the Python writer packs them and the Rust reader decodes them. */
module Bytes {
  import opened Prelude

  type Byte = x: int | 0 <= x < 256

  const TWO_64: int := 0x1_0000_0000_0000_0000

  /** A 32-bit float, as its bit pattern. */
  type Bits32 = x: int | 0 <= x < 0x1_0000_0000

  function Pow256(k: nat): (r: nat)
    ensures r > 0
  {
    if k == 0 then 1 else 256 * Pow256(k - 1)
  }

  function LeBytes(n: nat, k: nat): (r: seq<Byte>)
    ensures |r| == k
  {
    if k == 0 then [] else [n % 256] + LeBytes(n / 256, k - 1)
  }

  function LeValue(b: seq<Byte>): nat {
    if |b| == 0 then 0 else b[0] + 256 * LeValue(b[1..])
  }

  /** Decoding undoes encoding for every number that fits. */
  lemma {:induction false} DecodeEncode(n: nat, k: nat)
    requires n < Pow256(k)
    ensures LeValue(LeBytes(n, k)) == n
  {
    if k > 0 {
      DecodeEncode(n / 256, k - 1);
      assert LeBytes(n, k)[1..] == LeBytes(n / 256, k - 1);
    }
  }

  /** Encoding undoes decoding: every byte string is the encoding of exactly one number. */
  lemma {:induction false} EncodeDecode(b: seq<Byte>)
    ensures LeValue(b) < Pow256(|b|) && LeBytes(LeValue(b), |b|) == b
  {
    if |b| > 0 {
      EncodeDecode(b[1..]);
      PushByte(b[0], LeValue(b[1..]), Pow256(|b| - 1));
      assert b == [b[0]] + b[1..];
    }
  }

  lemma PushByte(d: Byte, v: nat, m: nat)
    requires v < m
    ensures d + 256 * v < 256 * m && (d + 256 * v) % 256 == d && (d + 256 * v) / 256 == v
  {
  }

  function U64Bytes(n: int): (r: seq<Byte>)
    requires 0 <= n <= U64_MAX
    ensures |r| == 8
  {
    LeBytes(n, 8)
  }

  /** Two's complement. */
  function I64Bytes(n: int): (r: seq<Byte>)
    requires I64_MIN <= n <= I64_MAX
    ensures |r| == 8
  {
    LeBytes(if n < 0 then n + TWO_64 else n, 8)
  }

  function I64Value(b: seq<Byte>): int
    requires |b| == 8
  {
    var u := LeValue(b);
    if u > I64_MAX then u - TWO_64 else u
  }

  function F32Bytes(x: Bits32): (r: seq<Byte>)
    ensures |r| == 4
  {
    LeBytes(x, 4)
  }

  function F32Value(b: seq<Byte>): Bits32
    requires |b| == 4
  {
    FourBytes(b);
    LeValue(b)
  }

  lemma FourBytes(b: seq<Byte>)
    requires |b| == 4
    ensures LeValue(b) < 0x1_0000_0000
  {
    EncodeDecode(b);
    Powers();
  }

  /** The widths: the unsigned 64-bit numbers are those of eight bytes, the signed ones half as many either way. */
  lemma Powers()
    ensures Pow256(4) == 0x1_0000_0000 && Pow256(8) == TWO_64
    ensures U64_MAX + 1 == Pow256(8) && 2 * (I64_MAX + 1) == Pow256(8) && 2 * I64_MIN + Pow256(8) == 0
  {
    assert Pow256(2) == 65536;
    assert Pow256(4) == 256 * (256 * Pow256(2));
    assert Pow256(6) == 256 * (256 * Pow256(4));
    assert Pow256(8) == 256 * (256 * Pow256(6));
  }

  lemma U64RoundTrip(n: int)
    requires 0 <= n <= U64_MAX
    ensures LeValue(U64Bytes(n)) == n
  {
    Powers();
    DecodeEncode(n, 8);
  }

  lemma I64RoundTrip(n: int)
    requires I64_MIN <= n <= I64_MAX
    ensures I64Value(I64Bytes(n)) == n
  {
    Powers();
    DecodeEncode(if n < 0 then n + TWO_64 else n, 8);
  }

  lemma F32RoundTrip(x: Bits32)
    ensures F32Value(F32Bytes(x)) == x
  {
    Powers();
    DecodeEncode(x, 4);
  }

  /** Subtraction of two `i64` in a release build. */
  function WrappingSub(x: int, y: int): (r: int)
    ensures I64_MIN <= x - y <= I64_MAX ==> r == x - y
  {
    var d := (x - y) % TWO_64;
    if d > I64_MAX then d - TWO_64 else d
  }

  const STALE_MS := 5000

  /** The readers' staleness check. */
  predicate Fresh(nowMs: int, timestampMs: int) {
    !(WrappingSub(nowMs, timestampMs) > STALE_MS)
  }

  /**
   * Which timestamps pass the check: those at most five seconds old, and, because the subtraction wraps,
   * those at least 2^63 milliseconds old.
   */
  lemma FreshIff(nowMs: int, timestampMs: int)
    requires 0 <= nowMs <= I64_MAX && I64_MIN <= timestampMs <= I64_MAX
    ensures Fresh(nowMs, timestampMs) <==> nowMs - timestampMs <= 5000 || nowMs - timestampMs > I64_MAX
  {
  }
}
