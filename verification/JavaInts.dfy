/**
 Java's 32-bit int and signed byte, and the big-endian form in which the step protocol sends an int.
 */
module JavaInts {

  const INT_MAX: int := 0x7FFF_FFFF
  const SIZE_INT: nat := 4

  type int32 = x: int | -0x8000_0000 <= x <= 0x7FFF_FFFF
  type jbyte = x: int | -128 <= x < 128

  /** What an int holds after an operation whose exact result is x. */
  function Wrap(x: int): int32 {
    if -0x8000_0000 <= x <= INT_MAX then x else (x + 0x8000_0000) % 0x1_0000_0000 - 0x8000_0000
  }

  /** The cast (byte) x. */
  function ToByte(x: int): jbyte {
    (x + 128) % 256 - 128
  }

  /** b & 0xFF. */
  function Low(b: jbyte): (low: nat)
    ensures low < 256 && ToByte(low) == b
  {
    var x: int := b;
    x % 256
  }

  /** Java's %, whose result has the sign of the dividend; b is positive. */
  function Rem(a: int, b: int): int
    requires b > 0
  {
    if a >= 0 then a % b else -((-a) % b)
  }

  function Zeros(n: nat): (z: seq<jbyte>)
    ensures |z| == n && forall i :: 0 <= i < n ==> z[i] == 0
  {
    seq(n, _ => 0)
  }

  /** The bytes read as one unsigned number, most significant first. */
  function Unsigned(b: seq<jbyte>): nat {
    if b == [] then 0 else Unsigned(b[..|b| - 1]) * 256 + Low(b[|b| - 1])
  }

  function IntOf(b: seq<jbyte>): int32 {
    Wrap(Unsigned(b))
  }

  /** The k least significant bytes of n, most significant first. */
  function LowBytes(n: int, k: nat): (b: seq<jbyte>)
    ensures |b| == k
    decreases k, n
  {
    if k == 0 then [] else LowBytes(n / 256, k - 1) + [ToByte(n)]
  }

  function BytesOf(n: int32): (b: seq<jbyte>)
    ensures |b| == SIZE_INT
  {
    LowBytes(n, SIZE_INT)
  }

  function Pow256(k: nat): (p: nat)
    ensures p > 0
  {
    if k == 0 then 1 else 256 * Pow256(k - 1)
  }

  lemma MulStep(c: int, p: int)
    ensures c * (256 * p) == 256 * (c * p)
  {
  }

  /** LowBytes keeps a number up to a multiple of 256^k. */
  lemma {:induction false} UnsignedOfLowBytes(n: int, k: nat) returns (c: int)
    ensures n == c * Pow256(k) + Unsigned(LowBytes(n, k))
    decreases k
  {
    if k == 0 {
      c := n;
    } else {
      c := UnsignedOfLowBytes(n / 256, k - 1);
      UnsignedAppends(LowBytes(n / 256, k - 1), ToByte(n));
      LowIsRemainder(n);
      MulStep(c, Pow256(k - 1));
    }
  }

  lemma LowIsRemainder(n: int)
    ensures n == 256 * (n / 256) + Low(ToByte(n))
  {
  }

  lemma UnsignedAppends(b: seq<jbyte>, last: jbyte)
    ensures Unsigned(b + [last]) == 256 * Unsigned(b) + Low(last)
  {
    assert (b + [last])[..|b|] == b;
  }

  lemma Peel(rest: int, last: jbyte)
    ensures (256 * rest + Low(last)) / 256 == rest && ToByte(256 * rest + Low(last)) == last
  {
  }

  lemma {:induction false} LowBytesOfUnsigned(b: seq<jbyte>, c: int)
    ensures LowBytes(Unsigned(b) + c * Pow256(|b|), |b|) == b
  {
    if b != [] {
      var k := |b| - 1;
      LowBytesOfUnsigned(b[..k], c);
      MulStep(c, Pow256(k));
      Peel(Unsigned(b[..k]) + c * Pow256(k), b[k]);
      UnsignedAppends(b[..k], b[k]);
      assert b == b[..k] + [b[k]];
    }
  }

  lemma PowOfInt(c: int, k: nat)
    requires k == SIZE_INT
    ensures c * Pow256(k) == c * 0x1_0000_0000
  {
    assert Pow256(1) == 256 && Pow256(2) == 0x1_0000 && Pow256(3) == 0x100_0000;
  }

  /** The bytes of an int determine it up to a multiple of 2^32. */
  lemma UnsignedOfInt(n: int, k: nat) returns (c: int)
    requires k == SIZE_INT
    ensures n == Unsigned(LowBytes(n, k)) + c * 0x1_0000_0000
  {
    c := UnsignedOfLowBytes(n, k);
    PowOfInt(c, k);
  }

  lemma IntOfUnsigned(b: seq<jbyte>, c: int, k: nat)
    requires |b| == k == SIZE_INT
    ensures LowBytes(Unsigned(b) + c * 0x1_0000_0000, k) == b
  {
    PowOfInt(c, k);
    LowBytesOfUnsigned(b, c);
  }

  lemma WrapPeriod(x: int, c: int)
    ensures Wrap(x + c * 0x1_0000_0000) == Wrap(x)
  {
  }

  lemma WrapDiffers(x: int) returns (c: int)
    ensures Wrap(x) == x + c * 0x1_0000_0000
  {
    c := -((x + 0x8000_0000) / 0x1_0000_0000);
  }

  lemma WrapUndoes(u: int, c: int, n: int32)
    requires n == u + c * 0x1_0000_0000
    ensures Wrap(u) == n
  {
    WrapPeriod(u, c);
  }

  /** An int survives being written as four bytes and read back. */
  lemma IntSurvives(n: int32)
    ensures IntOf(BytesOf(n)) == n
  {
    var c := UnsignedOfInt(n, SIZE_INT);
    WrapUndoes(Unsigned(BytesOf(n)), c, n);
  }

  /** Four bytes survive being read as an int and written back. */
  lemma BytesSurvive(b: seq<jbyte>)
    requires |b| == SIZE_INT
    ensures BytesOf(IntOf(b)) == b
  {
    var c := WrapDiffers(Unsigned(b));
    IntOfUnsigned(b, c, SIZE_INT);
  }

  /** Shifting left by eight and adding a byte commutes with wrapping. */
  lemma WrapAppends(u: int, low: nat)
    ensures Wrap(Wrap(Wrap(u) * 256) + low) == Wrap(u * 256 + low)
  {
    var c := WrapDiffers(u);
    var d := WrapDiffers(Wrap(u) * 256);
    WrapPeriod(u * 256 + low, c * 256 + d);
  }

  lemma IntAppends(b: seq<jbyte>, last: jbyte)
    ensures IntOf(b + [last]) == Wrap(Wrap(IntOf(b) * 256) + Low(last))
  {
    UnsignedAppends(b, last);
    WrapAppends(Unsigned(b), Low(last));
  }

  /** The value of four bytes, written out: the first is signed, the others are not. */
  function BigEndian(b: seq<jbyte>): int
    requires |b| == SIZE_INT
  {
    var b0: int, b1: int, b2: int, b3: int := b[0], b[1], b[2], b[3];
    16777216 * b0 + 65536 * (b1 % 256) + 256 * (b2 % 256) + b3 % 256
  }

  lemma UnsignedOfFour(b: seq<jbyte>)
    requires |b| == SIZE_INT
    ensures Unsigned(b) == 16777216 * Low(b[0]) + 65536 * Low(b[1]) + 256 * Low(b[2]) + Low(b[3])
  {
    assert b == [] + [b[0]] + [b[1]] + [b[2]] + [b[3]];
    UnsignedAppends([], b[0]);
    UnsignedAppends([] + [b[0]], b[1]);
    UnsignedAppends([] + [b[0]] + [b[1]], b[2]);
    UnsignedAppends([] + [b[0]] + [b[1]] + [b[2]], b[3]);
  }

  /** Reading four bytes gives their big-endian value. */
  lemma IntIsBigEndian(b: seq<jbyte>)
    requires |b| == SIZE_INT
    ensures IntOf(b) == BigEndian(b)
  {
    UnsignedOfFour(b);
    var b0: int := b[0];
    WrapUndoes(Unsigned(b), if b0 < 0 then -1 else 0, BigEndian(b));
  }

  /** And writing an int gives bytes of which it is the big-endian value. */
  lemma BytesAreBigEndian(n: int32)
    ensures BigEndian(BytesOf(n)) == n
  {
    IntSurvives(n);
    IntIsBigEndian(BytesOf(n));
  }
}
