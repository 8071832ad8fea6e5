/** The header check that the server runs on every packet. */
module Validator {
  import opened JavaInts
  import opened PacketUtil

  /** The int that two header bytes hold, read through a four-byte scratch array. */
  function TwoBytes(received: seq<jbyte>, at: nat): int32
    requires at + 2 <= |received|
  {
    IntOf([0, 0, received[at], received[at + 1]])
  }

  predicate ValidHeader(payloadLen: int32, pSecret: int32, step: int32, received: seq<jbyte>) {
    if |received| < SIZE_HEADER then false
    else
      var passLen := payloadLen == IntOf(received[0..SIZE_INT]) && |received| >= Wrap(SIZE_HEADER + payloadLen);
      var passSecret := pSecret == IntOf(received[SIZE_INT..8]);
      var passStep := step == TwoBytes(received, 8);
      var passId := 0 <= TwoBytes(received, 10) <= 999;
      passLen && passSecret && passStep && passId
  }

  lemma TwoBytesValue(received: seq<jbyte>, at: nat)
    requires at + 2 <= |received|
    ensures TwoBytes(received, at) == Low(received[at]) * 256 + Low(received[at + 1])
  {
    var hi, lo := received[at], received[at + 1];
    UnsignedAppends([], 0);
    UnsignedAppends([0], 0);
    UnsignedAppends([0, 0], hi);
    UnsignedAppends([0, 0, hi], lo);
    assert [] + [0] == [0] && [0] + [0] == [0, 0] && [0, 0] + [hi] == [0, 0, hi] && [0, 0, hi] + [lo] == [0, 0, hi, lo];
    WrapWithin(Low(hi) * 256 + Low(lo));
  }

  lemma IdBytes(id: int32)
    requires 0 <= id < 0x1_0000
    ensures BytesOf(id)[2..] == [ToByte(id / 256), ToByte(id)]
  {
    assert BytesOf(id) == LowBytes(id / 256, 3) + [ToByte(id)];
    assert LowBytes(id / 256, 3) == LowBytes(id / 256 / 256, 2) + [ToByte(id / 256)];
  }

  lemma PairSurvives(hi: jbyte, lo: jbyte, x: int)
    requires 0 <= x < 0x1_0000
    ensures x == Low(hi) * 256 + Low(lo) <==> hi == ToByte(x / 256) && lo == ToByte(x)
  {
    LowSurvives(x / 256);
    LowSurvives(x);
    if x == Low(hi) * 256 + Low(lo) {
      assert x / 256 == Low(hi) && x % 256 == Low(lo);
    }
  }

  lemma LowSurvives(x: nat)
    ensures Low(ToByte(x)) == x % 256
    ensures forall b: jbyte :: Low(b) == x % 256 ==> b == ToByte(x)
  {
  }

  lemma PairBytes(received: seq<jbyte>, at: nat, x: int)
    requires at + 2 <= |received| && 0 <= x < 0x1_0000
    ensures TwoBytes(received, at) == x <==> received[at..at + 2] == [ToByte(x / 256), ToByte(x)]
  {
    TwoBytesValue(received, at);
    PairSurvives(received[at], received[at + 1], x);
    assert received[at..at + 2] == [received[at], received[at + 1]];
  }

  /** The packet starts with the header that the packet builder writes for these fields. */
  ghost predicate HasHeader(received: seq<jbyte>, payloadLen: int32, pSecret: int32, step: jbyte, id: int32) {
    |received| >= SIZE_HEADER && received[..SIZE_HEADER] == Header(payloadLen, BytesOf(pSecret), step, id)
  }

  /** The header fields of a packet, as the check reads them. */
  ghost predicate Reads(received: seq<jbyte>, payloadLen: int32, pSecret: int32, step: int, id: int)
    requires |received| >= SIZE_HEADER
  {
    && IntOf(received[0..SIZE_INT]) == payloadLen
    && IntOf(received[SIZE_INT..8]) == pSecret
    && TwoBytes(received, 8) == step
    && TwoBytes(received, 10) == id
  }

  lemma FieldBytes(received: seq<jbyte>, at: nat, n: int32)
    requires at + SIZE_INT <= |received|
    ensures IntOf(received[at..at + SIZE_INT]) == n <==> received[at..at + SIZE_INT] == BytesOf(n)
  {
    IntSurvives(n);
    BytesSurvive(received[at..at + SIZE_INT]);
  }

  lemma HeaderParts(payloadLen: int32, pSecret: int32, step: jbyte, id: int32) returns (h: seq<jbyte>)
    requires 0 <= step && 0 <= id < 0x1_0000
    ensures h == Header(payloadLen, BytesOf(pSecret), step, id)
    ensures h[0..4] == BytesOf(payloadLen) && h[4..8] == BytesOf(pSecret)
    ensures h[8..10] == [ToByte(step / 256), ToByte(step)] && h[10..12] == [ToByte(id / 256), ToByte(id)]
  {
    h := Header(payloadLen, BytesOf(pSecret), step, id);
    IdBytes(id);
  }

  lemma Slices(received: seq<jbyte>)
    requires |received| >= SIZE_HEADER
    ensures var front := received[..SIZE_HEADER];
            && front[0..4] == received[0..4] && front[4..8] == received[4..8]
            && front[8..10] == received[8..10] && front[10..12] == received[10..12]
  {
  }

  /** Reading the fields and writing the header are inverse, bit by bit. */
  lemma HeaderIsReadBack(received: seq<jbyte>, payloadLen: int32, pSecret: int32, step: jbyte, id: int32)
    requires |received| >= SIZE_HEADER && 0 <= step && 0 <= id < 0x1_0000
    ensures Reads(received, payloadLen, pSecret, step, id) <==> HasHeader(received, payloadLen, pSecret, step, id)
  {
    FieldBytes(received, 0, payloadLen);
    FieldBytes(received, SIZE_INT, pSecret);
    PairBytes(received, 8, step);
    PairBytes(received, 10, id);
    var h := HeaderParts(payloadLen, pSecret, step, id);
    SameHeader(received[..SIZE_HEADER], h);
    Slices(received);
  }

  lemma SameHeader(a: seq<jbyte>, b: seq<jbyte>)
    requires |a| == |b| == SIZE_HEADER
    ensures a == b <==> a[0..4] == b[0..4] && a[4..8] == b[4..8] && a[8..10] == b[8..10] && a[10..12] == b[10..12]
  {
    assert a == a[0..4] + a[4..8] + a[8..10] + a[10..12];
    assert b == b[0..4] + b[4..8] + b[8..10] + b[10..12];
  }

  /**
   The check accepts exactly the packets whose first twelve bytes the packet builder writes for these
   fields and some student number up to 999, provided the packet is as long as 12 + payloadLen comes out
   in 32-bit arithmetic.
   */
  lemma ValidHeaderExactly(payloadLen: int32, pSecret: int32, step: jbyte, received: seq<jbyte>)
    requires 0 <= step
    ensures ValidHeader(payloadLen, pSecret, step, received) <==>
            && |received| >= Wrap(SIZE_HEADER + payloadLen)
            && exists id: int32 :: 0 <= id <= 999 && HasHeader(received, payloadLen, pSecret, step, id)
  {
    if |received| >= SIZE_HEADER {
      TwoBytesValue(received, 10);
      HeaderIsReadBack(received, payloadLen, pSecret, step, TwoBytes(received, 10));
      forall id: int32 | 0 <= id <= 999
        ensures Reads(received, payloadLen, pSecret, step, id) <==> HasHeader(received, payloadLen, pSecret, step, id)
      {
        HeaderIsReadBack(received, payloadLen, pSecret, step, id);
      }
    }
  }

  /**
   The check is meant to make sure that the payload fits in the packet.  It does so exactly for lengths up
   to INT_MAX - 12: above that the sum wraps and a bare header passes.
   */
  lemma PayloadFitsExactly(payloadLen: int32, pSecret: int32, step: jbyte)
    requires 0 <= step
    ensures (forall received :: ValidHeader(payloadLen, pSecret, step, received) ==>
              |received| >= SIZE_HEADER + payloadLen)
            <==> SIZE_HEADER + payloadLen <= INT_MAX
  {
    if SIZE_HEADER + payloadLen > INT_MAX {
      BareHeaderPasses(payloadLen, pSecret, step);
    }
  }

  lemma BareHeaderPasses(payloadLen: int32, pSecret: int32, step: jbyte)
    requires 0 <= step && SIZE_HEADER + payloadLen > INT_MAX
    ensures exists received :: ValidHeader(payloadLen, pSecret, step, received) && |received| == SIZE_HEADER
  {
    var bare := HeaderParts(payloadLen, pSecret, step, 0);
    assert bare[..SIZE_HEADER] == bare;
    assert HasHeader(bare, payloadLen, pSecret, step, 0);
    ValidHeaderExactly(payloadLen, pSecret, step, bare);
  }
}
