/**
 The packets of step B: what the client sends for number i, what the server demands of it, what the
 server answers, and what the client reads from the final answer.
 */
module StepB {
  import opened JavaInts
  import opened PacketUtil
  import opened ClientPacketUtil
  import opened Validator

  /** The payload lengths for which no size overflows; the server draws them below 100. */
  predicate Fits(len: int) {
    0 <= len && SIZE_HEADER + SIZE_INT + len + SIZE_INT - 1 <= INT_MAX
  }

  function PacketLength(len: nat): nat {
    SIZE_HEADER + SIZE_INT + len + Padding(SIZE_HEADER + SIZE_INT + len)
  }

  lemma FitsExactly(len: int32)
    ensures Fits(len) <==> len >= 0 && PacketLength(len) <= INT_MAX
  {
  }

  function ClientPacket(len: int32, secretA: int32, i: int32): (packet: seq<jbyte>)
    requires Fits(len)
  {
    Packet(BytesOf(i) + Zeros(len), BytesOf(secretA), 1, STUDENT)
  }

  /** A payload of zeros with the number in front, if the length leaves room for it. */
  method BuildPayload(len: int32, i: int32) returns (r: Result<array<jbyte>>)
    ensures 0 <= len <= INT_MAX - SIZE_INT ==>
              r.Success? && fresh(r.value) && r.value[..] == BytesOf(i) + Zeros(len)
    ensures len < 0 <= len + SIZE_INT ==> r == Failure(IndexOutOfBounds)
    ensures len + SIZE_INT < 0 || len > INT_MAX - SIZE_INT ==> r == Failure(NegativeArraySize)
  {
    var size := Wrap(SIZE_INT + len);
    if size < 0 {
      return Failure(NegativeArraySize);
    }
    var payload := new jbyte[size](_ => 0);
    var id := ToByteArray(i);
    ghost var number := id[..];
    for j := 0 to id.Length
      invariant id[..] == number && j <= payload.Length
      invariant forall k :: 0 <= k < j ==> payload[k] == number[k]
      invariant forall k :: j <= k < payload.Length ==> payload[k] == 0
    {
      if j >= payload.Length {
        return Failure(IndexOutOfBounds);
      }
      payload[j] := id[j];
    }
    assert payload[..SIZE_INT] == number;
    assert payload[SIZE_INT..] == Zeros(len);
    assert payload[..] == payload[..SIZE_INT] + payload[SIZE_INT..];
    return Success(payload);
  }

  /** One packet of the client's loop. */
  method BuildPacket(len: int32, secretA: int32, i: int32) returns (r: Result<array<jbyte>>)
    ensures Fits(len) ==> r.Success? && fresh(r.value) && r.value[..] == ClientPacket(len, secretA, i)
    ensures !Fits(len) ==> r == Failure(if len < 0 <= len + SIZE_INT then IndexOutOfBounds else NegativeArraySize)
  {
    var payload := BuildPayload(len, i);
    if payload.Failure? {
      return payload;
    }
    FitsExactly(len);
    var secret := ToByteArray(secretA);
    r := ClientPacketize(payload.value, secret, "b1");
  }

  /** The packet size that the server computes, in Java's arithmetic. */
  method ServerPacketSize(len: int32) returns (packetSize: int32)
    requires Fits(len)
    ensures packetSize == PacketLength(len)
  {
    packetSize := Wrap(SIZE_HEADER + len + SIZE_INT);
    packetSize := Wrap(packetSize + Rem(SIZE_INT - Rem(packetSize, SIZE_INT), SIZE_INT));
  }

  ghost predicate ZeroFilled(buf: seq<jbyte>) {
    forall j :: SIZE_HEADER + SIZE_INT <= j < |buf| - 1 ==> buf[j] == 0
  }

  /** What the server makes of the packet in its buffer when it expects number i. */
  ghost function Verdict(buf: seq<jbyte>, len: int32, secretA: int32, i: int32): Outcome
    requires Fits(len) && |buf| == PacketLength(len)
  {
    if !ValidHeader(len + SIZE_INT, secretA, 1, buf) || !ZeroFilled(buf) then Threw(IllegalArgument)
    else if IntOf(buf[SIZE_HEADER..SIZE_HEADER + SIZE_INT]) != i then Threw(IllegalState)
    else Done
  }

  method IsZeroFilled(bufIn: array<jbyte>) returns (ok: bool)
    ensures ok <==> ZeroFilled(bufIn[..])
  {
    var j := SIZE_HEADER + SIZE_INT;
    while j < bufIn.Length - 1
      invariant SIZE_HEADER + SIZE_INT <= j
      invariant forall k :: SIZE_HEADER + SIZE_INT <= k < j && k < bufIn.Length - 1 ==> bufIn[k] == 0
    {
      if bufIn[j] != 0 {
        assert bufIn[..][j] != 0;
        return false;
      }
      j := j + 1;
    }
    return true;
  }

  /** The checks in the server's loop. */
  method CheckPacket(bufIn: array<jbyte>, len: int32, secretA: int32, i: int32) returns (out: Outcome)
    requires Fits(len) && bufIn.Length == PacketLength(len)
    ensures out == Verdict(bufIn[..], len, secretA, i)
  {
    if !ValidHeader(len + SIZE_INT, secretA, 1, bufIn[..]) {
      return Threw(IllegalArgument);
    }
    var zeros := IsZeroFilled(bufIn);
    if !zeros {
      return Threw(IllegalArgument);
    }
    var seqNum := ExtractInt(bufIn, SIZE_HEADER);
    assert bufIn[..][SIZE_HEADER..SIZE_HEADER + SIZE_INT] == bufIn[SIZE_HEADER..SIZE_HEADER + SIZE_INT];
    if seqNum.value != i {
      return Threw(IllegalState);
    }
    return Done;
  }

  ghost predicate StepHeader(buf: seq<jbyte>, len: int32, secretA: int32, id: int32)
    requires Fits(len)
  {
    HasHeader(buf, len + SIZE_INT, secretA, 1, id)
  }

  lemma PacketParts(len: int32, secretA: int32, i: int32, id: int32) returns (packet: seq<jbyte>)
    requires Fits(len)
    ensures packet == Packet(BytesOf(i) + Zeros(len), BytesOf(secretA), 1, id)
    ensures |packet| == PacketLength(len)
    ensures StepHeader(packet, len, secretA, id)
    ensures packet[SIZE_HEADER..SIZE_HEADER + SIZE_INT] == BytesOf(i)
    ensures packet[SIZE_HEADER + SIZE_INT..] == Zeros(PacketLength(len) - SIZE_HEADER - SIZE_INT)
  {
    packet := Packet(BytesOf(i) + Zeros(len), BytesOf(secretA), 1, id);
  }

  lemma LongEnough(len: int32)
    requires Fits(len)
    ensures Wrap(SIZE_HEADER + len + SIZE_INT) <= PacketLength(len)
    ensures len % SIZE_INT == 0 <==> PacketLength(len) == SIZE_HEADER + SIZE_INT + len
  {
  }

  lemma HeaderAccepted(buf: seq<jbyte>, len: int32, secretA: int32)
    requires Fits(len) && |buf| == PacketLength(len)
    ensures ValidHeader(len + SIZE_INT, secretA, 1, buf) <==>
            exists id: int32 :: 0 <= id <= 999 && StepHeader(buf, len, secretA, id)
  {
    LongEnough(len);
    ValidHeaderExactly(len + SIZE_INT, secretA, 1, buf);
    var payloadLen: int32, step: jbyte := len + SIZE_INT, 1;
    if id: int32 :| 0 <= id <= 999 && HasHeader(buf, payloadLen, secretA, step, id) {
      assert StepHeader(buf, len, secretA, id);
    }
  }

  /** Whatever it expects, the server faults a packet of the client for its number alone. */
  lemma ClientPacketVerdict(len: int32, secretA: int32, i: int32, expected: int32)
    requires Fits(len)
    ensures |ClientPacket(len, secretA, i)| == PacketLength(len)
    ensures Verdict(ClientPacket(len, secretA, i), len, secretA, expected) ==
            if i == expected then Done else Threw(IllegalState)
  {
    var packet := PacketParts(len, secretA, i, STUDENT);
    HeaderAccepted(packet, len, secretA);
    IntSurvives(i);
  }

  /** A packet of the right length is what a client with some student number sends, but for its last byte. */
  ghost predicate ClientLike(buf: seq<jbyte>, len: int32, secretA: int32, i: int32, id: int32)
    requires Fits(len) && |buf| == PacketLength(len)
  {
    var packet := Packet(BytesOf(i) + Zeros(len), BytesOf(secretA), 1, id);
    if len == 0 then buf == packet else |packet| == |buf| && buf[..|buf| - 1] == packet[..|buf| - 1]
  }

  /** Equality up to the last byte, field by field. */
  lemma SameButLast(buf: seq<jbyte>, packet: seq<jbyte>, h: seq<jbyte>, b: seq<jbyte>)
    requires |buf| == |packet| > 16 && |h| == 12 && |b| == 4
    requires packet[..12] == h && packet[12..16] == b && packet[16..] == Zeros(|packet| - 16)
    ensures buf[..|buf| - 1] == packet[..|buf| - 1] <==> buf[..12] == h && buf[12..16] == b && ZeroFilled(buf)
  {
    var n := |buf| - 1;
    var c, d := buf[..n], packet[..n];
    assert c[..12] == buf[..12] && c[12..16] == buf[12..16] && c == c[..12] + c[12..16] + c[16..];
    assert d[..12] == h && d[12..16] == b && d == d[..12] + d[12..16] + d[16..];
    assert forall j :: 16 <= j < n ==> d[j] == packet[16..][j - 16] == 0;
    if ZeroFilled(buf) {
      assert c[16..] == d[16..];
    }
  }

  lemma Same(buf: seq<jbyte>, packet: seq<jbyte>, h: seq<jbyte>, b: seq<jbyte>)
    requires |buf| == |packet| == 16 && |h| == 12 && |b| == 4
    requires packet[..12] == h && packet[12..16] == b
    ensures buf == packet <==> buf[..12] == h && buf[12..16] == b && ZeroFilled(buf)
  {
    assert buf == buf[..12] + buf[12..16] && packet == packet[..12] + packet[12..16];
  }

  lemma ClientLikeByParts(buf: seq<jbyte>, len: int32, secretA: int32, i: int32, id: int32)
    requires Fits(len) && |buf| == PacketLength(len)
    ensures ClientLike(buf, len, secretA, i, id) <==>
            && StepHeader(buf, len, secretA, id)
            && buf[SIZE_HEADER..SIZE_HEADER + SIZE_INT] == BytesOf(i)
            && ZeroFilled(buf)
  {
    var packet := PacketParts(len, secretA, i, id);
    if len == 0 {
      Same(buf, packet, Header(len + SIZE_INT, BytesOf(secretA), 1, id), BytesOf(i));
    } else {
      SameButLast(buf, packet, Header(len + SIZE_INT, BytesOf(secretA), 1, id), BytesOf(i));
    }
  }

  lemma VerdictByParts(buf: seq<jbyte>, len: int32, secretA: int32, i: int32)
    requires Fits(len) && |buf| == PacketLength(len)
    ensures Verdict(buf, len, secretA, i) == Done <==>
            && (exists id: int32 :: 0 <= id <= 999 && StepHeader(buf, len, secretA, id))
            && buf[SIZE_HEADER..SIZE_HEADER + SIZE_INT] == BytesOf(i)
            && ZeroFilled(buf)
  {
    HeaderAccepted(buf, len, secretA);
    FieldBytes(buf, SIZE_HEADER, i);
  }

  lemma ClientLikeIsAccepted(buf: seq<jbyte>, len: int32, secretA: int32, i: int32, id: int32)
    requires Fits(len) && |buf| == PacketLength(len) && 0 <= id <= 999
    ensures ClientLike(buf, len, secretA, i, id) ==> Verdict(buf, len, secretA, i) == Done
  {
    ClientLikeByParts(buf, len, secretA, i, id);
    VerdictByParts(buf, len, secretA, i);
  }

  lemma AcceptedIsClientLike(buf: seq<jbyte>, len: int32, secretA: int32, i: int32) returns (id: int32)
    requires Fits(len) && |buf| == PacketLength(len) && Verdict(buf, len, secretA, i) == Done
    ensures 0 <= id <= 999 && ClientLike(buf, len, secretA, i, id)
  {
    VerdictByParts(buf, len, secretA, i);
    id :| 0 <= id <= 999 && StepHeader(buf, len, secretA, id);
    ClientLikeByParts(buf, len, secretA, i, id);
  }

  /** The server accepts exactly the packets of a client with a student number up to 999, the last byte aside. */
  lemma AcceptedExactly(buf: seq<jbyte>, len: int32, secretA: int32, i: int32)
    requires Fits(len) && |buf| == PacketLength(len)
    ensures Verdict(buf, len, secretA, i) == Done <==>
            exists id: int32 :: 0 <= id <= 999 && ClientLike(buf, len, secretA, i, id)
  {
    if Verdict(buf, len, secretA, i) == Done {
      var id := AcceptedIsClientLike(buf, len, secretA, i);
    }
    forall id: int32 | 0 <= id <= 999
      ensures ClientLike(buf, len, secretA, i, id) ==> Verdict(buf, len, secretA, i) == Done
    {
      ClientLikeIsAccepted(buf, len, secretA, i, id);
    }
  }

  /** A packet whose header fields are the ones demanded, whoever sent it, with zeros behind the number. */
  ghost predicate WellFormedPacket(buf: seq<jbyte>, len: int32, secretA: int32, id: int32)
    requires Fits(len)
  {
    HeaderFields(buf, len + 4, BytesOf(secretA), 1, id) && forall j :: 16 <= j < |buf| - 1 ==> buf[j] == 0
  }

  lemma PairIs(buf: seq<jbyte>, at: nat)
    requires at + 2 <= |buf|
    ensures TwoBytes(buf, at) == Pair(buf[at], buf[at + 1])
  {
    TwoBytesValue(buf, at);
  }

  lemma PairIsOne(hi: jbyte, lo: jbyte)
    ensures Pair(hi, lo) == 1 <==> hi == 0 && lo == 1
  {
  }

  lemma ReadsByFields(buf: seq<jbyte>, length: int32, secretA: int32, id: int32)
    requires |buf| >= SIZE_HEADER && 0 <= id < 0x1_0000
    ensures Reads(buf, length, secretA, 1, id) <==> HeaderFields(buf, length, BytesOf(secretA), 1, id)
  {
    IntIsBigEndian(buf[0..4]);
    FieldBytes(buf, 4, secretA);
    PairIs(buf, 8);
    PairIs(buf, 10);
    PairIsOne(buf[8], buf[9]);
  }

  lemma HeaderByFields(buf: seq<jbyte>, len: int32, secretA: int32, id: int32)
    requires Fits(len) && |buf| >= SIZE_HEADER && 0 <= id < 0x1_0000
    ensures StepHeader(buf, len, secretA, id) <==> HeaderFields(buf, len + 4, BytesOf(secretA), 1, id)
  {
    HeaderIsReadBack(buf, len + SIZE_INT, secretA, 1, id);
    ReadsByFields(buf, len + SIZE_INT, secretA, id);
  }

  /** Which packets pass, and with which exception the others are turned away. */
  lemma VerdictExactly(buf: seq<jbyte>, len: int32, secretA: int32, i: int32)
    requires Fits(len) && |buf| == PacketLength(len)
    ensures var fine := exists id: int32 :: 0 <= id <= 999 && WellFormedPacket(buf, len, secretA, id);
            Verdict(buf, len, secretA, i) ==
              if !fine then Threw(IllegalArgument)
              else if BigEndian(buf[12..16]) != i then Threw(IllegalState)
              else Done
  {
    HeaderAccepted(buf, len, secretA);
    IntIsBigEndian(buf[12..16]);
    forall id: int32 | 0 <= id <= 999
      ensures StepHeader(buf, len, secretA, id) && ZeroFilled(buf) <==> WellFormedPacket(buf, len, secretA, id)
    {
      HeaderByFields(buf, len, secretA, id);
    }
  }

  ghost predicate PayloadIsZero(buf: seq<jbyte>, len: nat)
    requires |buf| == PacketLength(len)
  {
    forall j :: SIZE_HEADER + SIZE_INT <= j < SIZE_HEADER + SIZE_INT + len ==> buf[j] == 0
  }

  /**
   The loop over the payload stops one byte short of the packet's end.  So an accepted payload is sure to be
   all zeros exactly when it is empty or followed by padding.
   */
  lemma ZeroCheckExactly(len: int32, secretA: int32, i: int32)
    requires Fits(len)
    ensures (forall buf :: |buf| == PacketLength(len) && Verdict(buf, len, secretA, i) == Done ==>
              PayloadIsZero(buf, len))
            <==> len == 0 || len % SIZE_INT != 0
  {
    LongEnough(len);
    if len > 0 && len % SIZE_INT == 0 {
      LastByteUnchecked(len, secretA, i);
    }
  }

  lemma Tampered(len: int32, secretA: int32, i: int32) returns (buf: seq<jbyte>)
    requires Fits(len) && len > 0
    ensures |buf| == PacketLength(len) && ClientLike(buf, len, secretA, i, STUDENT) && buf[|buf| - 1] == 1
  {
    var packet := PacketParts(len, secretA, i, STUDENT);
    buf := packet[..|packet| - 1] + [1];
    assert buf[..|buf| - 1] == packet[..|packet| - 1];
  }

  lemma LastByteUnchecked(len: int32, secretA: int32, i: int32)
    requires Fits(len) && len > 0 && len % SIZE_INT == 0
    ensures exists buf ::
              |buf| == PacketLength(len) && Verdict(buf, len, secretA, i) == Done && !PayloadIsZero(buf, len)
  {
    var buf := Tampered(len, secretA, i);
    ClientLikeIsAccepted(buf, len, secretA, i, STUDENT);
    LongEnough(len);
  }

  /** The fields that a message carries, one int after the other. */
  function Fields(ns: seq<int32>): (b: seq<jbyte>)
    ensures |b| == SIZE_INT * |ns|
  {
    if ns == [] then [] else Fields(ns[..|ns| - 1]) + BytesOf(ns[|ns| - 1])
  }

  lemma {:induction false} FieldAt(ns: seq<int32>, k: nat)
    requires k < |ns|
    ensures Fields(ns)[SIZE_INT * k..SIZE_INT * k + SIZE_INT] == BytesOf(ns[k])
  {
    if k < |ns| - 1 {
      FieldAt(ns[..|ns| - 1], k);
    }
  }

  lemma MiddleSlice(h: seq<jbyte>, f: seq<jbyte>, z: seq<jbyte>, at: nat)
    requires at + SIZE_INT <= |f|
    ensures (h + f + z)[|h| + at..|h| + at + SIZE_INT] == f[at..at + SIZE_INT]
  {
  }

  /** Every int that the server puts in a message is the int that the client extracts at its offset. */
  lemma FieldsAreReadBack(ns: seq<int32>, secret: seq<jbyte>, step: jbyte, id: int32, k: nat)
    requires |secret| == SIZE_INT && SIZE_INT * |ns| <= INT_MAX && k < |ns|
    ensures var packet := Packet(Fields(ns), secret, step, id);
            var at := SIZE_HEADER + SIZE_INT * k;
            at + SIZE_INT <= |packet| && IntOf(packet[at..at + SIZE_INT]) == ns[k]
  {
    FieldAt(ns, k);
    IntSurvives(ns[k]);
    MiddleSlice(Header(SIZE_INT * |ns|, secret, step, id), Fields(ns),
                Zeros(Padding(SIZE_HEADER + |Fields(ns)|)), SIZE_INT * k);
  }

  function AckPacket(secretA: int32, id: int32, i: int32): seq<jbyte> {
    Packet(Fields([i]), BytesOf(secretA), 1, id)
  }

  function FinalPacket(secretA: int32, id: int32, tcpPort: int32, secretB: int32): seq<jbyte> {
    Packet(Fields([tcpPort, secretB]), BytesOf(secretA), 2, id)
  }

  /** An acknowledgement of number i: four bytes of payload behind a header of step 1. */
  ghost predicate IsAck(p: seq<jbyte>, secretA: int32, id: int32, i: int) {
    |p| == 16 && HeaderFields(p, 4, BytesOf(secretA), 1, id) && BigEndian(p[12..16]) == i
  }

  lemma AckLayout(secretA: int32, id: int32, i: int32)
    ensures IsAck(AckPacket(secretA, id, i), secretA, id, i)
  {
    FieldsOfOne(i);
    PacketLayout(BytesOf(i), BytesOf(secretA), 1, id);
    BytesAreBigEndian(i);
  }

  /** A final answer: port and secret behind a header of step 2. */
  ghost predicate IsFinal(p: seq<jbyte>, secretA: int32, id: int32, tcpPort: int, secretB: int) {
    && |p| == 20 && HeaderFields(p, 8, BytesOf(secretA), 2, id)
    && BigEndian(p[12..16]) == tcpPort && BigEndian(p[16..20]) == secretB
  }

  lemma FinalLayout(secretA: int32, id: int32, tcpPort: int32, secretB: int32)
    ensures IsFinal(FinalPacket(secretA, id, tcpPort, secretB), secretA, id, tcpPort, secretB)
  {
    var fields := Fields([tcpPort, secretB]);
    FieldAt([tcpPort, secretB], 0);
    FieldAt([tcpPort, secretB], 1);
    PacketLayout(fields, BytesOf(secretA), 2, id);
    var p := FinalPacket(secretA, id, tcpPort, secretB);
    assert p[12..16] == p[12..20][0..4] && p[16..20] == p[12..20][4..8];
    BytesAreBigEndian(tcpPort);
    BytesAreBigEndian(secretB);
  }

  /** The client's packet: the number and `len` zeros behind a header of step 1 for student 472. */
  lemma ClientPacketLayout(len: int32, secretA: int32, i: int32)
    requires Fits(len)
    ensures var p := ClientPacket(len, secretA, i);
            && |p| == PacketLength(len) && |p| % 4 == 0 && 16 + len <= |p| < 20 + len
            && HeaderFields(p, len + 4, BytesOf(secretA), 1, 472)
            && BigEndian(p[12..16]) == i && forall j :: 16 <= j < |p| ==> p[j] == 0
  {
    var payload := BytesOf(i) + Zeros(len);
    var p := PacketParts(len, secretA, i, STUDENT);
    PacketLayout(payload, BytesOf(secretA), 1, STUDENT);
    BytesAreBigEndian(i);
    assert forall j :: 16 <= j < |p| ==> p[j] == p[16..][j - 16];
  }

  lemma FieldsOfOne(n: int32)
    ensures Fields([n]) == BytesOf(n)
  {
    assert [n][..0] == [] && Fields([]) == [];
  }

  /** The server's acknowledgement of number i. */
  method BuildAck(secretA: int32, id: int32, i: int32) returns (bufOut: array<jbyte>)
    ensures fresh(bufOut) && bufOut[..] == AckPacket(secretA, id, i) && IsAck(bufOut[..], secretA, id, i)
  {
    AckLayout(secretA, id, i);
    FieldsOfOne(i);
    var payload := ToByteArray(i);
    var secret := ToByteArray(secretA);
    var r := Packetize(payload, secret, "b1", id);
    bufOut := r.value;
  }

  lemma FieldsOfTwo(a: int32, b: int32)
    ensures Concat([BytesOf(a), BytesOf(b)]) == Fields([a, b])
  {
    FieldsOfOne(a);
    assert [a, b][..1] == [a];
    var pieces := [BytesOf(a), BytesOf(b)];
    assert pieces[..1] == [BytesOf(a)] && [BytesOf(a)][..0] == [];
    assert Concat([BytesOf(a)]) == BytesOf(a);
  }

  /** The server's final answer. */
  method BuildFinal(secretA: int32, id: int32, tcpPort: int32, secretB: int32) returns (bufOut: array<jbyte>)
    ensures fresh(bufOut) && bufOut[..] == FinalPacket(secretA, id, tcpPort, secretB)
    ensures IsFinal(bufOut[..], secretA, id, tcpPort, secretB)
  {
    FinalLayout(secretA, id, tcpPort, secretB);
    var portBytes := ToByteArray(tcpPort);
    var secretBytes := ToByteArray(secretB);
    var fields := new array<jbyte>[] [portBytes, secretBytes];
    assert Views(fields[..]) == [BytesOf(tcpPort), BytesOf(secretB)];
    FieldsOfTwo(tcpPort, secretB);
    var adjoined := AdjoinByteArrays(fields);
    var secret := ToByteArray(secretA);
    var r := Packetize(adjoined.value, secret, "b2", id);
    bufOut := r.value;
  }
}
