/**
 The packet builder of the step protocol: a 12-byte header (payload length, previous secret, step number,
 student number), the payload, and zeros up to a multiple of four.
 */
module PacketUtil {
  import opened JavaInts

  const SIZE_HEADER: nat := 12

  /** The student number that the client writes into every header: bytes 0x01 and 0xD8. */
  const STUDENT: int32 := 472

  datatype Error = IllegalArgument | IllegalState | IndexOutOfBounds | NumberFormat | NegativeArraySize
  datatype Result<T> = Success(value: T) | Failure(error: Error)
  datatype Outcome = Done | Threw(error: Error)

  /** One turn of the loop of extractInt: the value so far moves up by a byte, and the next is added. */
  method AppendByte(n: int32, b: jbyte, ghost before: seq<jbyte>) returns (r: int32)
    ensures n == IntOf(before) ==> r == IntOf(before + [b])
  {
    IntAppends(before, b);
    r := Wrap(n * 256);
    r := Wrap(r + Low(b));
  }

  /** The loop of extractInt. */
  method FoldBytes(data: array<jbyte>, start: nat, end: int) returns (n: int32)
    requires end <= data.Length
    ensures start <= end ==> n == IntOf(data[start..end])
    ensures end < start ==> n == 0
  {
    n := 0;
    var i := start;
    while i < end
      invariant start <= i && (start <= end ==> i <= end)
      invariant start <= end ==> n == IntOf(data[start..i])
      invariant end < start ==> n == 0
    {
      assert data[start..i + 1] == data[start..i] + [data[i]];
      n := AppendByte(n, data[i], data[start..i]);
      i := i + 1;
    }
  }

  /** start + SIZE_INT, in 32-bit arithmetic. */
  method EndOf(start: int32) returns (end: int32)
    ensures start + SIZE_INT <= INT_MAX ==> end == start + SIZE_INT
    ensures start + SIZE_INT > INT_MAX ==> end < 0
  {
    end := Wrap(start + SIZE_INT);
  }

  method ExtractInt(data: array<jbyte>, start: int32) returns (r: Result<int32>)
    requires data.Length <= INT_MAX
    ensures start < 0 || data.Length < start + SIZE_INT <= INT_MAX ==> r == Failure(IllegalArgument)
    ensures 0 <= start && start + SIZE_INT <= data.Length ==> r == Success(IntOf(data[start..start + SIZE_INT]))
    // The end of the four bytes is computed in 32 bits: past the largest int the guard lets the call through.
    ensures INT_MAX < start + SIZE_INT ==> r == Success(0)
  {
    var end := EndOf(start);
    if start < 0 || end > data.Length {
      return Failure(IllegalArgument);
    }
    var n := FoldBytes(data, start, end);
    return Success(n);
  }

  method ToByteArray(n: int32) returns (res: array<jbyte>)
    ensures fresh(res) && res[..] == BytesOf(n)
  {
    res := new jbyte[SIZE_INT](_ => 0);
    var rest: int := n;
    for i := 0 to SIZE_INT
      invariant LowBytes(rest, SIZE_INT - i) + res[SIZE_INT - i..] == BytesOf(n)
    {
      ghost var tail := res[SIZE_INT - i..];
      res[SIZE_INT - 1 - i] := ToByte(rest);
      assert res[SIZE_INT - i - 1..] == [ToByte(rest)] + tail;
      rest := rest / 256;
    }
  }

  lemma RoundedUp(q: nat, r: nat)
    requires r < SIZE_INT
    ensures (SIZE_INT * q + r + (SIZE_INT - r) % SIZE_INT) % SIZE_INT == 0
  {
  }

  function Padding(n: nat): (p: nat)
    ensures p < SIZE_INT && (n + p) % SIZE_INT == 0
  {
    RoundedUp(n / SIZE_INT, n % SIZE_INT);
    (SIZE_INT - n % SIZE_INT) % SIZE_INT
  }

  /** Padding reaches the least multiple of four: none lies between. */
  lemma PaddingIsLeast(n: nat, m: nat)
    requires n <= m && m % SIZE_INT == 0
    ensures n + Padding(n) <= m
  {
    assert n == SIZE_INT * (n / SIZE_INT) + n % SIZE_INT;
    assert m == SIZE_INT * (m / SIZE_INT);
  }

  function StepNumber(step: string): Result<jbyte> {
    if |step| < 2 then Failure(IndexOutOfBounds)
    else if '0' <= step[1] <= '9' then Success(step[1] as int - '0' as int)
    else Failure(NumberFormat)
  }

  const DIGITS := "0123456789"

  /** The second character decides: the value of a digit, an exception for any other or for none. */
  lemma StepNumberExactly(step: string)
    ensures match StepNumber(step)
            case Success(d) => |step| >= 2 && 0 <= d < 10 && DIGITS[d] == step[1]
            case Failure(e) =>
              if |step| < 2 then e == IndexOutOfBounds
              else e == NumberFormat && forall k :: 0 <= k < 10 ==> DIGITS[k] != step[1]
  {
  }

  function Header(trueLength: int32, secret: seq<jbyte>, step: jbyte, id: int32): (h: seq<jbyte>)
    requires |secret| == SIZE_INT
    ensures |h| == SIZE_HEADER
  {
    BytesOf(trueLength) + secret + [0, step] + BytesOf(id)[2..]
  }

  function Packet(payload: seq<jbyte>, secret: seq<jbyte>, step: jbyte, id: int32): seq<jbyte>
    requires |secret| == SIZE_INT && |payload| <= INT_MAX
  {
    Header(|payload|, secret, step, id) + payload + Zeros(Padding(SIZE_HEADER + |payload|))
  }

  /** Two bytes as an unsigned number, the more significant first. */
  function Pair(hi: jbyte, lo: jbyte): int {
    var h: int, l: int := hi, lo;
    256 * (h % 256) + l % 256
  }

  /** The header of a packet, field by field at its offset. */
  ghost predicate HeaderFields(p: seq<jbyte>, length: int, secret: seq<jbyte>, step: int, id: int) {
    && |p| >= SIZE_HEADER
    && BigEndian(p[0..4]) == length && p[4..8] == secret
    && p[8] == 0 && p[9] == step && Pair(p[10], p[11]) == id % 0x1_0000
  }

  lemma LowHalf(b: seq<jbyte>)
    requires |b| == SIZE_INT
    ensures BigEndian(b) % 0x1_0000 == Pair(b[2], b[3])
  {
  }

  /** A packet, byte by byte: its header, the payload at offset 12, and zeros up to the least multiple of four. */
  lemma PacketLayout(payload: seq<jbyte>, secret: seq<jbyte>, step: jbyte, id: int32)
    requires |secret| == SIZE_INT && |payload| <= INT_MAX
    ensures var p := Packet(payload, secret, step, id);
            && |p| % 4 == 0 && 12 + |payload| <= |p| < 16 + |payload|
            && HeaderFields(p, |payload|, secret, step, id)
            && p[12..12 + |payload|] == payload && forall j :: 12 + |payload| <= j < |p| ==> p[j] == 0
  {
    var p := Packet(payload, secret, step, id);
    assert p[0..4] == BytesOf(|payload|) && p[4..8] == secret && p[10..12] == BytesOf(id)[2..];
    BytesAreBigEndian(|payload|);
    BytesAreBigEndian(id);
    LowHalf(BytesOf(id));
    assert p[10] == p[10..12][0] && p[11] == p[10..12][1];
    assert p[12 + |payload|..] == Zeros(Padding(SIZE_HEADER + |payload|));
    assert forall j :: 12 + |payload| <= j < |p| ==> p[j] == p[12 + |payload|..][j - 12 - |payload|];
  }

  /** What insertHeader has done when it returns or throws. */
  ghost predicate HeaderInserted(before: seq<jbyte>, after: seq<jbyte>, out: Outcome,
                                 trueLength: int32, step: string, secret: seq<jbyte>, id: int32)
  {
    if |before| < SIZE_HEADER then
      out == Threw(IllegalArgument) && after == before
    else if |secret| < SIZE_INT then
      && out == Threw(IndexOutOfBounds)
      && after == BytesOf(trueLength) + secret + before[SIZE_INT + |secret|..]
    else
      match StepNumber(step)
      case Failure(error) =>
        && out == Threw(error)
        && after == BytesOf(trueLength) + secret[..SIZE_INT] + [0] + before[9..]
      case Success(number) =>
        && out == Done
        && after == Header(trueLength, secret[..SIZE_INT], number, id) + before[SIZE_HEADER..]
  }

  /** Copies one four-byte field into the packet. */
  method InsertField(packet: array<jbyte>, at: nat, field: array<jbyte>) returns (out: Outcome)
    requires (packet == field ==> at >= SIZE_INT) && packet.Length >= at + SIZE_INT
    modifies packet
    ensures field.Length >= SIZE_INT ==>
              && out == Done
              && packet[..] == old(packet[..at]) + old(field[..SIZE_INT]) + old(packet[at + SIZE_INT..])
    ensures field.Length < SIZE_INT ==>
              && out == Threw(IndexOutOfBounds)
              && packet[..] == old(packet[..at]) + old(field[..]) + old(packet[at + field.Length..])
  {
    for i := 0 to SIZE_INT
      invariant i <= field.Length
      invariant forall k :: at <= k < at + i ==> packet[k] == old(field[k - at])
      invariant forall k :: 0 <= k < at || at + i <= k < packet.Length ==> packet[k] == old(packet[k])
    {
      if i >= field.Length {
        return Threw(IndexOutOfBounds);
      }
      packet[at + i] := field[i];
    }
    return Done;
  }

  /** What the caller's secret array holds when it is copied: the length, if it is the packet itself. */
  ghost function SecretSeen(packet: array<jbyte>, trueLength: int32, prevSecret: array<jbyte>): seq<jbyte>
    reads prevSecret
  {
    if packet == prevSecret then BytesOf(trueLength) else prevSecret[..]
  }

  /** The first two fields of the header, the same on both sides. */
  method InsertLengthAndSecret(packet: array<jbyte>, trueLength: int32, prevSecret: array<jbyte>) returns (out: Outcome)
    requires packet.Length >= SIZE_HEADER
    modifies packet
    ensures prevSecret.Length < SIZE_INT ==>
              && out == Threw(IndexOutOfBounds)
              && packet[..] == BytesOf(trueLength) + old(prevSecret[..]) + old(packet[SIZE_INT + prevSecret.Length..])
    ensures prevSecret.Length >= SIZE_INT ==>
              var secret := SecretSeen(packet, trueLength, prevSecret);
              && out == Done && |secret| >= SIZE_INT
              && packet[..] == BytesOf(trueLength) + secret[..SIZE_INT] + old(packet[8..])
  {
    var length := ToByteArray(trueLength);
    out := InsertField(packet, 0, length);
    assert packet[..SIZE_INT] == length[..SIZE_INT] == length[..];
    assert packet[SIZE_INT..] == old(packet[SIZE_INT..]);
    assert packet == prevSecret ==> prevSecret[..SIZE_INT] == BytesOf(trueLength);
    out := InsertField(packet, SIZE_INT, prevSecret);
  }

  /** The step number: its first byte is written before the step string is looked at. */
  method InsertStep(packet: array<jbyte>, step: string) returns (out: Outcome)
    requires packet.Length >= SIZE_HEADER
    modifies packet
    ensures match StepNumber(step)
            case Failure(error) => out == Threw(error) && packet[..] == old(packet[..8]) + [0] + old(packet[9..])
            case Success(number) => out == Done && packet[..] == old(packet[..8]) + [0, number] + old(packet[10..])
  {
    packet[8] := 0;
    match StepNumber(step)
    case Failure(error) =>
      return Threw(error);
    case Success(number) =>
      packet[9] := number;
      return Done;
  }

  method InsertStudent(packet: array<jbyte>, hi: jbyte, lo: jbyte)
    requires packet.Length >= SIZE_HEADER
    modifies packet
    ensures packet[..] == old(packet[..10]) + [hi, lo] + old(packet[SIZE_HEADER..])
  {
    packet[10] := hi;
    packet[11] := lo;
  }

  /** The server's insertHeader. */
  method InsertHeader(packet: array<jbyte>, trueLength: int32, step: string, prevSecret: array<jbyte>, id: int32)
    returns (out: Outcome)
    modifies packet
    ensures HeaderInserted(old(packet[..]), packet[..], out, trueLength, step,
                           SecretSeen(packet, trueLength, prevSecret), id)
  {
    if packet.Length < SIZE_HEADER {
      return Threw(IllegalArgument);
    }
    out := InsertLengthAndSecret(packet, trueLength, prevSecret);
    if out.Threw? {
      return;
    }
    out := InsertStep(packet, step);
    if out.Threw? {
      return;
    }
    var idBytes := ToByteArray(id);
    InsertStudent(packet, idBytes[2], idBytes[3]);
    assert BytesOf(id)[2..] == [idBytes[2], idBytes[3]];
  }

  /** The size that packetize computes for the whole packet, in 32-bit arithmetic. */
  method PacketSize(payloadLength: int) returns (size: int32)
    requires 0 <= payloadLength <= INT_MAX
    ensures var exact := SIZE_HEADER + payloadLength + Padding(SIZE_HEADER + payloadLength);
            if exact <= INT_MAX then size == exact else size < 0
  {
    var length := Wrap(SIZE_HEADER + payloadLength);
    size := Wrap(length + Rem(SIZE_INT - Rem(length, SIZE_INT), SIZE_INT));
  }

  /** When packetize succeeds, and with what exception it fails otherwise. */
  ghost function PacketizeFails(payloadLength: nat, secretLength: nat, step: string): Outcome {
    if secretLength != SIZE_INT then Threw(IllegalArgument)
    else if SIZE_HEADER + payloadLength + Padding(SIZE_HEADER + payloadLength) > INT_MAX then Threw(NegativeArraySize)
    else match StepNumber(step)
         case Failure(error) => Threw(error)
         case Success(_) => Done
  }

  method FillPayload(packet: array<jbyte>, payload: array<jbyte>)
    requires packet != payload && packet.Length >= SIZE_HEADER + payload.Length
    modifies packet
    ensures packet[..] == old(packet[..SIZE_HEADER]) + payload[..] + old(packet[SIZE_HEADER + payload.Length..])
  {
    for i := 0 to payload.Length
      invariant packet[..] == old(packet[..SIZE_HEADER]) + payload[..i] + old(packet[SIZE_HEADER + i..])
    {
      packet[SIZE_HEADER + i] := payload[i];
    }
    assert payload[..payload.Length] == payload[..];
  }

  /** The server's packetize. */
  method Packetize(payload: array<jbyte>, prevSecret: array<jbyte>, step: string, id: int32)
    returns (r: Result<array<jbyte>>)
    requires payload.Length <= INT_MAX
    ensures match PacketizeFails(payload.Length, prevSecret.Length, step)
            case Threw(error) => r == Failure(error)
            case Done => r.Success? && fresh(r.value)
                         && r.value[..] == Packet(payload[..], prevSecret[..], StepNumber(step).value, id)
  {
    if prevSecret.Length != SIZE_INT {
      return Failure(IllegalArgument);
    }
    var size := PacketSize(payload.Length);
    if size < 0 {
      return Failure(NegativeArraySize);
    }
    var packet := new jbyte[size](_ => 0);
    assert packet[SIZE_HEADER + payload.Length..] == Zeros(Padding(SIZE_HEADER + payload.Length));
    var out := InsertHeader(packet, payload.Length, step, prevSecret, id);
    if out.Threw? {
      return Failure(out.error);
    }
    assert prevSecret[..SIZE_INT] == prevSecret[..];
    assert packet[..SIZE_HEADER] == Header(payload.Length, prevSecret[..], StepNumber(step).value, id);
    assert packet[SIZE_HEADER + payload.Length..] == Zeros(Padding(SIZE_HEADER + payload.Length));
    FillPayload(packet, payload);
    return Success(packet);
  }

  /** The pieces one after the other. */
  ghost function Concat(pieces: seq<seq<jbyte>>): seq<jbyte> {
    if pieces == [] then [] else Concat(pieces[..|pieces| - 1]) + pieces[|pieces| - 1]
  }

  lemma ConcatStep(pieces: seq<seq<jbyte>>, i: nat)
    requires i < |pieces|
    ensures Concat(pieces[..i + 1]) == Concat(pieces[..i]) + pieces[i]
  {
    assert pieces[..i + 1][..i] == pieces[..i];
  }

  lemma {:induction false} PrefixIsShorter(pieces: seq<seq<jbyte>>, i: nat)
    requires i <= |pieces|
    ensures |Concat(pieces[..i])| <= |Concat(pieces)|
    decreases |pieces| - i
  {
    if i < |pieces| {
      PrefixIsShorter(pieces, i + 1);
      ConcatStep(pieces, i);
    } else {
      assert pieces[..i] == pieces;
    }
  }

  ghost function Views(subarrays: seq<array<jbyte>>): (views: seq<seq<jbyte>>)
    reads subarrays
    ensures |views| == |subarrays| && forall i :: 0 <= i < |views| ==> views[i] == subarrays[i][..]
  {
    if subarrays == [] then [] else Views(subarrays[..|subarrays| - 1]) + [subarrays[|subarrays| - 1][..]]
  }

  method TotalSize(subarrays: array<array<jbyte>>) returns (size: int32)
    ensures size == Wrap(|Concat(Views(subarrays[..]))|)
  {
    ghost var pieces := Views(subarrays[..]);
    size := 0;
    for i := 0 to subarrays.Length
      invariant size == Wrap(|Concat(pieces[..i])|)
    {
      ConcatStep(pieces, i);
      WrapSum(|Concat(pieces[..i])|, subarrays[i].Length);
      size := Wrap(size + subarrays[i].Length);
    }
    assert pieces[..subarrays.Length] == pieces;
  }

  lemma WrapSum(x: int, y: int)
    ensures Wrap(Wrap(x) + y) == Wrap(x + y)
  {
    var c := WrapDiffers(x);
    WrapPeriod(x + y, c);
  }

  method Append(res: array<jbyte>, fillIndex: nat, part: array<jbyte>) returns (next: nat, out: Outcome)
    requires res != part && fillIndex <= res.Length
    modifies res
    ensures fillIndex + part.Length > res.Length ==> out == Threw(IndexOutOfBounds)
    ensures fillIndex + part.Length <= res.Length ==>
              && out == Done && next == fillIndex + part.Length
              && res[..next] == old(res[..fillIndex]) + part[..]
  {
    next := fillIndex;
    for j := 0 to part.Length
      invariant next == fillIndex + j <= res.Length
      invariant res[..next] == old(res[..fillIndex]) + part[..j]
    {
      if next >= res.Length {
        return next, Threw(IndexOutOfBounds);
      }
      res[next] := part[j];
      next := next + 1;
    }
    assert part[..part.Length] == part[..];
    return next, Done;
  }

  /** Copies the pieces one behind the other, for as long as they fit. */
  method AppendAll(res: array<jbyte>, subarrays: array<array<jbyte>>, ghost pieces: seq<seq<jbyte>>)
    returns (out: Outcome)
    requires res !in subarrays[..] && |pieces| == subarrays.Length
    requires forall k :: 0 <= k < |pieces| ==> subarrays[k][..] == pieces[k]
    requires res.Length <= |Concat(pieces)|
    modifies res
    ensures res.Length < |Concat(pieces)| ==> out.Threw?
    ensures res.Length == |Concat(pieces)| ==> out == Done && res[..] == Concat(pieces)
  {
    var fillIndex: nat := 0;
    for i := 0 to subarrays.Length
      invariant fillIndex <= res.Length && res[..fillIndex] == Concat(pieces[..i])
      invariant forall k :: 0 <= k < |pieces| ==> subarrays[k][..] == pieces[k]
    {
      ConcatStep(pieces, i);
      PrefixIsShorter(pieces, i + 1);
      assert subarrays[i] in subarrays[..];
      fillIndex, out := Append(res, fillIndex, subarrays[i]);
      if out.Threw? {
        return;
      }
    }
    assert pieces[..subarrays.Length] == pieces;
    return Done;
  }

  lemma WrapWithin(x: nat)
    ensures if x <= INT_MAX then Wrap(x) == x else Wrap(x) < x
  {
  }

  method AdjoinByteArrays(subarrays: array<array<jbyte>>) returns (r: Result<array<jbyte>>)
    ensures |Concat(old(Views(subarrays[..])))| > INT_MAX ==> r.Failure?
    ensures |Concat(old(Views(subarrays[..])))| <= INT_MAX ==>
              r.Success? && fresh(r.value) && r.value[..] == Concat(old(Views(subarrays[..])))
  {
    var size := TotalSize(subarrays);
    ghost var pieces := Views(subarrays[..]);
    WrapWithin(|Concat(pieces)|);
    if size < 0 {
      return Failure(NegativeArraySize);
    }
    var res := new jbyte[size](_ => 0);
    var out := AppendAll(res, subarrays, pieces);
    if out.Threw? {
      return Failure(out.error);
    }
    return Success(res);
  }
}
