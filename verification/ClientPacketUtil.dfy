/** The client's variant of the builder, which has the student number wired in. */
module ClientPacketUtil {
  import opened JavaInts
  import opened PacketUtil

  /** The wired-in bytes are those the server's builder writes for STUDENT. */
  lemma StudentBytes()
    ensures BytesOf(STUDENT)[2..] == [ToByte(0x1), ToByte(0xD8)]
  {
    assert BytesOf(STUDENT) == [0, 0, 1, -40];
  }

  method ClientInsertHeader(packet: array<jbyte>, trueLength: int32, step: string, prevSecret: array<jbyte>)
    returns (out: Outcome)
    modifies packet
    ensures HeaderInserted(old(packet[..]), packet[..], out, trueLength, step,
                           SecretSeen(packet, trueLength, prevSecret), STUDENT)
  {
    if packet.Length < SIZE_HEADER {
      return Threw(IllegalArgument);
    }
    out := InsertLengthAndSecret(packet, trueLength, prevSecret);
    if out.Threw? {
      return;
    }
    out := InsertStep(packet, step);
    if out.Threw? {
      return;
    }
    StudentBytes();
    InsertStudent(packet, ToByte(0x1), ToByte(0xD8));
  }

  method ClientPacketize(payload: array<jbyte>, prevSecret: array<jbyte>, step: string)
    returns (r: Result<array<jbyte>>)
    requires payload.Length <= INT_MAX
    ensures match PacketizeFails(payload.Length, prevSecret.Length, step)
            case Threw(error) => r == Failure(error)
            case Done => r.Success? && fresh(r.value)
                         && r.value[..] == Packet(payload[..], prevSecret[..], StepNumber(step).value, STUDENT)
  {
    if prevSecret.Length != SIZE_INT {
      return Failure(IllegalArgument);
    }
    var size := PacketSize(payload.Length);
    if size < 0 {
      return Failure(NegativeArraySize);
    }
    var packet := new jbyte[size](_ => 0);
    assert packet[SIZE_HEADER + payload.Length..] == Zeros(Padding(SIZE_HEADER + payload.Length));
    var out := ClientInsertHeader(packet, payload.Length, step, prevSecret);
    if out.Threw? {
      return Failure(out.error);
    }
    assert prevSecret[..SIZE_INT] == prevSecret[..];
    assert packet[..SIZE_HEADER] == Header(payload.Length, prevSecret[..], StepNumber(step).value, STUDENT);
    assert packet[SIZE_HEADER + payload.Length..] == Zeros(Padding(SIZE_HEADER + payload.Length));
    FillPayload(packet, payload);
    return Success(packet);
  }
}
