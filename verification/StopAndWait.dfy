/**
 Step B as a whole: the client's send and retransmit loop against the server's receive, check and
 acknowledge loop, over a network that delivers every packet once and in order.  The server withholds
 acknowledgements as it likes, and always at least one.  The client may time out whenever it waits; in a
 patient run it does so only for a withheld acknowledgement, that is when nothing is in flight.
 */
module StopAndWait {
  import opened JavaInts
  import opened PacketUtil
  import opened StepB

  datatype Params = Params(num: int32, len: int32, secretA: int32, id: int32, tcpPort: int32, secretB: int32) {
    predicate Ok() {
      num >= 0 && Fits(len)
    }
  }

  datatype Client = Sending | Waiting | AwaitingFinal | Finished(response: seq<jbyte>)

  datatype Server = Listening | Concluded | Failed(error: Error)

  /** `c` and `s` are the loop indices of client and server, `buf` the server's receive buffer. */
  datatype State = State(
    client: Client,
    c: nat,
    acks: seq<seq<jbyte>>,
    timeouts: nat,
    toServer: seq<seq<jbyte>>,
    toClient: seq<seq<jbyte>>,
    server: Server,
    s: nat,
    haveFailed: bool,
    withheld: nat,
    buf: seq<jbyte>)

  datatype Move = Send | Receive | Timeout | ReceiveFinal | Serve(unlucky: bool) | Conclude

  ghost predicate Init(p: Params, st: State)
    requires p.Ok()
  {
    st == State(if p.num == 0 then AwaitingFinal else Sending, 0, [], 0, [], [],
                Listening, 0, false, 0, Zeros(PacketLength(p.len)))
  }

  ghost predicate Enabled(p: Params, st: State, move: Move)
    requires p.Ok()
  {
    match move
    case Send => st.client.Sending? && st.c < p.num
    case Receive => st.client.Waiting? && st.toClient != []
    case Timeout => st.client.Waiting?
    case ReceiveFinal => st.client.AwaitingFinal? && st.toClient != []
    case Serve(_) => st.server.Listening? && st.s < p.num && st.toServer != [] && |st.buf| == PacketLength(p.len)
    case Conclude => st.server.Listening? && st.s >= p.num
  }

  /** A datagram fills the front of the buffer; what does not fit is lost, what is not reached stays. */
  ghost function Received(buf: seq<jbyte>, packet: seq<jbyte>): (r: seq<jbyte>)
    ensures |r| == |buf|
    ensures |packet| == |buf| ==> r == packet
  {
    if |packet| >= |buf| then packet[..|buf|] else packet + buf[|packet|..]
  }

  /** The server has checked the packet in its buffer: it throws, stays silent, or acknowledges. */
  ghost function Served(p: Params, st: State, verdict: Outcome, unlucky: bool): State
    requires st.s < p.num
  {
    if verdict.Threw? then st.(server := Failed(verdict.error))
    else if unlucky || (st.s == p.num - 1 && !st.haveFailed) then st.(haveFailed := true, withheld := st.withheld + 1)
    else st.(toClient := st.toClient + [AckPacket(p.secretA, p.id, st.s)], s := st.s + 1)
  }

  ghost function Next(p: Params, st: State, move: Move): State
    requires p.Ok() && Enabled(p, st, move)
  {
    match move
    case Send => st.(client := Waiting, toServer := st.toServer + [ClientPacket(p.len, p.secretA, st.c)])
    case Receive =>
      st.(client := if st.c + 1 < p.num then Sending else AwaitingFinal, c := st.c + 1,
          acks := st.acks + [Received(Zeros(SIZE_HEADER + SIZE_INT), st.toClient[0])], toClient := st.toClient[1..])
    case Timeout => st.(client := Sending, timeouts := st.timeouts + 1)
    case ReceiveFinal =>
      st.(client := Finished(Received(Zeros(SIZE_HEADER + 2 * SIZE_INT), st.toClient[0])), toClient := st.toClient[1..])
    case Serve(unlucky) =>
      var buf := Received(st.buf, st.toServer[0]);
      Served(p, st.(buf := buf, toServer := st.toServer[1..]), Verdict(buf, p.len, p.secretA, st.s), unlucky)
    case Conclude =>
      st.(server := Concluded, toClient := st.toClient + [FinalPacket(p.secretA, p.id, p.tcpPort, p.secretB)])
  }

  /** Any interleaving of the two sides, any choice of what to withhold. */
  ghost predicate IsRun(p: Params, run: seq<State>, moves: seq<Move>) {
    && p.Ok()
    && |run| == |moves| + 1
    && Init(p, run[0])
    && forall k :: 0 <= k < |moves| ==> Enabled(p, run[k], moves[k]) && run[k + 1] == Next(p, run[k], moves[k])
  }

  /** The client does not lose patience while a packet or an acknowledgement is on its way. */
  ghost predicate Timely(st: State, move: Move) {
    move.Timeout? ==> st.toServer == [] && st.toClient == []
  }

  ghost predicate PatientRun(p: Params, run: seq<State>, moves: seq<Move>) {
    IsRun(p, run, moves) && forall k :: 0 <= k < |moves| ==> Timely(run[k], moves[k])
  }

  ghost function Final(p: Params, st: State): seq<seq<jbyte>> {
    if st.server.Concluded? then [FinalPacket(p.secretA, p.id, p.tcpPort, p.secretB)] else []
  }

  ghost function Ack(p: Params, i: nat): seq<jbyte> {
    if i <= INT_MAX then AckPacket(p.secretA, p.id, i) else []
  }

  /** A packet with one of the numbers the client has sent so far. */
  ghost predicate Numbered(p: Params, packet: seq<jbyte>, c: nat)
    requires p.Ok()
  {
    exists i: int32 :: 0 <= i <= c && i < p.num && packet == ClientPacket(p.len, p.secretA, i)
  }

  ghost predicate IndicesOk(p: Params, st: State) {
    && st.c <= st.s <= st.c + 1 && st.s <= p.num
    && (st.client.Sending? || st.client.Waiting? <==> st.c < p.num)
    && (st.client.Finished? ==> st.server.Concluded?)
    && (st.server.Concluded? ==> st.s == p.num)
    && (st.server.Failed? ==> st.server.error == IllegalState && st.s < p.num && p.num >= 2)
  }

  /** Copies of old packets may be on their way to the server, but to the client only what it still lacks. */
  ghost predicate NetworkOk(p: Params, st: State)
    requires p.Ok()
  {
    && (forall j :: 0 <= j < |st.toServer| ==> Numbered(p, st.toServer[j], st.c))
    && |st.buf| == PacketLength(p.len)
    && st.toClient == (if st.s == st.c + 1 then [Ack(p, st.c)] else []) +
                      (if st.client.Finished? then [] else Final(p, st))
    && (st.client.Finished? ==> st.client.response == FinalPacket(p.secretA, p.id, p.tcpPort, p.secretB))
  }

  ghost predicate AcksOk(p: Params, st: State) {
    |st.acks| == st.c && forall i :: 0 <= i < |st.acks| ==> st.acks[i] == Ack(p, i)
  }

  /** Packets the client has sent: one for each number and timeout, and the one it waits for. */
  ghost function Sent(st: State): int {
    st.c + st.timeouts + if st.client.Waiting? then 1 else 0
  }

  /** Packets the server has taken: acknowledged, withheld, or thrown at. */
  ghost function Taken(st: State): int {
    st.s + st.withheld + if st.server.Failed? then 1 else 0
  }

  ghost predicate CountsOk(p: Params, st: State) {
    && Sent(st) == |st.toServer| + Taken(st)
    && (st.haveFailed <==> st.withheld > 0)
    && (st.s == p.num > 0 ==> st.haveFailed)
  }

  /** How many moves have been made. */
  ghost function Moves(st: State): int {
    Sent(st) + Taken(st) + st.c + st.timeouts
    + (if st.server.Concluded? then 1 else 0) + (if st.client.Finished? then 1 else 0)
  }

  ghost predicate Inv(p: Params, st: State)
    requires p.Ok()
  {
    IndicesOk(p, st) && NetworkOk(p, st) && AcksOk(p, st) && CountsOk(p, st)
  }

  lemma AckFits(p: Params, i: nat)
    requires i <= INT_MAX
    ensures |Ack(p, i)| == SIZE_HEADER + SIZE_INT
  {
  }

  lemma FinalFits(p: Params)
    ensures |FinalPacket(p.secretA, p.id, p.tcpPort, p.secretB)| == SIZE_HEADER + 2 * SIZE_INT
  {
  }

  /** The server's answer to a packet of the client, given whether it carries the number expected. */
  ghost function Answered(p: Params, st: State, packet: seq<jbyte>, expected: bool, unlucky: bool): State
    requires st.s < p.num && st.toServer != []
  {
    Served(p, st.(buf := packet, toServer := st.toServer[1..]), if expected then Done else Threw(IllegalState), unlucky)
  }

  /** What the server does with a packet of the client depends on its number alone. */
  lemma ServeClientPacket(p: Params, st: State, i: int32, unlucky: bool) returns (packet: seq<jbyte>, r: State)
    requires p.Ok() && Enabled(p, st, Serve(unlucky)) && st.toServer[0] == ClientPacket(p.len, p.secretA, i)
    ensures packet == st.toServer[0] && |packet| == PacketLength(p.len)
    ensures r == Next(p, st, Serve(unlucky)) && r == Answered(p, st, packet, i == st.s, unlucky)
  {
    packet := ClientPacket(p.len, p.secretA, i);
    ClientPacketVerdict(p.len, p.secretA, i, st.s);
    assert Received(st.buf, packet) == packet;
    r := Next(p, st, Serve(unlucky));
  }

  /** The invariant is kept and one more move is counted. */
  ghost predicate Kept(p: Params, st: State, r: State)
    requires p.Ok()
  {
    Inv(p, r) && Moves(r) == Moves(st) + 1
  }

  lemma NumberedLater(p: Params, packet: seq<jbyte>, c: nat)
    requires p.Ok() && Numbered(p, packet, c)
    ensures Numbered(p, packet, c + 1)
  {
  }

  lemma SendKeepsInv(p: Params, st: State)
    requires p.Ok() && Inv(p, st) && Enabled(p, st, Send)
    ensures Kept(p, st, Next(p, st, Send))
  {
    assert Numbered(p, ClientPacket(p.len, p.secretA, st.c), st.c);
  }

  lemma ReceiveKeepsInv(p: Params, st: State)
    requires p.Ok() && Inv(p, st) && Enabled(p, st, Receive)
    ensures Kept(p, st, Next(p, st, Receive))
  {
    AckFits(p, st.c);
    forall j | 0 <= j < |st.toServer|
      ensures Numbered(p, st.toServer[j], st.c + 1)
    {
      NumberedLater(p, st.toServer[j], st.c);
    }
  }

  lemma TimeoutKeepsInv(p: Params, st: State)
    requires p.Ok() && Inv(p, st) && Enabled(p, st, Timeout)
    ensures Kept(p, st, Next(p, st, Timeout))
  {
  }

  lemma ReceiveFinalKeepsInv(p: Params, st: State)
    requires p.Ok() && Inv(p, st) && Enabled(p, st, ReceiveFinal)
    ensures Kept(p, st, Next(p, st, ReceiveFinal))
  {
    FinalFits(p);
  }

  /** The packet taken has the number expected, or an older one; then the client has heard of neither. */
  lemma AnswerKeepsInv(p: Params, st: State, packet: seq<jbyte>, i: nat, unlucky: bool)
    requires p.Ok() && Inv(p, st) && st.s < p.num && st.toServer != [] && st.server.Listening?
    requires |packet| == PacketLength(p.len) && i <= st.c
    ensures Kept(p, st, Answered(p, st, packet, i == st.s, unlucky))
  {
  }

  lemma ServeKeepsInv(p: Params, st: State, unlucky: bool)
    requires p.Ok() && Inv(p, st) && Enabled(p, st, Serve(unlucky))
    ensures Kept(p, st, Next(p, st, Serve(unlucky)))
  {
    assert Numbered(p, st.toServer[0], st.c);
    var i: int32 :| 0 <= i <= st.c && i < p.num && st.toServer[0] == ClientPacket(p.len, p.secretA, i);
    var packet, r := ServeClientPacket(p, st, i, unlucky);
    AnswerKeepsInv(p, st, packet, i, unlucky);
  }

  lemma ConcludeKeepsInv(p: Params, st: State)
    requires p.Ok() && Inv(p, st) && Enabled(p, st, Conclude)
    ensures Kept(p, st, Next(p, st, Conclude))
  {
  }

  lemma StepKeepsInv(p: Params, st: State, move: Move) returns (r: State)
    requires p.Ok() && Inv(p, st) && Enabled(p, st, move)
    ensures r == Next(p, st, move) && Inv(p, r) && Moves(r) == Moves(st) + 1
  {
    r := Next(p, st, move);
    match move
    case Send => SendKeepsInv(p, st);
    case Receive => ReceiveKeepsInv(p, st);
    case Timeout => TimeoutKeepsInv(p, st);
    case ReceiveFinal => ReceiveFinalKeepsInv(p, st);
    case Serve(unlucky) => ServeKeepsInv(p, st, unlucky);
    case Conclude => ConcludeKeepsInv(p, st);
  }

  lemma {:induction false} RunKeepsInv(p: Params, run: seq<State>, moves: seq<Move>, k: nat)
    requires IsRun(p, run, moves) && k < |run|
    ensures Inv(p, run[k]) && Moves(run[k]) == k
  {
    if k > 0 {
      RunKeepsInv(p, run, moves, k - 1);
      var r := StepKeepsInv(p, run[k - 1], moves[k - 1]);
    }
  }

  /** Whoever has what it needs can go on: nothing else holds a side back. */
  lemma NothingHoldsBack(p: Params, run: seq<State>, moves: seq<Move>, k: nat, unlucky: bool)
    requires IsRun(p, run, moves) && k < |run|
    ensures run[k].client.Sending? ==> Enabled(p, run[k], Send)
    ensures run[k].client.Waiting? ==> Enabled(p, run[k], Timeout)
    ensures run[k].client.Waiting? && run[k].toClient != [] ==> Enabled(p, run[k], Receive)
    ensures run[k].client.AwaitingFinal? && run[k].toClient != [] ==> Enabled(p, run[k], ReceiveFinal)
    ensures run[k].server.Listening? && run[k].s < p.num && run[k].toServer != [] ==> Enabled(p, run[k], Serve(unlucky))
    ensures run[k].server.Listening? && run[k].s == p.num ==> Enabled(p, run[k], Conclude)
  {
    RunKeepsInv(p, run, moves, k);
  }

  /**
   In every state of every run, however early the client times out, the server is level with the client or
   one ahead, the client has the acknowledgements of 0, 1, 2, ... in order, and all that the server can have
   thrown is IllegalStateException.
   */
  lemma Lockstep(p: Params, run: seq<State>, moves: seq<Move>, k: nat)
    requires IsRun(p, run, moves) && k < |run|
    ensures run[k].s == run[k].c || run[k].s == run[k].c + 1
    ensures run[k].server.Failed? ==> run[k].server.error == IllegalState
    ensures |run[k].acks| == run[k].c <= p.num
    ensures forall i :: 0 <= i < run[k].c ==> IsAck(run[k].acks[i], p.secretA, p.id, i)
  {
    RunKeepsInv(p, run, moves, k);
    AcksCarryNumbers(p, run[k]);
  }

  lemma AcksCarryNumbers(p: Params, st: State)
    requires p.Ok() && AcksOk(p, st) && st.c <= p.num
    ensures forall i :: 0 <= i < st.c ==> IsAck(st.acks[i], p.secretA, p.id, i)
  {
    forall i | 0 <= i < st.c
      ensures IsAck(st.acks[i], p.secretA, p.id, i)
    {
      AckLayout(p.secretA, p.id, i);
    }
  }

  lemma SomeoneCanMove(p: Params, st: State)
    requires p.Ok() && Inv(p, st) && !st.client.Finished?
    ensures exists move :: Enabled(p, st, move)
  {
    var move := match st.client
      case Sending => Send
      case Waiting => Timeout
      case _ => if st.server.Concluded? then ReceiveFinal else Conclude;
    assert Enabled(p, st, move);
  }

  /** A run comes to rest exactly when the client has the final answer. */
  lemma RestsExactlyWhenDone(p: Params, run: seq<State>, moves: seq<Move>, k: nat)
    requires IsRun(p, run, moves) && k < |run|
    ensures (forall move :: !Enabled(p, run[k], move)) <==> run[k].client.Finished?
  {
    RunKeepsInv(p, run, moves, k);
    if !run[k].client.Finished? {
      SomeoneCanMove(p, run[k]);
    }
  }

  /**
   By then every number has been acknowledged once and in order, and the client has retransmitted once for
   each withheld acknowledgement and each copy that the server never took: at least once, if there was
   anything to send.
   */
  lemma AllAcknowledgedOnce(p: Params, run: seq<State>, moves: seq<Move>, k: nat)
    requires IsRun(p, run, moves) && k < |run| && run[k].client.Finished?
    ensures |run[k].acks| == p.num
    ensures forall i :: 0 <= i < p.num ==> IsAck(run[k].acks[i], p.secretA, p.id, i)
    ensures run[k].timeouts == run[k].withheld + |run[k].toServer|
    ensures p.num > 0 ==> run[k].withheld >= 1
    ensures !run[k].server.Failed?
  {
    RunKeepsInv(p, run, moves, k);
    AcksCarryNumbers(p, run[k]);
  }

  /** And what it has is the server's port and secret, behind the header of a final answer. */
  lemma SecretArrives(p: Params, run: seq<State>, moves: seq<Move>, k: nat)
    requires IsRun(p, run, moves) && k < |run| && run[k].client.Finished?
    ensures var response := run[k].client.response;
            && IsFinal(response, p.secretA, p.id, p.tcpPort, p.secretB)
            && IntOf(response[12..16]) == p.tcpPort
            && IntOf(response[16..20]) == p.secretB
  {
    RunKeepsInv(p, run, moves, k);
    FinalLayout(p.secretA, p.id, p.tcpPort, p.secretB);
    var response := run[k].client.response;
    IntIsBigEndian(response[12..16]);
    IntIsBigEndian(response[16..20]);
  }

  /** A run is as long as its timeouts and withheld acknowledgements make it. */
  lemma RunLength(p: Params, run: seq<State>, moves: seq<Move>, k: nat)
    requires IsRun(p, run, moves) && k < |run|
    ensures k <= 3 * p.num + 2 * run[k].timeouts + run[k].withheld + 3
    ensures run[k].client.Finished? ==> k == 3 * p.num + 2 * run[k].timeouts + run[k].withheld + 2
  {
    RunKeepsInv(p, run, moves, k);
  }

  /** In a patient run there is at most one packet on its way, and nothing else while there is one. */
  ghost predicate Prompt(p: Params, st: State)
    requires p.Ok()
  {
    && !st.server.Failed?
    && match st.client
       case Waiting =>
         st.toServer == [] || (st.s == st.c < p.num && st.toServer == [ClientPacket(p.len, p.secretA, st.c)])
       case _ => st.toServer == [] && st.s == st.c
  }

  lemma ServeKeepsPrompt(p: Params, st: State, unlucky: bool)
    requires p.Ok() && Inv(p, st) && Prompt(p, st) && Enabled(p, st, Serve(unlucky))
    ensures Prompt(p, Next(p, st, Serve(unlucky)))
  {
    var packet, r := ServeClientPacket(p, st, st.c, unlucky);
  }

  lemma StepKeepsPrompt(p: Params, st: State, move: Move) returns (r: State)
    requires p.Ok() && Inv(p, st) && Prompt(p, st) && Enabled(p, st, move) && Timely(st, move)
    ensures r == Next(p, st, move) && Prompt(p, r)
  {
    r := Next(p, st, move);
    if move.Serve? {
      ServeKeepsPrompt(p, st, move.unlucky);
    }
  }

  lemma {:induction false} RunKeepsPrompt(p: Params, run: seq<State>, moves: seq<Move>, k: nat)
    requires PatientRun(p, run, moves) && k < |run|
    ensures Prompt(p, run[k])
  {
    if k > 0 {
      RunKeepsPrompt(p, run, moves, k - 1);
      StepStaysPrompt(p, run, moves, k - 1);
    }
  }

  lemma StepStaysPrompt(p: Params, run: seq<State>, moves: seq<Move>, k: nat)
    requires PatientRun(p, run, moves) && k < |moves| && Prompt(p, run[k])
    ensures Prompt(p, run[k + 1])
  {
    RunKeepsInv(p, run, moves, k);
    var r := StepKeepsPrompt(p, run[k], moves[k]);
  }

  /** In a patient run the server never throws, and every retransmission answers a withheld acknowledgement. */
  lemma PatienceIsEnough(p: Params, run: seq<State>, moves: seq<Move>, k: nat)
    requires PatientRun(p, run, moves) && k < |run|
    ensures !run[k].server.Failed?
    ensures run[k].timeouts <= run[k].withheld <= run[k].timeouts + 1
    ensures run[k].client.Finished? ==> run[k].timeouts == run[k].withheld && run[k].toServer == []
  {
    RunKeepsInv(p, run, moves, k);
    RunKeepsPrompt(p, run, moves, k);
  }

  /** A patient run need not wait for ever: short of the final answer some timely move is enabled. */
  lemma PatienceIsRewarded(p: Params, run: seq<State>, moves: seq<Move>, k: nat)
    requires PatientRun(p, run, moves) && k < |run|
    ensures (forall move :: !(Enabled(p, run[k], move) && Timely(run[k], move))) <==> run[k].client.Finished?
  {
    RunKeepsInv(p, run, moves, k);
    RunKeepsPrompt(p, run, moves, k);
    var st := run[k];
    if !st.client.Finished? {
      var move := match st.client
        case Sending => Send
        case Waiting => if st.toServer != [] then Serve(true) else if st.toClient != [] then Receive else Timeout
        case _ => if st.server.Concluded? then ReceiveFinal else Conclude;
      assert Enabled(p, st, move) && Timely(st, move);
    }
  }

  /** A packet of the client makes the server throw exactly when its number is not the one expected. */
  lemma ServeThrowsExactly(p: Params, st: State, i: int32, unlucky: bool)
    requires p.Ok() && 0 <= i && st.toServer != [] && st.toServer[0] == ClientPacket(p.len, p.secretA, i)
    requires Enabled(p, st, Serve(unlucky))
    ensures Next(p, st, Serve(unlucky)).server == if i == st.s then Listening else Failed(IllegalState)
  {
    var packet, r := ServeClientPacket(p, st, i, unlucky);
  }

  /** The client loses patience and sends its number again. */
  ghost function Resent(p: Params, st: State): State
    requires p.Ok() && st.client.Waiting? && st.c < p.num
  {
    Next(p, Next(p, st, Timeout), Send)
  }

  /**
   Sending a number again whose acknowledgement is only late makes the server throw exactly if it still
   expects another number: after the last one it does not look at the packet any more.
   */
  lemma LateAckThrowsExactly(p: Params, run: seq<State>, moves: seq<Move>, k: nat, unlucky: bool)
    requires IsRun(p, run, moves) && k < |run| && run[k].client.Waiting?
    requires run[k].toServer == [] && run[k].toClient != [] && !run[k].server.Failed?
    ensures run[k].c < p.num
    ensures Enabled(p, Resent(p, run[k]), Serve(unlucky)) <==> run[k].c + 1 < p.num
    ensures run[k].c + 1 < p.num ==>
              Next(p, Resent(p, run[k]), Serve(unlucky)).server == Failed(IllegalState)
  {
    RunKeepsInv(p, run, moves, k);
    var st := Resent(p, run[k]);
    if run[k].c + 1 < p.num {
      ServeThrowsExactly(p, st, run[k].c, unlucky);
    }
  }

  /**
   Sending it again while the first copy is still on its way: the server takes the first copy, and throws
   on the second exactly if it acknowledges the first and still expects another number.  It withholds by
   draw, and at the last number if it has not withheld before.
   */
  lemma SecondCopyThrowsExactly(p: Params, run: seq<State>, moves: seq<Move>, k: nat, first: bool, second: bool)
    requires PatientRun(p, run, moves) && k < |run| && run[k].client.Waiting? && run[k].toServer != []
    ensures run[k].c < p.num
    ensures Enabled(p, Resent(p, run[k]), Serve(first))
    ensures var st := Next(p, Resent(p, run[k]), Serve(first));
            var acked := !first && (run[k].c + 1 < p.num || run[k].haveFailed);
            && !st.server.Failed?
            && (Enabled(p, st, Serve(second)) <==> !acked || run[k].c + 1 < p.num)
            && (Enabled(p, st, Serve(second)) ==>
                  Next(p, st, Serve(second)).server == if acked then Failed(IllegalState) else Listening)
  {
    RunKeepsInv(p, run, moves, k);
    RunKeepsPrompt(p, run, moves, k);
    var again := Resent(p, run[k]);
    assert Enabled(p, again, Serve(first));
    var packet, st := ServeClientPacket(p, again, run[k].c, first);
    if Enabled(p, st, Serve(second)) {
      ServeThrowsExactly(p, st, run[k].c, second);
    }
  }

  ghost predicate CanThrow(p: Params) {
    exists run: seq<State>, moves: seq<Move> :: IsRun(p, run, moves) && run[|moves|].server.Failed?
  }

  lemma Grow(p: Params, run: seq<State>, moves: seq<Move>, move: Move, after: State)
    returns (longer: seq<State>, more: seq<Move>)
    requires IsRun(p, run, moves) && Enabled(p, run[|moves|], move) && after == Next(p, run[|moves|], move)
    ensures longer == run + [after] && more == moves + [move] && IsRun(p, longer, more)
  {
    longer, more := run + [after], moves + [move];
    forall k | 0 <= k < |more|
      ensures Enabled(p, longer[k], more[k]) && longer[k + 1] == Next(p, longer[k], more[k])
    {
      assert k < |moves| ==> longer[k] == run[k] && longer[k + 1] == run[k + 1] && more[k] == moves[k];
    }
  }

  /** Number 0 has been sent once; the server expects number `s`. */
  ghost predicate OnlyZeroSent(p: Params, st: State, s: nat, inFlight: bool)
    requires p.Ok()
  {
    && st.client.Waiting? && st.c == 0 && st.s == s && st.server.Listening?
    && |st.buf| == PacketLength(p.len) && st.toServer == if inFlight then [ClientPacket(p.len, p.secretA, 0)] else []
  }

  lemma SendZero(p: Params) returns (run: seq<State>, moves: seq<Move>)
    requires p.Ok() && p.num >= 2
    ensures IsRun(p, run, moves) && OnlyZeroSent(p, run[|moves|], 0, true) && !run[|moves|].haveFailed
  {
    var st := State(Sending, 0, [], 0, [], [], Listening, 0, false, 0, Zeros(PacketLength(p.len)));
    run, moves := [st], [];
    run, moves := Grow(p, run, moves, Send, Next(p, st, Send));
  }

  lemma AnswerZero(p: Params, st: State, packet: seq<jbyte>)
    requires p.Ok() && p.num >= 2 && OnlyZeroSent(p, st, 0, true) && |packet| == PacketLength(p.len)
    ensures OnlyZeroSent(p, Answered(p, st, packet, true, false), 1, false)
  {
  }

  lemma SendZeroAgain(p: Params, run: seq<State>, moves: seq<Move>) returns (longer: seq<State>, more: seq<Move>)
    requires IsRun(p, run, moves) && p.num >= 2 && OnlyZeroSent(p, run[|moves|], 1, false)
    ensures IsRun(p, longer, more) && OnlyZeroSent(p, longer[|more|], 1, true)
  {
    var st := Next(p, run[|moves|], Timeout);
    longer, more := Grow(p, run, moves, Timeout, st);
    longer, more := Grow(p, longer, more, Send, Next(p, st, Send));
  }

  /** Two numbers are enough: the first is acknowledged, and sent again before the client hears of it. */
  lemma ImpatienceThrows(p: Params)
    requires p.Ok() && p.num >= 2
    ensures CanThrow(p)
  {
    var run, moves := SendZero(p);
    var st := run[|moves|];
    var packet, after := ServeClientPacket(p, st, 0, false);
    AnswerZero(p, st, packet);
    run, moves := Grow(p, run, moves, Serve(false), after);
    run, moves := SendZeroAgain(p, run, moves);
    packet, after := ServeClientPacket(p, run[|moves|], 0, false);
    run, moves := Grow(p, run, moves, Serve(false), after);
  }

  /** Without patience the server can be made to throw if and only if there are two numbers to send. */
  lemma CanThrowExactly(p: Params)
    requires p.Ok()
    ensures CanThrow(p) <==> p.num >= 2
  {
    if p.num >= 2 {
      ImpatienceThrows(p);
    } else if run: seq<State>, moves: seq<Move> :| IsRun(p, run, moves) && run[|moves|].server.Failed? {
      RunKeepsInv(p, run, moves, |moves|);
    }
  }
}
