/**
 The two loops of step B on real buffers: each method is one turn of Client.stepB or ServerThread.stepB,
 and does to the two sides and the network what the corresponding move of StopAndWait does.
 */
module Exchange {
  import opened JavaInts
  import opened PacketUtil
  import opened StepB
  import opened StopAndWait

  /** DatagramSocket.receive: the datagram goes to the front of the buffer, cut off where the buffer ends. */
  method ReceiveInto(buf: array<jbyte>, datagram: seq<jbyte>)
    modifies buf
    ensures buf[..] == Received(old(buf[..]), datagram)
  {
    var n := if |datagram| < buf.Length then |datagram| else buf.Length;
    for j := 0 to n
      invariant forall k :: 0 <= k < j ==> buf[k] == datagram[k]
      invariant forall k :: j <= k < buf.Length ==> buf[k] == old(buf[k])
    {
      buf[j] := datagram[j];
    }
  }

  class StepBExchange {
    const p: Params
    /** The client: where it stands, its loop index, and what it has received. */
    var client: Client
    var i: int32
    var acks: seq<seq<jbyte>>
    var timeouts: nat
    /** The server: its loop index, whether it has withheld an acknowledgement yet, and its buffer. */
    var server: Server
    var expected: int32
    var haveFailed: bool
    var withheld: nat
    const bufIn: array<jbyte>
    /** The datagrams on their way. */
    var toServer: seq<seq<jbyte>>
    var toClient: seq<seq<jbyte>>

    ghost predicate Valid()
      reads this
    {
      && p.Ok() && bufIn.Length == PacketLength(p.len)
      && 0 <= i <= p.num && 0 <= expected <= p.num
      && (client.Sending? || client.Waiting? ==> i < p.num)
    }

    ghost function View(): State
      requires Valid()
      reads this, bufIn
    {
      State(client, i, acks, timeouts, toServer, toClient, server, expected, haveFailed, withheld, bufIn[..])
    }

    constructor (p: Params)
      requires p.Ok()
      ensures this.p == p && Valid() && Init(p, View()) && fresh(bufIn)
    {
      this.p := p;
      client := if p.num == 0 then AwaitingFinal else Sending;
      i, acks, timeouts := 0, [], 0;
      server, expected, haveFailed, withheld := Listening, 0, false, 0;
      toServer, toClient := [], [];
      var packetSize := ServerPacketSize(p.len);
      bufIn := new jbyte[packetSize](_ => 0);
      new;
      assert bufIn[..] == Zeros(PacketLength(p.len));
    }

    method ClientSend()
      requires Valid() && Enabled(p, View(), Send)
      modifies this
      ensures Valid() && View() == Next(p, old(View()), Send)
    {
      var bufOut := BuildPacket(p.len, p.secretA, i);
      toServer := toServer + [bufOut.value[..]];
      client := Waiting;
    }

    method ClientReceive()
      requires Valid() && Enabled(p, View(), Receive)
      modifies this
      ensures Valid() && View() == Next(p, old(View()), Receive)
    {
      var packetIn := new jbyte[SIZE_HEADER + SIZE_INT](_ => 0);
      assert packetIn[..] == Zeros(SIZE_HEADER + SIZE_INT);
      ReceiveInto(packetIn, toClient[0]);
      acks, toClient := acks + [packetIn[..]], toClient[1..];
      i := i + 1;
      client := if i < p.num then Sending else AwaitingFinal;
    }

    method ClientTimeout()
      requires Valid() && Enabled(p, View(), Timeout)
      modifies this
      ensures Valid() && View() == Next(p, old(View()), Timeout)
    {
      client, timeouts := Sending, timeouts + 1;
    }

    method ClientReceiveFinal()
      requires Valid() && Enabled(p, View(), ReceiveFinal)
      modifies this
      ensures Valid() && View() == Next(p, old(View()), ReceiveFinal)
    {
      var packetIn := new jbyte[SIZE_HEADER + 2 * SIZE_INT](_ => 0);
      assert packetIn[..] == Zeros(SIZE_HEADER + 2 * SIZE_INT);
      ReceiveInto(packetIn, toClient[0]);
      client, toClient := Finished(packetIn[..]), toClient[1..];
    }

    /** The server answers number `expected`, or withholds the answer. */
    method Acknowledge(unlucky: bool)
      requires Valid() && expected < p.num
      modifies this
      ensures Valid() && View() == Served(p, old(View()), Done, unlucky)
    {
      if unlucky || (expected == p.num - 1 && !haveFailed) {
        haveFailed, withheld := true, withheld + 1;
      } else {
        var bufOut := BuildAck(p.secretA, p.id, expected);
        toClient := toClient + [bufOut[..]];
        expected := expected + 1;
      }
    }

    /** One turn of the server's loop; `unlucky` is the outcome of rand.nextDouble() < 0.2. */
    method ServerHandle(unlucky: bool)
      requires Valid() && Enabled(p, View(), Serve(unlucky))
      modifies this, bufIn
      ensures Valid() && View() == Next(p, old(View()), Serve(unlucky))
    {
      ReceiveInto(bufIn, toServer[0]);
      toServer := toServer[1..];
      var out := CheckPacket(bufIn, p.len, p.secretA, expected);
      if out.Threw? {
        server := Failed(out.error);
      } else {
        Acknowledge(unlucky);
      }
    }

    method ServerConclude()
      requires Valid() && Enabled(p, View(), Conclude)
      modifies this
      ensures Valid() && View() == Next(p, old(View()), Conclude)
    {
      var bufOut := BuildFinal(p.secretA, p.id, p.tcpPort, p.secretB);
      toClient := toClient + [bufOut[..]];
      server := Concluded;
    }
  }

  /** The run so far, in the terms of StopAndWait; `spent` counts the timeouts that came too early. */
  ghost predicate Follows(x: StepBExchange, run: seq<State>, moves: seq<Move>, spent: nat)
    requires x.Valid()
    reads x, x.bufIn
  {
    && IsRun(x.p, run, moves) && run[|moves|] == x.View() && x.timeouts <= x.withheld + spent
    && (spent == 0 ==> PatientRun(x.p, run, moves))
  }

  lemma PatientRunGrows(p: Params, run: seq<State>, moves: seq<Move>, move: Move, after: State)
    requires PatientRun(p, run, moves) && Timely(run[|moves|], move)
    requires IsRun(p, run + [after], moves + [move])
    ensures PatientRun(p, run + [after], moves + [move])
  {
    var longer, more := run + [after], moves + [move];
    forall k | 0 <= k < |more|
      ensures Timely(longer[k], more[k])
    {
      assert k < |moves| ==> longer[k] == run[k] && more[k] == moves[k];
    }
  }

  /** One of the guards below holds: in particular the client need not time out early to get on. */
  lemma SomeTurn(p: Params, st: State)
    requires p.Ok() && Inv(p, st) && !st.client.Finished? && !st.server.Failed?
    ensures st.client.Sending? || (st.client.Waiting? && st.toClient != []) ||
            (st.client.Waiting? && st.toClient == [] && st.toServer == []) ||
            (st.client.AwaitingFinal? && st.toClient != []) ||
            (st.server.Listening? && st.s < p.num && st.toServer != []) || (st.server.Listening? && st.s >= p.num)
  {
  }

  /** Whichever enabled turn the scheduler picks; `early` allows a timeout while something is on its way. */
  method Choose(x: StepBExchange, early: bool, ghost run: seq<State>, ghost moves: seq<Move>, ghost spent: nat)
    returns (move: Move)
    requires x.Valid() && Follows(x, run, moves, spent) && !x.client.Finished? && !x.server.Failed?
    ensures Enabled(x.p, x.View(), move) && (Timely(x.View(), move) || early)
  {
    RunKeepsInv(x.p, run, moves, |moves|);
    SomeTurn(x.p, x.View());
    if {
      case x.client.Sending? => move := Send;
      case x.client.Waiting? && x.toClient != [] => move := Receive;
      case x.client.Waiting? && ((x.toClient == [] && x.toServer == []) || early) => move := Timeout;
      case x.client.AwaitingFinal? && x.toClient != [] => move := ReceiveFinal;
      case x.server.Listening? && x.expected < x.p.num && x.toServer != [] => move := Serve(true);
      case x.server.Listening? && x.expected >= x.p.num => move := Conclude;
    }
  }

  method Take(x: StepBExchange, move: Move)
    requires x.Valid() && Enabled(x.p, x.View(), move)
    modifies x, x.bufIn
    ensures x.Valid() && x.View() == Next(x.p, old(x.View()), move)
  {
    match move {
      case Send => x.ClientSend();
      case Receive => x.ClientReceive();
      case Timeout => x.ClientTimeout();
      case ReceiveFinal => x.ClientReceiveFinal();
      case Serve(unlucky) => x.ServerHandle(unlucky);
      case Conclude => x.ServerConclude();
    }
  }

  /** Only a turn of the server withholds, and only by a draw or for the first time. */
  lemma WithheldGrows(p: Params, st: State, move: Move)
    requires p.Ok() && Inv(p, st) && Enabled(p, st, move)
    ensures var after := Next(p, st, move).withheld;
            after == st.withheld || (after == st.withheld + 1 && move.Serve? && (move.unlucky || st.withheld == 0))
  {
  }

  /** A timely timeout answers a withheld acknowledgement. */
  lemma TimeoutsBounded(p: Params, st: State, move: Move)
    requires p.Ok() && Inv(p, st) && Enabled(p, st, move) && !st.server.Failed?
    ensures Timely(st, move) && move.Timeout? ==> st.timeouts < st.withheld
    ensures Next(p, st, move).timeouts == st.timeouts + if move.Timeout? then 1 else 0
    ensures Next(p, st, move).withheld >= st.withheld
  {
  }

  lemma Extends(p: Params, run: seq<State>, moves: seq<Move>, move: Move, after: State)
    requires IsRun(p, run, moves) && Enabled(p, run[|moves|], move) && after == Next(p, run[|moves|], move)
    requires !run[|moves|].server.Failed?
    ensures IsRun(p, run + [after], moves + [move])
    ensures PatientRun(p, run, moves) && Timely(run[|moves|], move) ==> PatientRun(p, run + [after], moves + [move])
    ensures var st := run[|moves|];
            && (after.withheld == st.withheld ||
                (after.withheld == st.withheld + 1 && move.Serve? && (move.unlucky || st.withheld == 0)))
            && (Timely(st, move) && move.Timeout? ==> st.timeouts < st.withheld)
            && after.timeouts == st.timeouts + if move.Timeout? then 1 else 0
  {
    RunKeepsInv(p, run, moves, |moves|);
    WithheldGrows(p, run[|moves|], move);
    TimeoutsBounded(p, run[|moves|], move);
    var longer, more := Grow(p, run, moves, move, after);
    if PatientRun(p, run, moves) && Timely(run[|moves|], move) {
      PatientRunGrows(p, run, moves, move, after);
    }
  }

  /** One enabled turn. */
  method Turn(x: StepBExchange, unlucky: bool, early: bool,
              ghost run: seq<State>, ghost moves: seq<Move>, ghost spent: nat)
    returns (move: Move, inTime: bool)
    requires x.Valid() && Follows(x, run, moves, spent) && !x.client.Finished? && !x.server.Failed?
    modifies x, x.bufIn
    ensures x.Valid() && Follows(x, run + [x.View()], moves + [move], if inTime then spent else spent + 1)
    ensures !inTime ==> early
    ensures x.withheld == old(x.withheld)
            || (x.withheld == old(x.withheld) + 1 && move == Serve(unlucky) && (unlucky || old(x.withheld) == 0))
  {
    move := Choose(x, early, run, moves, spent);
    move := if move.Serve? then Serve(unlucky) else move;
    inTime := move.Timeout? ==> x.toServer == [] && x.toClient == [];
    Take(x, move);
    Extends(x.p, run, moves, move, x.View());
  }

  /** What the last state of a run says once the client has the final answer. */
  ghost predicate Success(p: Params, st: State) {
    && st.client.Finished? && p.num >= 0 && |st.acks| == p.num && !st.server.Failed?
    && (forall k :: 0 <= k < p.num ==> IsAck(st.acks[k], p.secretA, p.id, k))
    && st.timeouts == st.withheld + |st.toServer| && (p.num > 0 ==> st.withheld >= 1)
    && IsFinal(st.client.response, p.secretA, p.id, p.tcpPort, p.secretB)
  }

  lemma FinishedRunSucceeds(p: Params, run: seq<State>, moves: seq<Move>)
    requires IsRun(p, run, moves) && run[|moves|].client.Finished?
    ensures Success(p, run[|moves|])
    ensures PatientRun(p, run, moves) ==> run[|moves|].timeouts == run[|moves|].withheld
  {
    AllAcknowledgedOnce(p, run, moves, |moves|);
    SecretArrives(p, run, moves, |moves|);
    if PatientRun(p, run, moves) {
      PatienceIsEnough(p, run, moves, |moves|);
    }
  }

  /** A failure takes an early timeout and a second number. */
  lemma FailedRun(p: Params, run: seq<State>, moves: seq<Move>)
    requires IsRun(p, run, moves) && run[|moves|].server.Failed?
    ensures run[|moves|].server.error == IllegalState && p.num >= 2 && !PatientRun(p, run, moves)
  {
    RunKeepsInv(p, run, moves, |moves|);
    if PatientRun(p, run, moves) {
      PatienceIsEnough(p, run, moves, |moves|);
    }
  }

  /**
   Both loops together, under any scheduling: until the client has the final answer or the server has thrown
   any enabled turn may be taken.  `draws` are the server's random draws; once they run out it withholds no
   more than it must.  `impatience` bounds how often the client times out while something is on its way.
   */
  method StepBoth(p: Params, draws: seq<bool>, impatience: nat) returns (x: StepBExchange)
    requires p.Ok()
    ensures x.p == p && x.Valid()
    ensures if x.server.Failed? then x.server.error == IllegalState else Success(p, x.View())
    ensures x.server.Failed? ==> impatience > 0 && p.num >= 2
    ensures impatience == 0 ==> x.timeouts == x.withheld
  {
    x := new StepBExchange(p);
    var used, spent := 0, 0;
    ghost var run, moves := [x.View()], [];
    while !x.client.Finished? && !x.server.Failed?
      invariant x.p == p && x.Valid() && fresh(x) && fresh(x.bufIn) && Follows(x, run, moves, spent)
      invariant used <= |draws| && x.withheld <= used + 1 && spent <= impatience
      decreases 3 * p.num + 3 * (|draws| + 1) + 2 * impatience + 3 - |moves|
    {
      RunLength(p, run, moves, |moves|);
      var unlucky := used < |draws| && draws[used];
      var move, inTime := Turn(x, unlucky, spent < impatience, run, moves, spent);
      used := if move.Serve? && used < |draws| then used + 1 else used;
      spent := if inTime then spent else spent + 1;
      run, moves := run + [x.View()], moves + [move];
    }
    if x.server.Failed? {
      FailedRun(p, run, moves);
    } else {
      FinishedRunSucceeds(p, run, moves);
    }
  }
}
