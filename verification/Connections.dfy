/**
 The sending end and its connections: the writer, for each connection the two threads that queue and send
 its blocks, and the bytes on their way.
 */
module Connections {
  import opened Standards
  import opened Sequences
  import opened Messages
  import opened Writer
  import opened Framing
  import opened Senders
  import Handoff

  type Threads = Handoff.State<Block>

  ghost function Total<A>(xs: seq<A>, size: A -> nat): nat {
    if xs == [] then 0 else size(xs[0]) + Total(xs[1..], size)
  }

  lemma {:induction false} TotalUpdate<A>(xs: seq<A>, q: nat, x: A, size: A -> nat)
    requires q < |xs|
    ensures Total(xs[q := x], size) + size(xs[q]) == Total(xs, size) + size(x)
  {
    var after := xs[q := x];
    if q > 0 {
      TotalUpdate(xs[1..], q - 1, x, size);
      assert after[1..] == xs[1..][q - 1 := x];
    } else {
      assert after[1..] == xs[1..];
    }
  }

  function Length(blocks: seq<Block>): nat {
    |blocks|
  }

  function One(live: bool): nat {
    if live then 1 else 0
  }

  ghost function WorkOf(threads: Threads): nat {
    Handoff.Work(threads)
  }

  /** Different lines with nothing on their way. */
  ghost predicate Idle(lines: seq<Line>)
    reads lines, set q | 0 <= q < |lines| :: lines[q].conn
  {
    && (forall q :: 0 <= q < |lines| ==> lines[q].Valid() && lines[q].blocks == [] && lines[q].conn.failures == 0)
    && (forall p, q :: 0 <= p < |lines| && 0 <= q < |lines| && p != q ==>
          lines[p] != lines[q] && lines[p].conn != lines[q].conn)
  }

  method NewLines(n: nat) returns (lines: seq<Line>)
    ensures |lines| == n && Idle(lines)
    ensures forall q :: 0 <= q < n ==> fresh(lines[q]) && fresh(lines[q].conn)
  {
    lines := [];
    for i := 0 to n
      invariant |lines| == i && Idle(lines)
      invariant forall q :: 0 <= q < i ==> fresh(lines[q]) && fresh(lines[q].conn)
    {
      var line := new Line();
      lines := lines + [line];
    }
  }

  ghost function Extended(queues: seq<seq<Block>>, more: seq<seq<Block>>): (r: seq<seq<Block>>)
    requires |queues| == |more|
    ensures |r| == |queues| && forall q :: 0 <= q < |r| ==> r[q] == queues[q] + more[q]
  {
    seq(|queues|, q requires 0 <= q < |queues| => queues[q] + more[q])
  }

  function ExtendAll(threads: seq<Threads>, more: seq<seq<Block>>): (r: seq<Threads>)
    requires |threads| == |more| && forall q :: 0 <= q < |threads| ==> |threads[q].producers| == 1
    ensures |r| == |threads| && forall q :: 0 <= q < |r| ==> r[q] == Extend(threads[q], more[q])
  {
    seq(|threads|, q requires 0 <= q < |threads| => Extend(threads[q], more[q]))
  }

  /** What a call of multiplex_write_queues writes to each queue. */
  ghost predicate IsEmitted(emitted: seq<seq<Block>>, buffer: seq<byte>, tag: int, n: nat)
    requires Sendable(buffer, n)
  {
    var m := MessageFor(buffer, n);
    m.WellCut() && |emitted| == n &&
    forall q :: 0 <= q < n ==> emitted[q] == Announced(m, tag, q, n) + Dealt(m, tag, m.Chunks(), q, n)
  }

  method Publish(w: MultiplexWriter, buffer: seq<byte>) returns (written: seq<seq<Block>>)
    requires w.Valid() && Sendable(buffer, w.n) && w.queues == seq(w.n, _ => [])
    modifies w
    ensures w.Valid() && w.nextTag == old(w.nextTag) + 1 && w.queues == seq(w.n, _ => [])
    ensures IsEmitted(written, buffer, w.nextTag, w.n)
  {
    w.MultiplexWriteQueues(buffer);
    written := w.HandOut();
  }

  ghost function Parts(w: MultiplexWriter, lines: seq<Line>): set<object> {
    {w} + (set q | 0 <= q < |lines| :: lines[q]) + (set q | 0 <= q < |lines| :: lines[q].conn)
  }

  /** A buffer is written, the threads of a connection take a step, or a block is read from its bytes. */
  datatype Choice = Write | Step(q: nat, move: Handoff.Move) | Read(q: nat)

  class Network {
    const w: MultiplexWriter
    const lines: seq<Line>
    /** For each connection, the threads that queue and send its blocks. */
    var threads: seq<Threads>
    /** The connections on which no read has failed so far. */
    var live: seq<bool>
    /** What has been written for each connection, and how much of it has not been handled, oldest first. */
    ghost var written: seq<seq<Block>>
    ghost var waiting: seq<seq<Block>>
    ghost const own: set<object>

    ghost predicate Separate() {
      && this in own && w in own
      && (forall q :: 0 <= q < |lines| ==> lines[q] in own && lines[q].conn in own)
      && (forall p, q :: 0 <= p < |lines| && 0 <= q < |lines| && p != q ==>
            lines[p] != lines[q] && lines[p].conn != lines[q].conn)
    }

    /** What waits for connection q is on its way, or with its threads. */
    ghost predicate LineOk(q: nat)
      requires q < |lines| == |live| == |waiting| == |threads| == |written|
      reads this, lines[q], lines[q].conn
    {
      && Paired(written[q], threads[q])
      && (live[q] <==> lines[q].conn.failures == 0)
      && (live[q] ==> lines[q].Valid() && waiting[q] == lines[q].blocks + Unsent(threads[q]))
    }

    ghost predicate LinesOk()
      reads this, w, lines, set q | 0 <= q < |lines| :: lines[q].conn
    {
      && w.Valid() && w.queues == seq(w.n, _ => []) && Separate()
      && w.n == |lines| == |live| == |waiting| == |threads| == |written|
      && forall q :: 0 <= q < |lines| ==> LineOk(q)
    }

    /** A new writer and idle connections. */
    constructor (w: MultiplexWriter, lines: seq<Line>)
      requires w.Valid() && |lines| == w.n && w.queues == seq(w.n, _ => []) && Idle(lines)
      ensures this.w == w && this.lines == lines && own == {this} + Parts(w, lines)
      ensures LinesOk() && waiting == seq(w.n, _ => []) && forall q :: 0 <= q < w.n ==> live[q]
    {
      this.w, this.lines := w, lines;
      own := {this} + Parts(w, lines);
      threads, live := seq(w.n, _ => Started()), seq(w.n, _ => true);
      written, waiting := seq(w.n, _ => []), seq(w.n, _ => []);
      new;
      StartedIsPaired<Block>();
      assert forall q :: 0 <= q < w.n ==> LineOk(q);
    }

    /** The threads are given more to send. */
    method Assign(more: seq<seq<Block>>)
      requires LinesOk() && |more| == w.n
      modifies this`waiting, this`written, this`threads
      ensures LinesOk()
      ensures forall q :: 0 <= q < |lines| ==> waiting[q] == old(waiting)[q] + more[q]
    {
      forall q | 0 <= q < |threads|
        ensures |threads[q].producers| == 1
      {
        assert LineOk(q);
      }
      threads := ExtendAll(threads, more);
      written, waiting := Extended(written, more), Extended(waiting, more);
      LinesExtended(more);
    }

    /** The sending side writes its next buffer. */
    method WriteOne(buffer: seq<byte>) returns (ghost emitted: seq<seq<Block>>)
      requires LinesOk() && Sendable(buffer, w.n)
      modifies w, this`waiting, this`written, this`threads
      ensures LinesOk() && w.nextTag == old(w.nextTag) + 1 && IsEmitted(emitted, buffer, w.nextTag, w.n)
      ensures forall q :: 0 <= q < |lines| ==> waiting[q] == old(waiting)[q] + emitted[q]
    {
      var more := Publish(w, buffer);
      WriterChanged();
      Assign(more);
      emitted := more;
    }

    /** What the writer does by itself concerns no connection. */
    twostate lemma WriterChanged()
      requires old(LinesOk()) && w.Valid() && w.queues == seq(w.n, _ => []) && unchanged(this)
      requires forall q :: 0 <= q < |lines| ==> unchanged(lines[q]) && unchanged(lines[q].conn)
      ensures LinesOk()
    {
      forall q | 0 <= q < |lines|
        ensures LineOk(q)
      {
        assert old(LineOk(q));
      }
    }

    /** Writing adds the same blocks to what the threads have to send and to what waits. */
    twostate lemma LinesExtended(emitted: seq<seq<Block>>)
      requires old(LinesOk()) && |lines| == |live| == |waiting| == |threads| == |written| == |emitted|
      requires live == old(live)
      requires forall q :: 0 <= q < |lines| ==> unchanged(lines[q]) && unchanged(lines[q].conn)
      requires forall q :: 0 <= q < |lines| ==> |old(threads)[q].producers| == 1
      requires forall q :: 0 <= q < |lines| ==>
                 && threads[q] == Extend(old(threads)[q], emitted[q])
                 && waiting[q] == old(waiting)[q] + emitted[q] && written[q] == old(written)[q] + emitted[q]
      ensures forall q :: 0 <= q < |lines| ==> LineOk(q)
    {
      forall q | 0 <= q < |lines|
        ensures LineOk(q)
      {
        assert old(LineOk(q));
        ExtendKeepsPaired(old(written[q]), old(threads[q]), emitted[q]);
      }
    }

    /** A step of the threads of connection q; the one that sends puts the block on its way as bytes. */
    method ThreadStep(q: nat, move: Handoff.Move)
      requires LinesOk() && q < |lines| && live[q] && Handoff.Enabled(threads[q], move)
      requires Sends(threads[q], move) && threads[q].consumer.got != [] ==> Encodable(threads[q].consumer.got[0].block)
      modifies this`threads, lines[q], lines[q].conn
      ensures LinesOk() && threads == old(threads)[q := Handoff.Next(old(threads)[q], move)]
    {
      assert LineOk(q);
      ghost var before := threads[q];
      ghost var after := StepKeepsPaired(written[q], threads[q], move);
      if Sends(threads[q], move) {
        var block := threads[q].consumer.got[0].block;
        var b0: byte, b1: byte, b2: byte := *, *, *;
        lines[q].Send(block, [b0, b1, b2]);
        ConsumeFirst(old(lines[q].blocks), Unsent(before));
      }
      threads := threads[q := Handoff.Next(threads[q], move)];
      assert LineOk(q);
      OthersKept(q);
    }

    /** A block about to be sent is one that waits. */
    lemma NextToSend(q: nat, move: Handoff.Move)
      requires LinesOk() && q < |lines| && live[q] && Handoff.Enabled(threads[q], move)
      ensures Sends(threads[q], move) && threads[q].consumer.got != [] ==>
                threads[q].consumer.got[0].block in waiting[q]
    {
      assert LineOk(q);
      var after := StepKeepsPaired(written[q], threads[q], move);
    }

    lemma WorkDrops(q: nat, move: Handoff.Move)
      requires LinesOk() && q < |lines| && Handoff.Enabled(threads[q], move)
      ensures var after := threads[q := Handoff.Next(threads[q], move)];
              if move.WakeSpuriously? then Total(after, WorkOf) == Total(threads, WorkOf) + 3
              else Total(after, WorkOf) < Total(threads, WorkOf)
    {
      assert LineOk(q);
      Handoff.StepDropsWork([written[q]], threads[q], move);
      TotalUpdate(threads, q, Handoff.Next(threads[q], move), WorkOf);
    }

    /** The next block of connection q is read, or a read fails. */
    method ReceiveLine(q: nat) returns (ok: bool, block: Block)
      requires LinesOk() && q < |lines| && live[q] && lines[q].blocks != []
      modifies this`live, this`waiting, lines[q], lines[q].conn
      ensures |lines| == |live| == |waiting| == |threads| == |written| && LineOk(q)
      ensures ok <==> lines[q].conn.failures == old(lines[q].conn.failures)
      ensures !ok ==> live == old(live)[q := false] && waiting == old(waiting)
      ensures ok ==> old(waiting)[q] != [] && block == old(waiting)[q][0]
      ensures ok ==> live == old(live) && waiting == old(waiting)[q := old(waiting)[q][1..]]
    {
      assert LineOk(q);
      FirstOfBoth(lines[q].blocks, Unsent(threads[q]));
      var ret;
      ret, block := lines[q].Receive();
      if ret >= 1 {
        waiting := waiting[q := waiting[q][1..]];
        return true, block;
      }
      live := live[q := false];
      return false, block;
    }

    /** recieve_tcp_block on connection q, which is given up if a read fails. */
    method ReceiveOne(q: nat) returns (ok: bool, block: Block)
      requires LinesOk() && q < |lines| && live[q] && lines[q].blocks != []
      modifies this`live, this`waiting, lines[q], lines[q].conn
      ensures LinesOk()
      ensures ok <==> lines[q].conn.failures == old(lines[q].conn.failures)
      ensures !ok ==> live == old(live)[q := false] && waiting == old(waiting)
      ensures ok ==> old(waiting)[q] != [] && block == old(waiting)[q][0]
      ensures ok ==> live == old(live) && waiting == old(waiting)[q := old(waiting)[q][1..]]
    {
      ok, block := ReceiveLine(q);
      OthersKept(q);
    }

    lemma TotalsDrop(q: nat)
      requires LinesOk() && q < |lines| && live[q] && waiting[q] != []
      ensures Total(live[q := false], One) < Total(live, One)
      ensures Total(waiting[q := waiting[q][1..]], Length) < Total(waiting, Length)
    {
      TotalUpdate(live, q, false, One);
      TotalUpdate(waiting, q, waiting[q][1..], Length);
    }

    lemma OnItsWay(q: nat)
      requires LinesOk() && q < |lines| && live[q] && lines[q].blocks != []
      ensures waiting[q] != []
    {
      assert LineOk(q);
    }

    predicate CanTake(choice: Choice, mayWrite: bool, mayWake: bool)
      requires LinesOk()
      reads this, w, lines, set q | 0 <= q < |lines| :: lines[q].conn
    {
      match choice
      case Write => mayWrite
      case Step(q, move) =>
        q < |lines| && live[q] && Handoff.Enabled(threads[q], move) && (move.WakeSpuriously? ==> mayWake)
      case Read(q) => q < |lines| && live[q] && HasBytes(q)
    }

    predicate HasBytes(q: nat)
      requires LinesOk() && q < |lines| && live[q]
      reads this, w, lines, set q | 0 <= q < |lines| :: lines[q].conn
      ensures HasBytes(q) <==> lines[q].blocks != []
    {
      assert LineOk(q);
      !lines[q].IsEmpty()
    }

    /** Writing waits for nothing, reading for bytes only, and a connection with blocks unsent for no other. */
    lemma ConnectionsAreIndependent(q: nat)
      requires LinesOk() && q < |lines| && live[q]
      ensures CanTake(Write, true, false)
      ensures lines[q].blocks != [] ==> CanTake(Read(q), false, false)
      ensures waiting[q] != [] && lines[q].blocks == [] ==>
                CanTake(Step(q, Handoff.Produce(0)), false, false) || CanTake(Step(q, Handoff.Consume), false, false)
    {
      assert LineOk(q);
      if waiting[q] != [] && lines[q].blocks == [] && Settled(threads[q]) {
        SettledIsSent(written[q], threads[q]);
        assert false;
      }
    }

    /** What the scheduler does next: whatever can be done. */
    method Choose(mayWrite: bool, mayWake: bool) returns (choice: Choice)
      requires LinesOk() && (mayWrite || !AtRest())
      ensures CanTake(choice, mayWrite, mayWake)
    {
      choice := *;
      if !CanTake(choice, mayWrite, mayWake) {
        if mayWrite {
          return Write;
        }
        var q: nat :| q < |lines| && live[q] && !Resting(q);
        if HasBytes(q) {
          return Read(q);
        }
        return Step(q, if Handoff.Enabled(threads[q], Handoff.Consume) then Handoff.Consume else Handoff.Produce(0));
      }
    }

    /** What happens on connection q leaves the others alone. */
    twostate lemma OthersKept(q: nat)
      requires old(LinesOk()) && q < |lines| == |live| == |waiting| == |threads| == |written|
      requires forall p :: 0 <= p < |lines| && p != q ==> unchanged(lines[p]) && unchanged(lines[p].conn)
      requires forall p :: 0 <= p < |lines| && p != q ==>
                 && live[p] == old(live[p]) && waiting[p] == old(waiting[p])
                 && threads[p] == old(threads[p]) && written[p] == old(written[p])
      ensures forall p :: 0 <= p < |lines| && p != q ==> LineOk(p)
    {
      forall p | 0 <= p < |lines| && p != q
        ensures LineOk(p)
      {
        assert old(LineOk(p));
      }
    }

    /** Neither the threads of connection q nor its bytes can move. */
    predicate Resting(q: nat)
      requires LinesOk() && q < |lines| && live[q]
      reads this, w, lines, set q | 0 <= q < |lines| :: lines[q].conn
    {
      Settled(threads[q]) && !HasBytes(q)
    }

    /** No connection that works has anything to move. */
    predicate AtRest()
      requires LinesOk()
      reads this, w, lines, set q | 0 <= q < |lines| :: lines[q].conn
    {
      forall q :: 0 <= q < |lines| && live[q] ==> Resting(q)
    }

    lemma RestingExactly(q: nat, move: Handoff.Move)
      requires LinesOk() && q < |lines| && live[q]
      ensures Resting(q) ==> !CanTake(Step(q, move), false, false) && !CanTake(Read(q), false, false)
      ensures !Resting(q) ==> CanTake(Step(q, Handoff.Produce(0)), false, false) ||
                              CanTake(Step(q, Handoff.Consume), false, false) || CanTake(Read(q), false, false)
    {
      assert LineOk(q);
    }

    lemma NothingAtRest(choice: Choice)
      requires LinesOk()
      ensures AtRest() ==> !CanTake(choice, false, false)
    {
      if !choice.Write? && choice.q < |lines| && live[choice.q] {
        RestingExactly(choice.q, if choice.Step? then choice.move else Handoff.Consume);
      }
    }

    /** At rest is when nothing can be done any more, short of a wake-up without a signal. */
    lemma AtRestExactly()
      requires LinesOk()
      ensures AtRest() <==> forall choice :: !CanTake(choice, false, false)
    {
      forall choice
        ensures AtRest() ==> !CanTake(choice, false, false)
      {
        NothingAtRest(choice);
      }
      if !AtRest() {
        var q: nat :| q < |lines| && live[q] && !Resting(q);
        RestingExactly(q, Handoff.Consume);
      }
    }

    /** No connection has been given up. */
    predicate AllLive()
      reads this
    {
      forall q :: 0 <= q < |live| ==> live[q]
    }

    /** No read has failed on any connection. */
    ghost predicate NoFailures()
      reads lines, set q | 0 <= q < |lines| :: lines[q].conn
    {
      forall q :: 0 <= q < |lines| ==> lines[q].conn.failures == 0
    }

    /** A connection is given up when a read on it fails, and for no other reason. */
    lemma LiveIsFlawless()
      requires LinesOk()
      ensures AllLive() <==> NoFailures()
    {
      forall q | 0 <= q < |lines|
        ensures live[q] <==> lines[q].conn.failures == 0
      {
        assert LineOk(q);
      }
    }

    lemma AllLiveAtRest()
      requires LinesOk() && AtRest() && AllLive()
      ensures forall q :: 0 <= q < |waiting| ==> waiting[q] == []
    {
      forall q | 0 <= q < |waiting|
        ensures waiting[q] == []
      {
        assert LineOk(q) && Resting(q);
        SettledIsSent(written[q], threads[q]);
      }
    }
  }

  /** A writer and n connections, with nothing written. */
  method Connect(n: nat) returns (net: Network)
    requires n > 0
    ensures net.LinesOk() && fresh(net.own) && net.w.n == n && net.w.nextTag == NO_TAG
    ensures net.waiting == seq(n, _ => []) && net.AllLive()
  {
    var w := new MultiplexWriter(n);
    var lines := NewLines(n);
    net := new Network(w, lines);
  }
}
