/**
 Writer, connections and receiver together: whatever the scheduling of threads and connections, the receiving
 side hands over the buffers the sending side was given, in order, up to the first empty one.
 */
module EndToEnd {
  import opened Standards
  import opened Messages
  import opened Receiver
  import opened Delivery
  import opened Runs
  import opened BlockSize
  import opened Writer
  import opened HashTable
  import opened Reader
  import opened Insertions
  import opened TableRoom
  import opened Connections
  import opened Framing
  import Handoff
  import Senders

  ghost predicate AllSendable(buffers: seq<seq<byte>>, n: nat) {
    forall t :: 0 <= t < |buffers| ==> Sendable(buffers[t], n)
  }

  ghost function PlanFor(buffers: seq<seq<byte>>, n: nat): (sent: seq<Message>)
    requires AllSendable(buffers, n)
  {
    seq(|buffers|, t requires 0 <= t < |buffers| => MessageFor(buffers[t], n))
  }

  lemma PlanForIsPlan(buffers: seq<seq<byte>>, n: nat)
    requires AllSendable(buffers, n)
    ensures Plan(PlanFor(buffers, n))
    ensures Originals(PlanFor(buffers, n), |buffers|) == buffers
  {
    forall t | 0 <= t < |buffers|
      ensures PlanFor(buffers, n)[t].WellCut()
    {
      MessageIsWellCut(buffers[t], n);
    }
  }

  /** Whatever the order in which the written blocks arrive, the buffers are handed over as sent. */
  lemma AnyOrderDelivers(buffers: seq<seq<byte>>, n: nat, arrivals: seq<Arrival>)
    requires AllSendable(buffers, n) && Plan(PlanFor(buffers, n))
    requires Arrives(PlanFor(buffers, n), arrivals) && NothingInFlight(PlanFor(buffers, n), arrivals)
    requires forall t :: 0 <= t < |buffers| ==> buffers[t] != []
    ensures Run(PlanFor(buffers, n), arrivals).delivered == buffers
  {
    PlanForIsPlan(buffers, n);
    AllDelivered(PlanFor(buffers, n), arrivals);
  }

  /** Every block the writer produces has a frame that fits in the reader's buffer. */
  lemma WriterBlocksEncodable(buffers: seq<seq<byte>>, n: nat, b: Block)
    requires AllSendable(buffers, n) && |buffers| <= INT_LIMIT
    requires Plan(PlanFor(buffers, n)) && Belongs(PlanFor(buffers, n), b)
    ensures Encodable(b)
  {
    var sent := PlanFor(buffers, n);
    if b.DataBlock? {
      var i :| IsChunk(sent, b.tag, i) && b == DataOf(sent, b.tag, i);
      NextCut(buffers[b.tag], n, i);
      UnifSizeBounds(|buffers[b.tag]|, n);
    }
  }

  /** What one call of multiplex_write_queues appends to queue q. */
  ghost function Emitted(sent: seq<Message>, t: int, q: nat, n: nat): seq<Block>
    requires IsTag(sent, t) && n > 0
  {
    Announced(sent[t], t, q, n) + Dealt(sent[t], t, sent[t].Chunks(), q, n)
  }

  /** The queue a block of the plan is written to. */
  function QueueOf(b: Block, n: nat): nat
    requires n > 0
  {
    match b
    case InitBlock(_, _, _, _) => n - 1
    case DataBlock(_, offset, _) => offset % n
  }

  /** A block of buffer t is written to exactly one queue, its own, and nothing else is. */
  lemma EmittedExactly(sent: seq<Message>, t: int, q: nat, n: nat, b: Block)
    requires IsTag(sent, t) && q < n
    ensures b in Emitted(sent, t, q, n) <==> Belongs(sent, b) && b.tag == t && QueueOf(b, n) == q
  {
    var m := sent[t];
    DealtMembers(m, t, m.Chunks(), q, n);
    if b in Dealt(m, t, m.Chunks(), q, n) {
      var i :| 0 <= i < m.Chunks() && GoesTo(m, i, q, n) && b == BlockAt(m, t, i);
      assert IsChunk(sent, t, i) && b == DataOf(sent, t, i);
    }
    if Belongs(sent, b) && b.DataBlock? && b.tag == t {
      var i :| IsChunk(sent, t, i) && b == DataOf(sent, t, i);
      assert b == BlockAt(m, t, i);
    }
  }

  lemma EmittedOnce(sent: seq<Message>, t: int, q: nat, n: nat)
    requires IsTag(sent, t) && q < n
    ensures var w := Emitted(sent, t, q, n); forall i, j :: 0 <= i < j < |w| ==> w[i] != w[j]
  {
    DealtInOrder(sent[t], t, sent[t].Chunks(), q, n);
    var d := Dealt(sent[t], t, sent[t].Chunks(), q, n);
    assert forall i :: 0 <= i < |d| ==> d[i] in d;
  }

  /** Each block of the first `next` buffers has been handled or waits, once, in its own queue. */
  ghost predicate Accounted(sent: seq<Message>, got: set<Block>, queues: seq<seq<Block>>, next: nat)
    requires Plan(sent)
  {
    && next <= |sent|
    && (forall b :: b in got ==> Belongs(sent, b) && b.tag < next)
    && (forall q, b :: 0 <= q < |queues| && b in queues[q] ==>
          Belongs(sent, b) && b.tag < next && b !in got && QueueOf(b, |queues|) == q)
    && (forall q, i, j :: 0 <= q < |queues| && 0 <= i < j < |queues[q]| ==> queues[q][i] != queues[q][j])
    && (forall b :: Belongs(sent, b) && b.tag < next ==>
          b in got || (|queues| > 0 && b in queues[QueueOf(b, |queues|)]))
  }

  lemma AccountedAfterWrite(sent: seq<Message>, got: set<Block>, queues: seq<seq<Block>>,
                            after: seq<seq<Block>>, next: nat)
    requires Plan(sent) && Accounted(sent, got, queues, next) && next < |sent|
    requires |after| == |queues| > 0
    requires forall q :: 0 <= q < |queues| ==> after[q] == queues[q] + Emitted(sent, next, q, |queues|)
    ensures Accounted(sent, got, after, next + 1)
  {
    var n := |queues|;
    forall q, b | 0 <= q < n && b in after[q]
      ensures Belongs(sent, b) && b.tag < next + 1 && b !in got && QueueOf(b, n) == q
    {
      EmittedExactly(sent, next, q, n, b);
    }
    forall q, i, j | 0 <= q < n && 0 <= i < j < |after[q]|
      ensures after[q][i] != after[q][j]
    {
      EmittedOnce(sent, next, q, n);
      if i < |queues[q]| <= j {
        EmittedExactly(sent, next, q, n, after[q][j]);
        assert after[q][i] in queues[q];
      }
    }
    forall b | Belongs(sent, b) && b.tag < next + 1
      ensures b in got || b in after[QueueOf(b, n)]
    {
      if b.tag == next {
        EmittedExactly(sent, next, QueueOf(b, n), n, b);
      }
    }
  }

  lemma AccountedAfterTake(sent: seq<Message>, got: set<Block>, queues: seq<seq<Block>>, next: nat, q: nat)
    requires Plan(sent) && Accounted(sent, got, queues, next) && q < |queues| && queues[q] != []
    ensures Belongs(sent, queues[q][0]) && queues[q][0] !in got
    ensures Accounted(sent, got + {queues[q][0]}, queues[q := queues[q][1..]], next)
  {
    var b := queues[q][0];
    assert b in queues[q];
    var after := queues[q := queues[q][1..]];
    forall p, c | 0 <= p < |after| && c in after[p]
      ensures Belongs(sent, c) && c.tag < next && c !in got + {b} && QueueOf(c, |after|) == p
    {
      assert c in queues[p];
    }
    forall c | Belongs(sent, c) && c.tag < next && c !in got && c != b
      ensures c in after[QueueOf(c, |after|)]
    {
      assert c in queues[QueueOf(c, |queues|)];
    }
  }

  ghost predicate Quiet(queues: seq<seq<Block>>) {
    forall q :: 0 <= q < |queues| ==> queues[q] == []
  }

  /** Buffer t has a byte, and none of its blocks is left waiting. */
  ghost predicate Arrived(buffers: seq<seq<byte>>, waiting: seq<seq<Block>>, t: nat)
    requires t < |buffers|
  {
    buffers[t] != [] && forall q, b :: 0 <= q < |waiting| && b in waiting[q] ==> b.tag != t
  }

  /** What is handed over goes up to the first buffer that is empty or has a block left waiting, and no further. */
  ghost predicate HandedRight(buffers: seq<seq<byte>>, waiting: seq<seq<Block>>, handed: seq<seq<byte>>) {
    && handed <= buffers
    && (forall t :: 0 <= t < |handed| ==> Arrived(buffers, waiting, t))
    && (|handed| < |buffers| ==> !Arrived(buffers, waiting, |handed|))
  }

  lemma CompleteIfArrived(buffers: seq<seq<byte>>, n: nat, sent: seq<Message>,
                          got: set<Block>, waiting: seq<seq<Block>>, t: nat)
    requires AllSendable(buffers, n) && sent == PlanFor(buffers, n) && Plan(sent) && t < |buffers|
    requires Accounted(sent, got, waiting, |sent|) && Arrived(buffers, waiting, t)
    ensures Complete(sent, got, t)
  {
    assert Belongs(sent, InitOf(sent, t));
    forall i | IsChunk(sent, t, i)
      ensures DataOf(sent, t, i) in got
    {
      assert Belongs(sent, DataOf(sent, t, i));
    }
  }

  lemma ArrivedIfComplete(buffers: seq<seq<byte>>, n: nat, sent: seq<Message>,
                          got: set<Block>, waiting: seq<seq<Block>>, t: nat)
    requires AllSendable(buffers, n) && sent == PlanFor(buffers, n) && Plan(sent) && t < |buffers|
    requires Accounted(sent, got, waiting, |sent|) && Complete(sent, got, t)
    ensures Arrived(buffers, waiting, t)
  {
    forall q, b | 0 <= q < |waiting| && b in waiting[q]
      ensures b.tag != t
    {
      assert Belongs(sent, b) && b !in got;
    }
  }

  /** With every buffer written, the log is what it ought to be, whatever still waits. */
  lemma AllHandedOver(buffers: seq<seq<byte>>, n: nat, got: set<Block>, waiting: seq<seq<Block>>, s: State)
    requires AllSendable(buffers, n) && Inv(PlanFor(buffers, n), got, s)
    requires Accounted(PlanFor(buffers, n), got, waiting, |buffers|)
    ensures HandedRight(buffers, waiting, s.delivered)
  {
    var sent, k := PlanFor(buffers, n), |s.delivered|;
    forall t | 0 <= t < |buffers|
      ensures Complete(sent, got, t) <==> Arrived(buffers, waiting, t)
    {
      if Arrived(buffers, waiting, t) {
        CompleteIfArrived(buffers, n, sent, got, waiting, t);
      } else if Complete(sent, got, t) {
        ArrivedIfComplete(buffers, n, sent, got, waiting, t);
      }
    }
    assert !Linked(sent, got, k, NO_TAG);
  }

  function FirstEmpty(buffers: seq<seq<byte>>): (k: nat)
    ensures k <= |buffers| && (k < |buffers| ==> buffers[k] == [])
    ensures forall t :: 0 <= t < k ==> buffers[t] != []
  {
    if buffers == [] || buffers[0] == [] then 0 else 1 + FirstEmpty(buffers[1..])
  }

  ghost predicate AllEncodable(sent: seq<Message>)
    requires Plan(sent)
  {
    forall b :: Belongs(sent, b) ==> Encodable(b)
  }

  lemma PlanIsEncodable(buffers: seq<seq<byte>>, n: nat)
    requires AllSendable(buffers, n) && |buffers| <= INT_LIMIT && Plan(PlanFor(buffers, n))
    ensures AllEncodable(PlanFor(buffers, n))
  {
    forall b | Belongs(PlanFor(buffers, n), b)
      ensures Encodable(b)
    {
      WriterBlocksEncodable(buffers, n, b);
    }
  }

  /** The plan for these buffers, all of which can be sent. */
  ghost predicate IsJob(buffers: seq<seq<byte>>, n: nat, sent: seq<Message>) {
    AllSendable(buffers, n) && sent == PlanFor(buffers, n) && Plan(sent) && AllEncodable(sent)
  }

  /** After `next` buffers have been written and the blocks in `got` handled. */
  ghost predicate At(net: Network, r: MultiplexReader, sent: seq<Message>, got: set<Block>, next: nat)
    reads net, net.w, net.lines, set q | 0 <= q < |net.lines| :: net.lines[q].conn
    reads r, r.Repr, r.table, r.table.Repr
  {
    Between(net, r, sent, got, got, next)
  }

  /** The receiver has handled the blocks in `got`; those in `gone` no longer wait on a connection. */
  ghost predicate Between(net: Network, r: MultiplexReader, sent: seq<Message>,
                          got: set<Block>, gone: set<Block>, next: nat)
    reads net, net.w, net.lines, set q | 0 <= q < |net.lines| :: net.lines[q].conn
    reads r, r.Repr, r.table, r.table.Repr
  {
    && net.LinesOk() && r.Valid() && net.own !! r.Footprint() && net.w.nextTag == next - 1
    && Inv(sent, got, r.model) && Accounted(sent, gone, net.waiting, next) && |sent| <= r.Limit()
  }

  /** handle_block on a block that has not been handled before; the process does not give up. */
  method Deliver(r: MultiplexReader, block: Block, ghost sent: seq<Message>, ghost got: set<Block>)
    requires r.Valid() && Inv(sent, got, r.model) && Belongs(sent, block) && block !in got && |sent| <= r.Limit()
    modifies r.Footprint()
    ensures r.Valid() && fresh(r.Footprint() - old(r.Footprint())) && Inv(sent, got + {block}, r.model)
  {
    assert WellFormed(r.model) && Admissible(r.model, block) by {
      var heap := if block.InitBlock? then seq(block.bufferSize, _ => 0) else [];
      StepKeepsInv(sent, got, r.model, Arrival(block, heap));
    }
    RoomForPlan(sent, got, r.model, block, r.Limit());
    ghost var s := r.model;
    var exited;
    ghost var heap;
    exited, heap := r.HandleBlock(block);
    StepKeepsInv(sent, got, s, Arrival(block, heap));
  }

  /** Connection q brings a block, or fails and is given up; the receiver has not seen the block yet. */
  method Accept(net: Network, r: MultiplexReader, q: nat,
                ghost sent: seq<Message>, ghost got: set<Block>, ghost next: nat)
    returns (ok: bool, block: Block)
    requires At(net, r, sent, got, next) && q < |net.lines| && net.live[q] && net.lines[q].blocks != []
    modifies net.own
    ensures Between(net, r, sent, got, if ok then got + {block} else got, next) && r.Footprint() == old(r.Footprint())
    ensures ok ==> Belongs(sent, block) && block !in got
    ensures if ok then net.live == old(net.live) && Total(net.waiting, Length) < old(Total(net.waiting, Length))
            else Total(net.live, One) < old(Total(net.live, One))
  {
    net.OnItsWay(q);
    net.TotalsDrop(q);
    AccountedAfterTake(sent, got, net.waiting, next, q);
    ok, block := net.ReceiveOne(q);
  }

  /** The receiver handles the block that has come in. */
  method Handle(net: Network, r: MultiplexReader, block: Block,
                ghost sent: seq<Message>, ghost got: set<Block>, ghost next: nat)
    requires Between(net, r, sent, got, got + {block}, next) && Belongs(sent, block) && block !in got
    modifies r.Footprint()
    ensures At(net, r, sent, got + {block}, next) && fresh(r.Footprint() - old(r.Footprint()))
  {
    Deliver(r, block, sent, got);
  }

  /** Connection q brings a block, which is handled, or it fails and is given up. */
  method CarryOne(net: Network, r: MultiplexReader, q: nat,
                  ghost sent: seq<Message>, ghost got: set<Block>, ghost next: nat)
    returns (ghost handled: set<Block>)
    requires At(net, r, sent, got, next) && q < |net.lines| && net.live[q] && net.lines[q].blocks != []
    modifies net.own, r.Footprint()
    ensures At(net, r, sent, handled, next) && fresh(r.Footprint() - old(r.Footprint()))
    ensures Total(net.live, One) < old(Total(net.live, One))
            || (net.live == old(net.live) && Total(net.waiting, Length) < old(Total(net.waiting, Length)))
  {
    var ok, block := Accept(net, r, q, sent, got, next);
    if !ok {
      return got;
    }
    Handle(net, r, block, sent, got, next);
    handled := got + {block};
  }

  /** A block about to be sent can be encoded. */
  lemma NextIsEncodable(net: Network, q: nat, move: Handoff.Move, sent: seq<Message>, gone: set<Block>, next: nat)
    requires Plan(sent) && AllEncodable(sent) && net.LinesOk() && Accounted(sent, gone, net.waiting, next)
    requires q < |net.lines| && net.live[q] && Handoff.Enabled(net.threads[q], move)
    ensures Senders.Sends(net.threads[q], move) && net.threads[q].consumer.got != [] ==>
              Encodable(net.threads[q].consumer.got[0].block)
  {
    net.NextToSend(q, move);
  }

  /** A step of the threads of connection q. */
  method StepThreads(net: Network, r: MultiplexReader, q: nat, move: Handoff.Move,
                     ghost sent: seq<Message>, ghost got: set<Block>, ghost next: nat)
    requires At(net, r, sent, got, next) && AllEncodable(sent)
    requires q < |net.lines| && net.live[q] && Handoff.Enabled(net.threads[q], move)
    modifies net`threads, net.lines[q], net.lines[q].conn
    ensures At(net, r, sent, got, next) && r.Footprint() == old(r.Footprint())
    ensures var work := old(Total(net.threads, WorkOf));
            if move.WakeSpuriously? then Total(net.threads, WorkOf) == work + 3
            else Total(net.threads, WorkOf) < work
  {
    NextIsEncodable(net, q, move, sent, got, next);
    net.WorkDrops(q, move);
    net.ThreadStep(q, move);
  }

  /** The sending side writes its next buffer. */
  method WriteNext(net: Network, r: MultiplexReader, buffers: seq<seq<byte>>, next: nat,
                   ghost sent: seq<Message>, ghost got: set<Block>)
    requires IsJob(buffers, net.w.n, sent) && At(net, r, sent, got, next)
    requires next < |buffers|
    modifies net.w, net`waiting, net`written, net`threads
    ensures At(net, r, sent, got, next + 1) && r.Footprint() == old(r.Footprint())
  {
    ghost var before := net.waiting;
    ghost var emitted := net.WriteOne(buffers[next]);
    assert forall q :: 0 <= q < |emitted| ==> emitted[q] == Emitted(sent, next, q, net.w.n);
    AccountedAfterWrite(sent, got, before, net.waiting, next);
  }

  /** The connections that work, the blocks that wait, and the steps the threads still have to take. */
  ghost function Measure(net: Network): (nat, nat, nat)
    reads net
  {
    (Total(net.live, One), Total(net.waiting, Length), Total(net.threads, WorkOf))
  }

  ghost predicate Progress(before: (nat, nat, nat), after: (nat, nat, nat)) {
    after.0 < before.0
    || (after.0 == before.0 && (after.1 < before.1 || (after.1 == before.1 && after.2 < before.2)))
  }

  /** Something moves on a connection; the sender may wake up `wakes` times more without having been signalled. */
  method Move(net: Network, r: MultiplexReader, choice: Choice, mayWrite: bool, wakes: nat,
              ghost sent: seq<Message>, ghost got: set<Block>, ghost next: nat)
    returns (wakes': nat, ghost handled: set<Block>)
    requires At(net, r, sent, got, next) && AllEncodable(sent) && !choice.Write?
    requires net.CanTake(choice, mayWrite, wakes > 0)
    modifies net.own, r.Footprint()
    ensures At(net, r, sent, handled, next) && fresh(r.Footprint() - old(r.Footprint()))
    ensures (wakes' == wakes && Progress(old(Measure(net)), Measure(net)))
            || (wakes' == wakes - 1 && net.live == old(net.live) && net.waiting == old(net.waiting))
  {
    if choice.Step? {
      StepThreads(net, r, choice.q, choice.move, sent, got, next);
      return if choice.move.WakeSpuriously? then wakes - 1 else wakes, got;
    }
    wakes' := wakes;
    handled := CarryOne(net, r, choice.q, sent, got, next);
  }

  /** The scheduler goes on until all is written and no connection has anything to move, then stops. */
  method Drive(net: Network, r: MultiplexReader, buffers: seq<seq<byte>>, next: nat, wakes: nat,
               ghost sent: seq<Message>, ghost got: set<Block>)
    returns (ghost handled: set<Block>)
    requires IsJob(buffers, net.w.n, sent) && next <= |buffers| && At(net, r, sent, got, next)
    modifies net.own, r.Footprint()
    ensures At(net, r, sent, handled, |buffers|) && net.AtRest()
    decreases |buffers| - next, Measure(net).0, Measure(net).1, wakes, Measure(net).2, 1
  {
    if next == |buffers| && net.AtRest() {
      return got;
    }
    var choice := net.Choose(next < |buffers|, wakes > 0);
    if choice.Write? {
      handled := WriteAndDrive(net, r, buffers, next, wakes, sent, got);
    } else {
      handled := MoveAndDrive(net, r, buffers, choice, next, wakes, sent, got);
    }
  }

  /** A turn in which a buffer is written, and all that follow. */
  method WriteAndDrive(net: Network, r: MultiplexReader, buffers: seq<seq<byte>>, next: nat, wakes: nat,
                       ghost sent: seq<Message>, ghost got: set<Block>)
    returns (ghost handled: set<Block>)
    requires IsJob(buffers, net.w.n, sent) && next < |buffers| && At(net, r, sent, got, next)
    modifies net.own, r.Footprint()
    ensures At(net, r, sent, handled, |buffers|) && net.AtRest()
    decreases |buffers| - next, Measure(net).0, Measure(net).1, wakes, Measure(net).2, 0
  {
    WriteNext(net, r, buffers, next, sent, got);
    assert IsJob(buffers, net.w.n, sent);
    handled := Drive(net, r, buffers, next + 1, wakes, sent, got);
  }

  /** A turn in which something moves, and all that follow. */
  method MoveAndDrive(net: Network, r: MultiplexReader, buffers: seq<seq<byte>>, choice: Choice, next: nat, wakes: nat,
                      ghost sent: seq<Message>, ghost got: set<Block>)
    returns (ghost handled: set<Block>)
    requires IsJob(buffers, net.w.n, sent) && next <= |buffers| && At(net, r, sent, got, next)
    requires !choice.Write? && net.CanTake(choice, next < |buffers|, wakes > 0)
    modifies net.own, r.Footprint()
    ensures At(net, r, sent, handled, |buffers|) && net.AtRest()
    decreases |buffers| - next, Measure(net).0, Measure(net).1, wakes, Measure(net).2, 0
  {
    var wakes', got' := Move(net, r, choice, next < |buffers|, wakes, sent, got, next);
    handled := Drive(net, r, buffers, next, wakes', sent, got');
  }

  lemma AtStart(sent: seq<Message>, n: nat)
    requires Plan(sent) && n > 0
    ensures Inv(sent, {}, State(map[], [])) && Accounted(sent, {}, seq(n, _ => []), 0)
  {
    InitialInv(sent);
  }

  /** If nothing waits any more, that is up to the first empty buffer. */
  lemma HandedToFirstEmpty(buffers: seq<seq<byte>>, waiting: seq<seq<Block>>, handed: seq<seq<byte>>)
    requires HandedRight(buffers, waiting, handed) && Quiet(waiting)
    ensures handed == buffers[..FirstEmpty(buffers)]
  {
    var k, e := |handed|, FirstEmpty(buffers);
    forall t | 0 <= t < k
      ensures buffers[t] != []
    {
      assert Arrived(buffers, waiting, t);
    }
    assert k < |buffers| ==> !Arrived(buffers, waiting, k);
    assert k == e;
  }

  /** What has been handed over once every buffer is written and the network is at rest. */
  lemma Outcome(net: Network, r: MultiplexReader, buffers: seq<seq<byte>>, sent: seq<Message>, got: set<Block>)
    requires AllSendable(buffers, net.w.n) && sent == PlanFor(buffers, net.w.n)
    requires At(net, r, sent, got, |buffers|) && net.AtRest()
    ensures HandedRight(buffers, net.waiting, r.handed)
    ensures net.NoFailures() ==> r.handed == buffers[..FirstEmpty(buffers)]
  {
    net.LiveIsFlawless();
    AllHandedOver(buffers, net.w.n, got, net.waiting, r.model);
    if net.AllLive() {
      net.AllLiveAtRest();
      HandedToFirstEmpty(buffers, net.waiting, r.handed);
    }
  }

  /** Both ends with nothing written, the receiver on a new table. */
  method Begin(n: nat, numBuckets: nat, ghost sent: seq<Message>) returns (net: Network, r: MultiplexReader)
    requires n > 0 && numBuckets > 0 && Plan(sent) && |sent| <= 3 * numBuckets
    ensures fresh(net.own) && fresh(r.Footprint()) && net.w.n == n && At(net, r, sent, {}, 0)
  {
    AtStart(sent, n);
    var table := new HashTable<BufferInfo?>(numBuckets);
    r := new MultiplexReader(table);
    net := Connect(n);
  }

  /**
   End to end: buffers are written while the threads of each connection queue and send its blocks, blocks
   travel as bytes, reads are short or fail, and the receiver keeps its records in the hash table.  What is
   handed over is a prefix of the buffers, exactly as they were given: up to the first that is empty or has
   a block left waiting on a connection that has been given up.
   */
  method Transfer(buffers: seq<seq<byte>>, n: nat, numBuckets: nat, wakes: nat)
    returns (handed: seq<seq<byte>>, complete: bool, net: Network)
    requires n > 0 && AllSendable(buffers, n) && |buffers| <= INT_LIMIT
    requires numBuckets > 0 && |buffers| <= 3 * numBuckets
    ensures net.LinesOk() && net.w.n == n && net.w.nextTag == |buffers| - 1 && net.AtRest()
    ensures HandedRight(buffers, net.waiting, handed)
    ensures complete <==> net.NoFailures()
    ensures complete ==> handed == buffers[..FirstEmpty(buffers)]
  {
    ghost var sent := PlanFor(buffers, n);
    PlanForIsPlan(buffers, n);
    PlanIsEncodable(buffers, n);
    var r;
    net, r := Begin(n, numBuckets, sent);
    ghost var got := Drive(net, r, buffers, 0, wakes, sent, {});
    Outcome(net, r, buffers, sent, got);
    net.LiveIsFlawless();
    handed := r.handed;
    complete := net.AllLive();
  }
}
