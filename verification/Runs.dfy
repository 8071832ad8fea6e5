/**
 What the receiver promises over whole runs.  A run is any sequence of arrivals in which every block
 belongs to the sender's plan and arrives at most once; blocks of different buffers, and the init and
 data blocks of one buffer, may be interleaved in any order.
 */
module Runs {
  import opened Standards
  import opened Messages
  import opened Receiver
  import opened Delivery

  /** A block, and for an init block the (arbitrary) content of the memory malloc returns for it. */
  datatype Arrival = Arrival(block: Block, heap: seq<byte>)

  ghost predicate Arrives(sent: seq<Message>, arrivals: seq<Arrival>)
    requires Plan(sent)
  {
    && (forall a :: a in arrivals ==>
          Belongs(sent, a.block) && (a.block.InitBlock? ==> |a.heap| == a.block.bufferSize))
    && forall i, j :: 0 <= i < j < |arrivals| ==> arrivals[i].block != arrivals[j].block
  }

  /** Any two neighbours may have come the other way round, so every order of arrival is a run. */
  lemma OrderIsFree(sent: seq<Message>, before: seq<Arrival>, a: Arrival, b: Arrival, after: seq<Arrival>)
    requires Plan(sent)
    ensures Arrives(sent, before + [a, b] + after) <==> Arrives(sent, before + [b, a] + after)
  {
    if Arrives(sent, before + [a, b] + after) {
      SwappedArrives(sent, before, a, b, after);
    }
    if Arrives(sent, before + [b, a] + after) {
      SwappedArrives(sent, before, b, a, after);
    }
  }

  lemma SwappedArrives(sent: seq<Message>, before: seq<Arrival>, a: Arrival, b: Arrival, after: seq<Arrival>)
    requires Plan(sent) && Arrives(sent, before + [a, b] + after)
    ensures Arrives(sent, before + [b, a] + after)
  {
    var x, y, n := before + [a, b] + after, before + [b, a] + after, |before|;
    forall i | 0 <= i < |y|
      ensures y[i] == x[if i == n then n + 1 else if i == n + 1 then n else i]
    {
    }
    assert forall c :: c in y ==> c in x;
  }

  /** Any block of the plan that has not arrived yet may be the next, with any memory. */
  lemma AnyoneIsNext(sent: seq<Message>, arrivals: seq<Arrival>, a: Arrival)
    requires Plan(sent) && Arrives(sent, arrivals) && Belongs(sent, a.block) && a.block !in Handled(arrivals)
    requires a.block.InitBlock? ==> |a.heap| == a.block.bufferSize
    ensures Arrives(sent, arrivals + [a])
  {
    assert forall i :: 0 <= i < |arrivals| ==> arrivals[i] in arrivals;
  }

  ghost function Handled(arrivals: seq<Arrival>): set<Block> {
    set a | a in arrivals :: a.block
  }

  lemma InitialInv(sent: seq<Message>)
    requires Plan(sent)
    ensures Inv(sent, {}, State(map[], []))
  {
  }

  lemma {:induction false} StepKeepsInv(sent: seq<Message>, got: set<Block>, s: State, a: Arrival)
    requires Inv(sent, got, s) && Belongs(sent, a.block) && a.block !in got
    requires a.block.InitBlock? ==> |a.heap| == a.block.bufferSize
    ensures WellFormed(s) && Admissible(s, a.block)
    ensures var r := HandleBlock(s, a.block, a.heap);
            r.Running? && Inv(sent, got + {a.block}, r.state)
  {
    match a.block
    case InitBlock(_, t, _, _) =>
      InitKeepsInv(sent, got, s, t, a.heap);
    case DataBlock(t, _, _) =>
      var i :| IsChunk(sent, t, i) && a.block == DataOf(sent, t, i);
      DataKeepsInv(sent, got, s, t, i);
  }

  lemma HandledExtends(arrivals: seq<Arrival>)
    requires arrivals != []
    ensures var n := |arrivals| - 1;
            Handled(arrivals) == Handled(arrivals[..n]) + {arrivals[n].block}
  {
    var n := |arrivals| - 1;
    assert arrivals == arrivals[..n] + [arrivals[n]];
  }

  /** The receiver's state after a run. */
  ghost function Run(sent: seq<Message>, arrivals: seq<Arrival>): State
    requires Plan(sent) && Arrives(sent, arrivals)
    decreases |arrivals|, 0
  {
    if arrivals == [] then State(map[], [])
    else
      var n := |arrivals| - 1;
      RunKeepsInv(sent, arrivals[..n]);
      HandledExtends(arrivals);
      StepKeepsInv(sent, Handled(arrivals[..n]), Run(sent, arrivals[..n]), arrivals[n]);
      HandleBlock(Run(sent, arrivals[..n]), arrivals[n].block, arrivals[n].heap).state
  }

  /** No step of a run ends the process, and every state satisfies the invariant. */
  lemma {:induction false} RunKeepsInv(sent: seq<Message>, arrivals: seq<Arrival>)
    requires Plan(sent) && Arrives(sent, arrivals)
    ensures Inv(sent, Handled(arrivals), Run(sent, arrivals))
    ensures WellFormed(Run(sent, arrivals))
    decreases |arrivals|, 1
  {
    if arrivals == [] {
      InitialInv(sent);
    } else {
      var n := |arrivals| - 1;
      RunKeepsInv(sent, arrivals[..n]);
      HandledExtends(arrivals);
      StepKeepsInv(sent, Handled(arrivals[..n]), Run(sent, arrivals[..n]), arrivals[n]);
    }
    InvIsWellFormed(sent, Handled(arrivals), Run(sent, arrivals), NO_TAG);
  }

  /** The number of leading buffers whose blocks have all been handled. */
  ghost function CompletePrefix(sent: seq<Message>, got: set<Block>, from: nat): (k: nat)
    requires Plan(sent) && from <= |sent|
    ensures from <= k <= |sent| && !Complete(sent, got, k)
    ensures forall t :: from <= t < k ==> Complete(sent, got, t)
    decreases |sent| - from
  {
    if Complete(sent, got, from) then CompletePrefix(sent, got, from + 1) else from
  }

  lemma PrefixIsUnique(sent: seq<Message>, got: set<Block>, j: nat, k: nat)
    requires Plan(sent) && !Complete(sent, got, j) && !Complete(sent, got, k)
    requires forall t :: 0 <= t < j ==> Complete(sent, got, t)
    requires forall t :: 0 <= t < k ==> Complete(sent, got, t)
    ensures j == k
  {
  }

  ghost function Originals(sent: seq<Message>, k: nat): seq<seq<byte>>
    requires k <= |sent|
  {
    seq(k, t requires 0 <= t < k => sent[t].bytes)
  }

  /**
   Ordered delivery: after any run, the handler has been given exactly the longest prefix of the sent
   buffers whose init and data blocks have all been handled, each once, in order, byte for byte.
   */
  lemma OrderedDelivery(sent: seq<Message>, arrivals: seq<Arrival>)
    requires Plan(sent) && Arrives(sent, arrivals)
    ensures Run(sent, arrivals).delivered ==
            Originals(sent, CompletePrefix(sent, Handled(arrivals), 0))
  {
    RunKeepsInv(sent, arrivals);
    var got := Handled(arrivals);
    var d := Run(sent, arrivals).delivered;
    assert !Linked(sent, got, |d|, NO_TAG);
    PrefixIsUnique(sent, got, |d|, CompletePrefix(sent, got, 0));
  }

  ghost predicate NothingInFlight(sent: seq<Message>, arrivals: seq<Arrival>)
    requires Plan(sent)
  {
    forall b :: Belongs(sent, b) ==> b in Handled(arrivals)
  }

  lemma CompleteWhenAllArrived(sent: seq<Message>, arrivals: seq<Arrival>, t: int)
    requires Plan(sent) && NothingInFlight(sent, arrivals) && IsTag(sent, t)
    ensures Complete(sent, Handled(arrivals), t) <==> sent[t].bytes != []
  {
    assert Belongs(sent, InitOf(sent, t));
    forall i | IsChunk(sent, t, i)
      ensures DataOf(sent, t, i) in Handled(arrivals)
    {
      assert Belongs(sent, DataOf(sent, t, i));
    }
  }

  /**
   Once nothing is in flight, everything has been delivered if and only if no buffer is empty: an
   empty buffer has no data block, so its completion is never noticed and all behind it wait forever.
   */
  lemma AllDelivered(sent: seq<Message>, arrivals: seq<Arrival>)
    requires Plan(sent) && Arrives(sent, arrivals) && NothingInFlight(sent, arrivals)
    ensures Run(sent, arrivals).delivered == Originals(sent, |sent|) <==>
            forall t :: 0 <= t < |sent| ==> sent[t].bytes != []
  {
    OrderedDelivery(sent, arrivals);
    var got := Handled(arrivals);
    var k := CompletePrefix(sent, got, 0);
    forall t | 0 <= t < |sent|
      ensures Complete(sent, got, t) <==> sent[t].bytes != []
    {
      CompleteWhenAllArrived(sent, arrivals, t);
    }
    assert |Originals(sent, k)| == k;
  }

  /** The least failing case: one empty buffer, whose only block arrives, is not handed over. */
  lemma EmptyBufferWaits() returns (sent: seq<Message>, arrivals: seq<Arrival>)
    ensures sent == [Message([], [0], false)] && Plan(sent)
    ensures arrivals == [Arrival(InitOf(sent, 0), [])] && Arrives(sent, arrivals) && NothingInFlight(sent, arrivals)
    ensures Run(sent, arrivals).delivered == []
  {
    sent := [Message([], [0], false)];
    arrivals := [Arrival(InitOf(sent, 0), [])];
    assert arrivals[0] in arrivals;
    OrderedDelivery(sent, arrivals);
  }

  lemma HandledGrows(arrivals: seq<Arrival>, i: nat, j: nat)
    requires i <= j <= |arrivals|
    ensures Handled(arrivals[..i]) <= Handled(arrivals[..j])
  {
    assert forall a :: a in arrivals[..i] ==> a in arrivals[..j];
  }

  lemma CompleteGrows(sent: seq<Message>, got: set<Block>, g: set<Block>, t: int)
    requires Plan(sent) && got <= g
    ensures Complete(sent, got, t) ==> Complete(sent, g, t)
  {
  }

  lemma MoreHandled(sent: seq<Message>, got: set<Block>, g: set<Block>, s: State, r: State)
    requires Inv(sent, got, s) && Inv(sent, g, r) && got <= g
    ensures s.delivered <= r.delivered
  {
    var k := |r.delivered|;
    assert !Linked(sent, g, k, NO_TAG);
    CompleteGrows(sent, got, g, k);
  }

  /** The handler's log only grows. */
  lemma DeliveredGrows(sent: seq<Message>, arrivals: seq<Arrival>, i: nat, j: nat)
    requires Plan(sent) && Arrives(sent, arrivals) && i <= j <= |arrivals|
    ensures Run(sent, arrivals[..i]).delivered <= Run(sent, arrivals[..j]).delivered
  {
    HandledGrows(arrivals, i, j);
    RunKeepsInv(sent, arrivals[..i]);
    RunKeepsInv(sent, arrivals[..j]);
    MoreHandled(sent, Handled(arrivals[..i]), Handled(arrivals[..j]),
                Run(sent, arrivals[..i]), Run(sent, arrivals[..j]));
  }

  /** Linking: an undelivered buffer's entry points to the next buffer exactly when that is complete. */
  lemma LinksFollowCompletion(sent: seq<Message>, arrivals: seq<Arrival>, t: int)
    requires Plan(sent) && Arrives(sent, arrivals)
    requires var s := Run(sent, arrivals); t in s.table && t >= |s.delivered|
    ensures var s := Run(sent, arrivals);
            var e := s.table[t];
            && e.nextTag == (if Complete(sent, Handled(arrivals), t + 1) then t + 1 else NO_TAG)
            && (e.nextTag in s.table <==> e.nextTag == t + 1)
            && (e.nextTag in s.table ==> s.table[e.nextTag].completed && !s.table[e.nextTag].sent)
  {
    var s := Run(sent, arrivals);
    var got := Handled(arrivals);
    RunKeepsInv(sent, arrivals);
    assert EntryOk(sent, got, t, s.table[t], NO_TAG);
    if Complete(sent, got, t + 1) {
      assert Present(sent, got, t + 1, NO_TAG);
      assert EntryOk(sent, got, t + 1, s.table[t + 1], NO_TAG);
    }
  }

  lemma ZombieAt(sent: seq<Message>, got: set<Block>, s: State, t: int)
    requires Inv(sent, got, s)
    ensures |s.delivered| > 0 ==> |s.delivered| - 1 in s.table
    ensures t in s.table ==> t >= |s.delivered| - 1 && (s.table[t].sent <==> t == |s.delivered| - 1)
  {
    if t in s.table && t >= |s.delivered| {
      assert EntryOk(sent, got, t, s.table[t], NO_TAG);
    }
  }

  /** Clean-up: of the delivered buffers only the most recent one still has an entry. */
  lemma OneZombie(sent: seq<Message>, arrivals: seq<Arrival>, s: State, t: int)
    requires Plan(sent) && Arrives(sent, arrivals) && s == Run(sent, arrivals)
    ensures |s.delivered| > 0 ==> |s.delivered| - 1 in s.table
    ensures t in s.table ==> t >= |s.delivered| - 1 && (s.table[t].sent <==> t == |s.delivered| - 1)
  {
    RunKeepsInv(sent, arrivals);
    ZombieAt(sent, Handled(arrivals), s, t);
  }

  lemma KeysAtEnd(sent: seq<Message>, got: set<Block>, s: State)
    requires Inv(sent, got, s) && |s.delivered| == |sent| > 0
    ensures s.table.Keys == {|sent| - 1}
  {
    assert forall t :: t >= |sent| ==> !Present(sent, got, t, NO_TAG);
    assert forall t :: t in s.table.Keys <==> t == |sent| - 1;
  }

  /** After everything has been received the table holds one entry, the last buffer's. */
  lemma OnlyLastRemains(sent: seq<Message>, arrivals: seq<Arrival>)
    requires Plan(sent) && Arrives(sent, arrivals) && NothingInFlight(sent, arrivals)
    requires sent != [] && forall t :: 0 <= t < |sent| ==> sent[t].bytes != []
    ensures Run(sent, arrivals).table.Keys == {|sent| - 1}
  {
    AllDelivered(sent, arrivals);
    RunKeepsInv(sent, arrivals);
    KeysAtEnd(sent, Handled(arrivals), Run(sent, arrivals));
  }

  /** An entry stays until its buffer and the next one have been delivered. */
  lemma EntryOutlives(sent: seq<Message>, got: set<Block>, g: set<Block>, s: State, r: State, t: int)
    requires Inv(sent, got, s) && Inv(sent, g, r) && got <= g
    requires t in s.table
    ensures t in r.table <==> t >= |r.delivered| - 1
  {
    MoreHandled(sent, got, g, s, r);
    if t >= |r.delivered| {
      assert Present(sent, got, t, NO_TAG);
      assert Present(sent, g, t, NO_TAG);
    }
  }

  lemma TagOutlives(sent: seq<Message>, arrivals: seq<Arrival>, t: int, i: nat, j: nat)
    requires Plan(sent) && Arrives(sent, arrivals) && i <= j <= |arrivals|
    requires t in Run(sent, arrivals[..i]).table
    ensures t in Run(sent, arrivals[..j]).table <==> t >= |Run(sent, arrivals[..j]).delivered| - 1
  {
    HandledGrows(arrivals, i, j);
    RunKeepsInv(sent, arrivals[..i]);
    RunKeepsInv(sent, arrivals[..j]);
    EntryOutlives(sent, Handled(arrivals[..i]), Handled(arrivals[..j]),
                  Run(sent, arrivals[..i]), Run(sent, arrivals[..j]), t);
  }

  /** A tag that has been in the table and is gone stays gone for the rest of the run. */
  lemma NeverRecreated(sent: seq<Message>, arrivals: seq<Arrival>, t: int, i: nat, j: nat, l: nat)
    requires Plan(sent) && Arrives(sent, arrivals) && i <= j <= l <= |arrivals|
    requires t in Run(sent, arrivals[..i]).table && t !in Run(sent, arrivals[..j]).table
    ensures t !in Run(sent, arrivals[..l]).table
  {
    TagOutlives(sent, arrivals, t, i, j);
    TagOutlives(sent, arrivals, t, i, l);
    DeliveredGrows(sent, arrivals, j, l);
  }

  ghost function Count(p: bool): nat {
    if p then 1 else 0
  }

  /** Where the data block i of buffer t can be. */
  ghost predicate InFlight(sent: seq<Message>, got: set<Block>, t: int, i: int)
    requires IsChunk(sent, t, i)
  {
    DataOf(sent, t, i) !in got
  }

  ghost predicate Parked(sent: seq<Message>, s: State, t: int, i: int)
    requires IsChunk(sent, t, i)
  {
    t in s.table && !s.table[t].valid && multiset(s.table[t].waiting)[DataOf(sent, t, i)] == 1
  }

  ghost predicate InBuffer(sent: seq<Message>, got: set<Block>, s: State, t: int, i: int)
    requires IsChunk(sent, t, i)
  {
    && DataOf(sent, t, i) in got
    && t in s.table && s.table[t].valid
    && |s.table[t].buffer| == |sent[t].bytes|
    && Written(sent[t], s.table[t].buffer, i)
    && s.table[t].waiting == []
  }

  lemma ConservedAt(sent: seq<Message>, got: set<Block>, s: State, t: int, i: int)
    requires Inv(sent, got, s) && IsChunk(sent, t, i) && t >= |s.delivered|
    ensures Count(InFlight(sent, got, t, i)) + Count(Parked(sent, s, t, i)) +
            Count(InBuffer(sent, got, s, t, i)) == 1
  {
    var b := DataOf(sent, t, i);
    if b in got {
      assert Present(sent, got, t, NO_TAG);
    }
    if t in s.table {
      var e := s.table[t];
      assert EntryOk(sent, got, t, e, NO_TAG);
      if b in e.waiting {
        OnceInDistinct(e.waiting, b);
      }
    }
  }

  /**
   Conservation: a data block of an undelivered buffer is in exactly one place: still in flight, in
   the waiting queue of its dummy (once), or copied into its buffer.
   */
  lemma BlockConservation(sent: seq<Message>, arrivals: seq<Arrival>, t: int, i: int)
    requires Plan(sent) && Arrives(sent, arrivals) && IsChunk(sent, t, i)
    requires t >= |Run(sent, arrivals).delivered|
    ensures var s := Run(sent, arrivals);
            var got := Handled(arrivals);
            Count(InFlight(sent, got, t, i)) + Count(Parked(sent, s, t, i)) +
            Count(InBuffer(sent, got, s, t, i)) == 1
  {
    RunKeepsInv(sent, arrivals);
    ConservedAt(sent, Handled(arrivals), Run(sent, arrivals), t, i);
  }

  lemma {:induction false} OnceInDistinct(q: seq<Block>, b: Block)
    requires b in q && forall i, j :: 0 <= i < j < |q| ==> q[i] != q[j]
    ensures multiset(q)[b] == 1
  {
    var n := |q| - 1;
    assert q == q[..n] + [q[n]];
    if b in q[..n] {
      OnceInDistinct(q[..n], b);
    }
  }

  /** n_written is the total size of the blocks copied so far and never exceeds the buffer size. */
  lemma WrittenCount(sent: seq<Message>, arrivals: seq<Arrival>, t: int)
    requires Plan(sent) && Arrives(sent, arrivals) && IsTag(sent, t)
    requires var s := Run(sent, arrivals); t >= |s.delivered| && t in s.table && s.table[t].valid
    ensures var e := Run(sent, arrivals).table[t];
            && e.nWritten == Received(sent, Handled(arrivals), t, sent[t].Chunks()) <= e.bufferSize
            && (e.completed <==> e.nWritten == e.bufferSize > 0)
  {
    var e := Run(sent, arrivals).table[t];
    var got := Handled(arrivals);
    RunKeepsInv(sent, arrivals);
    assert EntryOk(sent, got, t, e, NO_TAG);
    ReceivedAll(sent, got, t, sent[t].Chunks());
    assert forall i :: IsChunk(sent, t, i) <==> 0 <= i < sent[t].Chunks();
  }

  lemma DuplicateCaught(sent: seq<Message>, got: set<Block>, s: State, t: int, heap: seq<byte>)
    requires Inv(sent, got, s) && WellFormed(s) && IsTag(sent, t)
    requires InitOf(sent, t) in got && |heap| == |sent[t].bytes|
    ensures Admissible(s, InitOf(sent, t))
    ensures HandleBlock(s, InitOf(sent, t), heap).Exited? <==> t >= |s.delivered| - 1
  {
    if t >= |s.delivered| {
      assert Present(sent, got, t, NO_TAG);
      assert EntryOk(sent, got, t, s.table[t], NO_TAG);
    }
    assert Waiting(s, t) == [];
  }

  /** A second init block ends the process only while its buffer's entry is still in the table. */
  lemma DuplicateInit(sent: seq<Message>, arrivals: seq<Arrival>, t: int, heap: seq<byte>)
    requires Plan(sent) && Arrives(sent, arrivals) && IsTag(sent, t)
    requires InitOf(sent, t) in Handled(arrivals) && |heap| == |sent[t].bytes|
    ensures var s := Run(sent, arrivals);
            && WellFormed(s) && Admissible(s, InitOf(sent, t))
            && (HandleBlock(s, InitOf(sent, t), heap).Exited? <==> t >= |s.delivered| - 1)
  {
    RunKeepsInv(sent, arrivals);
    DuplicateCaught(sent, Handled(arrivals), Run(sent, arrivals), t, heap);
  }
}
