/**
 What a sender puts on the wire: a list of buffers, each cut into data blocks.  Buffer t of the list
 travels under tag t and names tag t - 1 (NO_TAG for the first) as its predecessor.
 */
module Messages {
  import opened Standards

  /** A buffer and the offsets at which it is cut; `cuts` starts at 0 and ends at the length. */
  datatype Message = Message(bytes: seq<byte>, cuts: seq<nat>, last: bool) {

    ghost predicate WellCut() {
      && cuts != []
      && cuts[0] == 0
      && cuts[|cuts| - 1] == |bytes| < INT_LIMIT
      && forall i, j :: 0 <= i < j < |cuts| ==> cuts[i] < cuts[j]
    }

    ghost function Chunks(): nat
      requires WellCut()
    {
      |cuts| - 1
    }

    ghost function Payload(i: nat): (p: seq<byte>)
      requires WellCut() && i < Chunks()
      ensures |p| == cuts[i + 1] - cuts[i] > 0
    {
      assert cuts[i + 1] <= cuts[|cuts| - 1];
      bytes[cuts[i]..cuts[i + 1]]
    }
  }

  /** Only the last buffer may carry the flag that says nothing depends on it. */
  ghost predicate Plan(sent: seq<Message>) {
    forall t :: 0 <= t < |sent| ==> sent[t].WellCut() && (sent[t].last ==> t == |sent| - 1)
  }

  ghost predicate IsTag(sent: seq<Message>, t: int) {
    Plan(sent) && 0 <= t < |sent|
  }

  ghost predicate IsChunk(sent: seq<Message>, t: int, i: int) {
    IsTag(sent, t) && 0 <= i < sent[t].Chunks()
  }

  ghost function InitOf(sent: seq<Message>, t: int): Block
    requires IsTag(sent, t)
  {
    InitBlock(|sent[t].bytes|, t, t - 1, sent[t].last)
  }

  ghost function DataOf(sent: seq<Message>, t: int, i: int): Block
    requires IsChunk(sent, t, i)
  {
    DataBlock(t, sent[t].cuts[i], sent[t].Payload(i))
  }

  ghost predicate Belongs(sent: seq<Message>, b: Block)
    requires Plan(sent)
  {
    && IsTag(sent, b.tag)
    && match b {
         case InitBlock(_, t, _, _) => b == InitOf(sent, t)
         case DataBlock(t, _, _) => exists i :: IsChunk(sent, t, i) && b == DataOf(sent, t, i)
       }
  }

  /** Every block of the buffer is in `got`.  An empty buffer has no data block and never counts. */
  ghost predicate Complete(sent: seq<Message>, got: set<Block>, t: int)
    requires Plan(sent)
  {
    && IsTag(sent, t)
    && sent[t].bytes != []
    && InitOf(sent, t) in got
    && forall i :: IsChunk(sent, t, i) ==> DataOf(sent, t, i) in got
  }

  ghost predicate Touched(sent: seq<Message>, got: set<Block>, t: int)
    requires Plan(sent)
  {
    && IsTag(sent, t)
    && (InitOf(sent, t) in got || exists i :: IsChunk(sent, t, i) && DataOf(sent, t, i) in got)
  }

  /** Bytes of the first k data blocks of buffer t that are in `got`. */
  ghost function Received(sent: seq<Message>, got: set<Block>, t: int, k: nat): nat
    requires IsTag(sent, t) && k <= sent[t].Chunks()
  {
    if k == 0 then 0
    else
      Received(sent, got, t, k - 1) +
      if DataOf(sent, t, k - 1) in got then |sent[t].Payload(k - 1)| else 0
  }

  lemma {:induction false} ReceivedAll(sent: seq<Message>, got: set<Block>, t: int, k: nat)
    requires IsTag(sent, t) && k <= sent[t].Chunks()
    ensures Received(sent, got, t, k) <= sent[t].cuts[k]
    ensures Received(sent, got, t, k) == sent[t].cuts[k] <==>
            forall i :: 0 <= i < k ==> DataOf(sent, t, i) in got
  {
    if k > 0 {
      ReceivedAll(sent, got, t, k - 1);
    }
  }

  lemma {:induction false} ReceivedSame(sent: seq<Message>, got: set<Block>, got': set<Block>, t: int, k: nat)
    requires IsTag(sent, t) && k <= sent[t].Chunks()
    requires forall i :: IsChunk(sent, t, i) ==> (DataOf(sent, t, i) in got <==> DataOf(sent, t, i) in got')
    ensures Received(sent, got, t, k) == Received(sent, got', t, k)
  {
    if k > 0 {
      ReceivedSame(sent, got, got', t, k - 1);
    }
  }

  lemma {:induction false} ReceivedAdds(sent: seq<Message>, got: set<Block>, t: int, i: int, k: nat)
    requires IsChunk(sent, t, i) && k <= sent[t].Chunks()
    requires DataOf(sent, t, i) !in got
    ensures Received(sent, got + {DataOf(sent, t, i)}, t, k) ==
            Received(sent, got, t, k) + if i < k then |sent[t].Payload(i)| else 0
  {
    if k > 0 {
      ReceivedAdds(sent, got, t, i, k - 1);
    }
  }

  lemma {:induction false} ReceivedNone(sent: seq<Message>, got: set<Block>, t: int, k: nat)
    requires IsTag(sent, t) && k <= sent[t].Chunks()
    requires forall i :: IsChunk(sent, t, i) ==> DataOf(sent, t, i) !in got
    ensures Received(sent, got, t, k) == 0
  {
    if k > 0 {
      ReceivedNone(sent, got, t, k - 1);
    }
  }

  /** The bytes of data block i are in place. */
  ghost predicate Written(m: Message, buffer: seq<byte>, i: int)
    requires m.WellCut() && 0 <= i < m.Chunks() && |buffer| == |m.bytes|
  {
    forall x :: m.cuts[i] <= x < m.cuts[i + 1] ==> 0 <= x < |buffer| && buffer[x] == m.bytes[x]
  }

  /** Every offset below a cut lies in one of the blocks before that cut. */
  lemma {:induction false} ChunkHolding(m: Message, x: int, k: nat) returns (i: nat)
    requires m.WellCut() && k <= m.Chunks() && 0 <= x < m.cuts[k]
    ensures i < k && m.cuts[i] <= x < m.cuts[i + 1]
  {
    if m.cuts[k - 1] <= x {
      i := k - 1;
    } else {
      i := ChunkHolding(m, x, k - 1);
    }
  }

  lemma AllWritten(m: Message, buffer: seq<byte>)
    requires m.WellCut() && |buffer| == |m.bytes|
    requires forall i :: 0 <= i < m.Chunks() ==> Written(m, buffer, i)
    ensures buffer == m.bytes
  {
    forall x | 0 <= x < |buffer|
      ensures buffer[x] == m.bytes[x]
    {
      var i := ChunkHolding(m, x, m.Chunks());
      assert Written(m, buffer, i);
    }
  }
}
