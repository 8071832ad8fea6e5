/**
 multiplex_writer.c: a buffer is announced by an init block, cut into data blocks of nearly equal size
 and dealt to the queues of the connections.
 */
module Writer {
  import opened Standards
  import opened Messages
  import opened Float
  import opened BlockSize

  function Min(a: nat, b: nat): nat {
    if a > b then b else a
  }

  /** The offsets at which the split loop cuts: 0, u, 2u, ..., len. */
  function Cuts(len: nat, u: nat): seq<nat>
    requires u > 0
  {
    seq(Blocks(len, u) + 1, i requires i >= 0 => Min(i * u, len))
  }

  /** Cut i is at i * u, except for the last, which is at the end. */
  lemma CutAt(len: nat, u: nat, i: nat)
    requires u > 0 && i <= Blocks(len, u)
    ensures Cuts(len, u)[i] == (if i < Blocks(len, u) then i * u else len)
    ensures i < Blocks(len, u) ==> i * u < len
    ensures i * u + u == (i + 1) * u
  {
    BlocksBound(len, u, i);
  }

  /** Every block but the last has exactly u bytes, the last between 1 and u, and they tile [0, len). */
  lemma CutsTile(len: nat, u: nat, i: nat)
    requires u > 0 && i < Blocks(len, u)
    ensures var cuts := Cuts(len, u);
            && cuts[0] == 0 && cuts[Blocks(len, u)] == len
            && cuts[i] == i * u < len
            && (if i + 1 < Blocks(len, u) then cuts[i + 1] == cuts[i] + u else cuts[i] < cuts[i + 1] <= cuts[i] + u)
  {
    CutAt(len, u, 0);
    CutAt(len, u, i);
    CutAt(len, u, i + 1);
    BlocksBound(len, u, i + 1);
  }

  lemma CutsIncrease(len: nat, u: nat)
    requires u > 0
    ensures var cuts := Cuts(len, u);
            && cuts[0] == 0 && cuts[|cuts| - 1] == len
            && forall i, j :: 0 <= i < j < |cuts| ==> cuts[i] < cuts[j]
  {
    var cuts := Cuts(len, u);
    if len == 0 {
      BlocksBound(len, u, 0);
    } else {
      BlocksBound(len, u, 0);
      CutsTile(len, u, 0);
    }
    forall i, j | 0 <= i < j < |cuts|
      ensures cuts[i] < cuts[j]
    {
      CutAt(len, u, i);
      CutAt(len, u, j);
      MulMono(i + 1, j, u);
    }
  }

  /** The message that carries a buffer over n connections. */
  function MessageFor(buffer: seq<byte>, n: nat): Message
    requires Sendable(buffer, n)
  {
    UnifSizeBounds(|buffer|, n);
    Message(buffer, if buffer == [] then [0] else Cuts(|buffer|, UnifSize(|buffer|, n)), false)
  }

  /** Lengths for which the split loop ends, with an index that stays within an int. */
  predicate Splittable(len: nat, n: nat)
    requires n > 0
  {
    len < INT_LIMIT && (len == 0 || (UnifSize(len, n) > 0 && LastIndex(len, UnifSize(len, n)) < INT_LIMIT))
  }

  predicate Sendable(buffer: seq<byte>, n: nat) {
    n > 0 && Splittable(|buffer|, n)
  }

  /** These are exactly the lengths for which the loop ends and no increment of its index overflows. */
  lemma SplittableExactly(len: nat, n: nat)
    requires len < INT_LIMIT && n > 0
    ensures Splittable(len, n) <==> LoopEnds(len, UnifSize(len, n)) && IndexInRange(len, UnifSize(len, n))
    ensures n <= len && n <= EXACT && len + BLOCK_SIZE <= INT_LIMIT ==> Splittable(len, n)
  {
    var u := UnifSize(len, n);
    UnifSizeBounds(len, n);
    LoopEndsExactly(len, u);
    if u > 0 {
      IncrementsInRange(len, u);
    }
  }

  lemma MessageIsWellCut(buffer: seq<byte>, n: nat)
    requires Sendable(buffer, n)
    ensures MessageFor(buffer, n).WellCut()
  {
    UnifSizeBounds(|buffer|, n);
    if buffer != [] {
      CutsIncrease(|buffer|, UnifSize(|buffer|, n));
    }
  }

  /** One turn of the split loop goes from one cut to the next. */
  lemma NextCut(buffer: seq<byte>, n: nat, k: nat)
    requires Sendable(buffer, n)
    requires MessageFor(buffer, n).WellCut() && k < MessageFor(buffer, n).Chunks()
    ensures var m := MessageFor(buffer, n);
            var u := UnifSize(|buffer|, n);
            && u > 0 && m.cuts[k] < |buffer|
            && m.cuts[k + 1] == m.cuts[k] + Min(u, |buffer| - m.cuts[k])
            && m.cuts[k] + u < INT_LIMIT
            && (k + 1 < m.Chunks() <==> m.cuts[k] + u < |buffer|)
  {
    UnifSizeBounds(|buffer|, n);
    CutsTile(|buffer|, UnifSize(|buffer|, n), k);
    AfterUpTo(|buffer|, UnifSize(|buffer|, n), k);
    if k + 1 < MessageFor(buffer, n).Chunks() {
      CutsTile(|buffer|, UnifSize(|buffer|, n), k + 1);
    }
  }

  /** Data block i of a message sent under a tag. */
  ghost function BlockAt(m: Message, tag: int, i: nat): Block
    requires m.WellCut() && i < m.Chunks()
  {
    DataBlock(tag, m.cuts[i], m.Payload(i))
  }

  /** The queue for an offset: its remainder by the number of queues. */
  ghost predicate GoesTo(m: Message, i: nat, q: nat, n: nat)
    requires m.WellCut() && i < m.Chunks() && n > 0
  {
    m.cuts[i] % n == q
  }

  /** What the first k turns of the split loop put on queue q: the blocks whose offset is q modulo n. */
  ghost function Dealt(m: Message, tag: int, k: nat, q: nat, n: nat): seq<Block>
    requires m.WellCut() && k <= m.Chunks() && n > 0
  {
    if k == 0 then []
    else Dealt(m, tag, k - 1, q, n) + if GoesTo(m, k - 1, q, n) then [BlockAt(m, tag, k - 1)] else []
  }

  /** The init block goes to the last queue, in front of the data blocks dealt to it. */
  ghost function Announced(m: Message, tag: int, q: nat, n: nat): seq<Block> {
    if q + 1 == n then [InitBlock(|m.bytes|, tag, tag - 1, m.last)] else []
  }

  lemma {:induction false} DealtMembers(m: Message, tag: int, k: nat, q: nat, n: nat)
    requires m.WellCut() && k <= m.Chunks() && n > 0
    ensures forall b :: b in Dealt(m, tag, k, q, n) <==>
              exists i :: 0 <= i < k && GoesTo(m, i, q, n) && b == BlockAt(m, tag, i)
  {
    if k > 0 {
      DealtMembers(m, tag, k - 1, q, n);
      forall b
        ensures b in Dealt(m, tag, k, q, n) <==>
                exists i :: 0 <= i < k && GoesTo(m, i, q, n) && b == BlockAt(m, tag, i)
      {
        if i :| 0 <= i < k && GoesTo(m, i, q, n) && b == BlockAt(m, tag, i) {
          assert i < k - 1 || i == k - 1;
        }
      }
    }
  }

  /** Data blocks in increasing order of offset, all of them below `bound` and congruent to q. */
  ghost predicate InOrder(d: seq<Block>, bound: nat, q: nat, n: nat)
    requires n > 0
  {
    && (forall b :: b in d ==> b.DataBlock? && b.seqNumber < bound && b.seqNumber % n == q)
    && forall i, j :: 0 <= i < j < |d| ==> d[i].seqNumber < d[j].seqNumber
  }

  /** Each queue receives the data blocks of a buffer in increasing order of offset. */
  lemma {:induction false} DealtInOrder(m: Message, tag: int, k: nat, q: nat, n: nat)
    requires m.WellCut() && k <= m.Chunks() && n > 0
    ensures InOrder(Dealt(m, tag, k, q, n), m.cuts[k], q, n)
  {
    if k > 0 {
      DealtInOrder(m, tag, k - 1, q, n);
      var d0 := Dealt(m, tag, k - 1, q, n);
      assert m.cuts[k - 1] < m.cuts[k];
      assert forall b :: b in d0 ==> b.seqNumber < m.cuts[k - 1];
      assert forall i :: 0 <= i < |d0| ==> d0[i] in d0;
    }
  }

  /** A data block for queue q: a piece of the buffer at its offset, which is q plus a multiple of n. */
  ghost predicate IsPiece(b: Block, buffer: seq<byte>, tag: int, q: nat, n: nat)
    requires n > 0
  {
    && b.DataBlock? && b.tag == tag && b.seqNumber % n == q
    && b.seqNumber + |b.payload| <= |buffer| && b.payload == buffer[b.seqNumber..b.seqNumber + |b.payload|]
  }

  lemma DealtArePieces(m: Message, tag: int, q: nat, n: nat)
    requires m.WellCut() && n > 0
    ensures forall b :: b in Dealt(m, tag, m.Chunks(), q, n) ==> IsPiece(b, m.bytes, tag, q, n)
  {
    DealtMembers(m, tag, m.Chunks(), q, n);
    forall b | b in Dealt(m, tag, m.Chunks(), q, n)
      ensures IsPiece(b, m.bytes, tag, q, n)
    {
      var i :| 0 <= i < m.Chunks() && GoesTo(m, i, q, n) && b == BlockAt(m, tag, i);
      assert m.cuts[i + 1] <= m.cuts[m.Chunks()];
    }
  }

  class MultiplexWriter {
    const n: nat
    /** What write_block_to_queue has been called with for each connection, oldest first. */
    var queues: seq<seq<Block>>
    var nextTag: int

    ghost predicate Valid()
      reads this
    {
      n > 0 && |queues| == n
    }

    constructor (n: nat)
      requires n > 0
      ensures Valid() && this.n == n && nextTag == NO_TAG
      ensures forall q :: 0 <= q < n ==> queues[q] == []
    {
      this.n := n;
      queues := seq(n, _ => []);
      nextTag := NO_TAG;
    }

    /** write_block_to_queue. */
    method WriteBlockToQueue(q: nat, block: Block)
      requires Valid() && q < n
      modifies this`queues
      ensures Valid() && queues == old(queues)[q := old(queues)[q] + [block]]
    {
      queues := queues[q := queues[q] + [block]];
    }

    /** The blocks written go to the threads that put them on the queues and send them. */
    method HandOut() returns (written: seq<seq<Block>>)
      requires Valid()
      modifies this`queues
      ensures Valid() && written == old(queues) && queues == seq(n, _ => [])
    {
      written, queues := queues, seq(n, _ => []);
    }

    /** One turn of the split loop. */
    method DealBlock(buffer: seq<byte>, tag: int, unifSize: nat, i: cint, ghost k: nat)
      requires Valid() && Sendable(buffer, n) && unifSize == UnifSize(|buffer|, n)
      requires MessageFor(buffer, n).WellCut() && k < MessageFor(buffer, n).Chunks()
      requires i == MessageFor(buffer, n).cuts[k] < |buffer|
      modifies this`queues
      ensures Valid()
      ensures var b := BlockAt(MessageFor(buffer, n), tag, k);
              queues == old(queues)[i % n := old(queues)[i % n] + [b]]
    {
      NextCut(buffer, n, k);
      var actualSize := Min(unifSize, |buffer| - i);
      assert buffer[i..i + actualSize] == MessageFor(buffer, n).Payload(k);
      WriteBlockToQueue(i % n, DataBlock(tag, i, buffer[i..i + actualSize]));
    }

    /** The split loop: the index stays within an int. */
    method DealBlocks(buffer: seq<byte>, tag: int, unifSize: nat)
      requires Valid() && Sendable(buffer, n) && unifSize == UnifSize(|buffer|, n)
      requires MessageFor(buffer, n).WellCut()
      modifies this`queues
      ensures Valid()
      ensures var m := MessageFor(buffer, n);
              forall q :: 0 <= q < n ==> queues[q] == old(queues)[q] + Dealt(m, tag, m.Chunks(), q, n)
    {
      ghost var m := MessageFor(buffer, n);
      var i: cint := 0;
      ghost var k: nat := 0;
      while i < |buffer|
        invariant Valid() && i >= 0
        invariant k <= m.Chunks() && (if k < m.Chunks() then i == m.cuts[k] else i >= |buffer|)
        invariant forall q :: 0 <= q < n ==> queues[q] == old(queues)[q] + Dealt(m, tag, k, q, n)
        decreases |buffer| - i
      {
        DealBlock(buffer, tag, unifSize, i, k);
        NextCut(buffer, n, k);
        i, k := i + unifSize, k + 1;
      }
    }

    /** What a call has added behind the first `before` blocks of queue q. */
    ghost predicate Added(buffer: seq<byte>, prevTag: int, q: nat, before: nat)
      requires Valid() && q < n
      reads this
    {
      && before <= |queues[q]|
      && (q == n - 1 ==>
            before < |queues[q]| && queues[q][before] == InitBlock(|buffer|, nextTag, prevTag, false))
      && forall j :: before + (if q == n - 1 then 1 else 0) <= j < |queues[q]| ==>
           IsPiece(queues[q][j], buffer, nextTag, q, n)
    }

    lemma AddedRight(buffer: seq<byte>, m: Message, q: nat, earlier: seq<Block>)
      requires Valid() && q < n && m.WellCut() && m.bytes == buffer && !m.last
      requires queues[q] == earlier + Announced(m, nextTag, q, n) + Dealt(m, nextTag, m.Chunks(), q, n)
      ensures Added(buffer, nextTag - 1, q, |earlier|)
    {
      DealtArePieces(m, nextTag, q, n);
      var d, at := Dealt(m, nextTag, m.Chunks(), q, n), |earlier| + if q == n - 1 then 1 else 0;
      forall j | at <= j < |queues[q]|
        ensures IsPiece(queues[q][j], buffer, nextTag, q, n)
      {
        assert queues[q][j] == d[j - at] && d[j - at] in d;
      }
    }

    /** multiplex_write_queues: announce the buffer, then deal its blocks to the queues. */
    method MultiplexWriteQueues(buffer: seq<byte>)
      requires Valid() && Sendable(buffer, n)
      modifies this
      ensures Valid() && nextTag == old(nextTag) + 1
      ensures forall q :: 0 <= q < n ==> Added(buffer, old(nextTag), q, |old(queues)[q]|)
      ensures var m := MessageFor(buffer, n);
              m.WellCut() && forall q :: 0 <= q < n ==>
                queues[q] == old(queues)[q] + Announced(m, nextTag, q, n) + Dealt(m, nextTag, m.Chunks(), q, n)
    {
      MessageIsWellCut(buffer, n);
      var prevTag := nextTag;
      nextTag := nextTag + 1;
      var tag := nextTag;
      WriteBlockToQueue(n - 1, InitBlock(|buffer|, tag, prevTag, false));
      var unifSize := FindUnifSize(|buffer|, n);
      DealBlocks(buffer, tag, unifSize);
      forall q | 0 <= q < n
        ensures Added(buffer, old(nextTag), q, |old(queues)[q]|)
      {
        AddedRight(buffer, MessageFor(buffer, n), q, old(queues)[q]);
      }
    }
  }
}
