/**
 The receiver of multiplex_reader.c as a function on values: one table entry per buffer tag, and the
 list of buffers given to the handler.  Module Reader refines these functions with objects that are
 updated in place; module Delivery proves what a run of them promises.
 */
module Receiver {
  import opened Standards

  /** The fields of struct buffer_info.  `waiting` is the content of the waiting queue. */
  datatype Entry = Entry(
    buffer: seq<byte>,
    bufferSize: nat,
    tag: int,
    completed: bool,
    sent: bool,
    nWritten: nat,
    prevTag: int,
    lastBlock: bool,
    valid: bool,
    nextTag: int,
    waiting: seq<Block>)

  datatype State = State(table: map<int, Entry>, delivered: seq<seq<byte>>)

  /** The process calls exit(1) when a second init block arrives for a valid buffer. */
  datatype Outcome = Running(state: State) | Exited

  ghost predicate EntryWellFormed(k: int, e: Entry) {
    && e.tag == k
    && (e.nextTag == NO_TAG || k < e.nextTag)
    && (e.valid ==> |e.buffer| == e.bufferSize && e.prevTag < k && e.waiting == [])
    && (e.completed ==> e.valid)
    && (forall b :: b in e.waiting ==> b.DataBlock? && b.tag == k)
  }

  /** Release links point to larger tags, which is what makes the release chain finite. */
  ghost predicate WellFormed(s: State) {
    && NO_TAG !in s.table
    && forall k :: k in s.table ==> EntryWellFormed(k, s.table[k])
  }

  lemma WellFormedUpdate(s: State, k: int, e: Entry)
    requires WellFormed(s) && EntryWellFormed(k, e) && k != NO_TAG
    ensures WellFormed(s.(table := s.table[k := e]))
  {
  }

  /** No step makes a buffer valid or resizes a valid one, except the buffer's own init block. */
  ghost predicate KeepsSizes(s: State, r: State) {
    forall k :: k in r.table && r.table[k].valid ==>
      k in s.table && s.table[k].valid && s.table[k].bufferSize == r.table[k].bufferSize
  }

  function Dummy(tag: int, nextTag: int, waiting: seq<Block>): Entry {
    Entry([], 0, tag, false, false, 0, 0, false, false, nextTag, waiting)
  }

  /** memcpy of a payload into a buffer at an offset. */
  function Overwrite(buffer: seq<byte>, offset: nat, payload: seq<byte>): (r: seq<byte>)
    requires offset + |payload| <= |buffer|
    ensures |r| == |buffer|
    ensures forall i :: 0 <= i < |r| ==>
      r[i] == if offset <= i < offset + |payload| then payload[i - offset] else buffer[i]
  {
    buffer[..offset] + payload + buffer[offset + |payload|..]
  }

  function TagsAbove(s: State, t: int): set<int> {
    set k | k in s.table && k > t
  }

  lemma NextTagAbove(s: State, t: int)
    requires WellFormed(s) && t in s.table && s.table[t].nextTag in s.table
    ensures t < s.table[t].nextTag && TagsAbove(s, s.table[t].nextTag) < TagsAbove(s, t)
  {
    assert s.table[t].nextTag in TagsAbove(s, t) - TagsAbove(s, s.table[t].nextTag);
  }

  /** handle_finished_buffer_next: hand over a buffer, then the completed buffers chained behind it. */
  function Release(s: State, t: int): (r: State)
    requires WellFormed(s) && t in s.table
    ensures WellFormed(r) && KeepsSizes(s, r)
    decreases TagsAbove(s, t)
  {
    var e := s.table[t];
    var s1 := s.(delivered := s.delivered + [e.buffer]);
    if !e.lastBlock && e.nextTag in s1.table && s1.table[e.nextTag].completed then
      NextTagAbove(s, t);
      var s2 := Release(s1, e.nextTag);
      s2.(table := s2.table - {e.tag})
    else
      s1.(table := s1.table[t := e.(sent := true)])
  }

  /** One unfolding of the release chain. */
  lemma ReleaseUnfolds(s: State, t: int)
    requires WellFormed(s) && t in s.table
    ensures var e := s.table[t];
            var s1 := s.(delivered := s.delivered + [e.buffer]);
            Release(s, t) ==
              if !e.lastBlock && e.nextTag in s.table && s.table[e.nextTag].completed then
                var s2 := Release(s1, e.nextTag);
                s2.(table := s2.table - {e.tag})
              else
                s1.(table := s.table[t := e.(sent := true)])
  {
  }

  /** The release chain only runs upwards. */
  lemma {:induction false} ReleaseKeepsBelow(s: State, t: int, k: int)
    requires WellFormed(s) && t in s.table && k < t && k in s.table
    ensures var r := Release(s, t); k in r.table && r.table[k] == s.table[k]
    decreases TagsAbove(s, t)
  {
    var e := s.table[t];
    ReleaseUnfolds(s, t);
    if !e.lastBlock && e.nextTag in s.table && s.table[e.nextTag].completed {
      NextTagAbove(s, t);
      ReleaseKeepsBelow(s.(delivered := s.delivered + [e.buffer]), e.nextTag, k);
    }
  }

  /** handle_finished_buffer_prev: a completed buffer either waits for its predecessor or is released. */
  function Finish(s: State, t: int): (r: State)
    requires WellFormed(s) && t in s.table && s.table[t].valid
    ensures WellFormed(r) && KeepsSizes(s, r)
  {
    var done := s.table[t];
    if done.prevTag == NO_TAG then
      Release(s, t)
    else
      var p := done.prevTag;
      var s1 := if p in s.table then s else s.(table := s.table[p := Dummy(p, done.tag, [])]);
      if !s1.table[p].sent then
        s1.(table := s1.table[p := s1.table[p].(nextTag := done.tag)])
      else
        Release(s1.(table := s1.table - {p}), t)
  }

  /** The bytes of a data block lie inside the buffer its init block announced. */
  ghost predicate Fits(s: State, b: Block) {
    b.DataBlock? && (b.tag in s.table && s.table[b.tag].valid ==>
      b.seqNumber + |b.payload| <= s.table[b.tag].bufferSize)
  }

  /** The entry after a payload has been copied to its place and counted. */
  function Filled(e: Entry, b: Block): Entry
    requires b.DataBlock? && b.seqNumber + |b.payload| <= |e.buffer|
  {
    e.(buffer := Overwrite(e.buffer, b.seqNumber, b.payload),
       nWritten := AddU32(e.nWritten, |b.payload|))
  }

  /** handle_block on a data block. */
  function HandleData(s: State, b: Block): (r: State)
    requires WellFormed(s) && Fits(s, b) && b.tag != NO_TAG
    ensures WellFormed(r) && KeepsSizes(s, r)
  {
    if b.tag !in s.table then
      s.(table := s.table[b.tag := Dummy(b.tag, NO_TAG, [b])])
    else
      var e := s.table[b.tag];
      if !e.valid then
        s.(table := s.table[b.tag := e.(waiting := e.waiting + [b])])
      else
        var e1 := Filled(e, b);
        if e1.nWritten == e.bufferSize then
          Finish(s.(table := s.table[b.tag := e1.(completed := true)]), b.tag)
        else
          s.(table := s.table[b.tag := e1])
  }

  lemma RestStillFits(s: State, s1: State, queue: seq<Block>)
    requires KeepsSizes(s, s1) && queue != []
    requires forall b :: b in queue ==> Fits(s, b) && b.tag != NO_TAG
    ensures forall b :: b in queue[1..] ==> Fits(s1, b) && b.tag != NO_TAG
  {
    forall b | b in queue[1..]
      ensures Fits(s1, b) && b.tag != NO_TAG
    {
      assert b in queue && Fits(s, b);
    }
  }

  /** The loop that empties a waiting queue once its buffer has become valid. */
  function Drain(s: State, queue: seq<Block>): (r: State)
    requires WellFormed(s)
    requires forall b :: b in queue ==> Fits(s, b) && b.tag != NO_TAG
    ensures WellFormed(r) && KeepsSizes(s, r)
    decreases |queue|
  {
    if queue == [] then s
    else
      var s1 := HandleData(s, queue[0]);
      RestStillFits(s, s1, queue);
      Drain(s1, queue[1..])
  }

  /** The entry an init block leaves before its waiting queue is drained. */
  function Initialised(s: State, b: Block, heap: seq<byte>): Entry
    requires b.InitBlock?
  {
    var e := if b.tag in s.table then s.table[b.tag] else Dummy(b.tag, NO_TAG, []);
    e.(buffer := heap, bufferSize := b.bufferSize, tag := b.tag, prevTag := b.prevTag,
       lastBlock := b.lastBlock, valid := true, waiting := [])
  }

  function Waiting(s: State, tag: int): seq<Block> {
    if tag in s.table then s.table[tag].waiting else []
  }

  /** What the protocol demands of an arriving block: tags are linked backwards and data is in range. */
  ghost predicate Admissible(s: State, b: Block) {
    && b.tag != NO_TAG
    && match b {
         case InitBlock(size, tag, prev, _) =>
           prev < tag &&
           forall w :: w in Waiting(s, tag) ==> w.DataBlock? && w.seqNumber + |w.payload| <= size
         case DataBlock(_, _, _) => Fits(s, b)
       }
  }

  /**
   handle_block.  `heap` is the content of the memory that malloc returns for a new buffer; it is
   arbitrary, so every result about runs quantifies over it.
   */
  function HandleBlock(s: State, b: Block, heap: seq<byte>): (r: Outcome)
    requires WellFormed(s) && Admissible(s, b)
    requires b.InitBlock? ==> |heap| == b.bufferSize
    ensures r.Exited? <==> b.InitBlock? && b.tag in s.table && s.table[b.tag].valid
    ensures r.Running? ==> WellFormed(r.state)
  {
    if b.DataBlock? then
      Running(HandleData(s, b))
    else if b.tag in s.table && s.table[b.tag].valid then
      Exited
    else
      Running(Drain(s.(table := s.table[b.tag := Initialised(s, b, heap)]), Waiting(s, b.tag)))
  }
}
