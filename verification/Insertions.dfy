/**
 The insertions that handle_block makes, and whether the table has room for them: InsertHashTable behaves as
 a map only below the resize threshold.
 */
module Insertions {
  import opened Standards
  import opened Receiver

  /** If `tag` has to be inserted, the table holds fewer than `limit` entries before. */
  ghost predicate Room(s: State, tag: int, limit: nat) {
    tag !in s.table ==> |s.table| < limit
  }

  /** The dummy that a finished buffer may make for its predecessor. */
  ghost predicate FinishRoom(s: State, t: int, limit: nat)
    requires t in s.table
  {
    s.table[t].prevTag != NO_TAG ==> Room(s, s.table[t].prevTag, limit)
  }

  /** The insertions of handle_block on a data block. */
  ghost predicate DataRoom(s: State, b: Block, limit: nat)
    requires WellFormed(s) && Fits(s, b)
  {
    && Room(s, b.tag, limit)
    && (b.tag in s.table && s.table[b.tag].valid ==>
          var e := Filled(s.table[b.tag], b);
          e.nWritten == e.bufferSize ==>
            FinishRoom(s.(table := s.table[b.tag := e.(completed := true)]), b.tag, limit))
  }

  ghost predicate DrainRoom(s: State, queue: seq<Block>, limit: nat)
    requires WellFormed(s) && forall b :: b in queue ==> Fits(s, b) && b.tag != NO_TAG
    decreases |queue|
  {
    queue == [] ||
    (DataRoom(s, queue[0], limit) &&
     var s1 := HandleData(s, queue[0]);
     RestStillFits(s, s1, queue);
     DrainRoom(s1, queue[1..], limit))
  }

  /** All insertions of one call of handle_block. */
  ghost predicate BlockRoom(s: State, b: Block, heap: seq<byte>, limit: nat)
    requires WellFormed(s) && Admissible(s, b) && (b.InitBlock? ==> |heap| == b.bufferSize)
  {
    if b.DataBlock? then
      DataRoom(s, b, limit)
    else
      HandleBlock(s, b, heap).Running? ==>
        && Room(s, b.tag, limit)
        && DrainRoom(s.(table := s.table[b.tag := Initialised(s, b, heap)]), Waiting(s, b.tag), limit)
  }

  /** The same, whatever memory malloc returns. */
  ghost predicate HasRoom(s: State, b: Block, limit: nat)
    requires WellFormed(s) && Admissible(s, b)
  {
    if b.DataBlock? then DataRoom(s, b, limit)
    else forall heap: seq<byte> :: |heap| == b.bufferSize ==> BlockRoom(s, b, heap, limit)
  }

  /** What an init block without a valid entry has room for, for one content of memory. */
  lemma RoomWith(s: State, b: Block, heap: seq<byte>, limit: nat)
    requires WellFormed(s) && Admissible(s, b) && HasRoom(s, b, limit)
    requires b.InitBlock? && |heap| == b.bufferSize && !(b.tag in s.table && s.table[b.tag].valid)
    ensures Room(s, b.tag, limit)
    ensures DrainRoom(s.(table := s.table[b.tag := Initialised(s, b, heap)]), Waiting(s, b.tag), limit)
  {
    assert BlockRoom(s, b, heap, limit);
  }
}
