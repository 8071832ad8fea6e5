/**
 multiplex_reader.c in place: buffer_info records in a shared table, updated field by field.  Every
 method is proved to act on the records exactly as the functions of module Receiver act on values.
 */
module Reader {
  import opened Standards
  import opened HashModel
  import opened HashTable
  import opened Receiver
  import opened Insertions

  datatype Option<+T> = None | Some(value: T)

  /** struct buffer_info.  `waitingQueue` is None for the null pointer. */
  class BufferInfo {
    var buffer: array?<byte>
    var bufferSize: nat
    var tag: int
    var completed: bool
    var sent: bool
    var nWritten: nat
    var prevTag: int
    var lastBlock: bool
    var valid: bool
    var nextTag: int
    var waitingQueue: Option<seq<Block>>

    /** calloc, then the fields set for a dummy; the rest stays zero. */
    constructor Dummy(tag: int, nextTag: int, waiting: Option<seq<Block>>)
      ensures buffer == null && !valid && waitingQueue == waiting
      ensures View() == DummyOf(tag, nextTag, waiting)
    {
      buffer, bufferSize, completed, sent, nWritten, prevTag, lastBlock := null, 0, false, false, 0, 0, false;
      this.tag, this.valid, this.nextTag, this.waitingQueue := tag, false, nextTag, waiting;
    }

    /** The record as a value.  Nobody but the thread draining it reads the queue of a valid buffer. */
    ghost function View(): Entry
      reads this, buffer
    {
      Entry(if buffer == null then [] else buffer[..], bufferSize, tag, completed, sent, nWritten,
            prevTag, lastBlock, valid, nextTag,
            if valid || waitingQueue == None then [] else waitingQueue.value)
    }
  }

  class MultiplexReader {
    const table: HashTable<BufferInfo?>
    /** The map that the table stands for. */
    ghost var ht: map<int, BufferInfo>
    /** The buffers passed to the handler so far. */
    var handed: seq<seq<byte>>
    ghost var model: State
    ghost var Repr: set<object>
    /** Which entry a buffer belongs to. */
    ghost var owner: map<object, int>

    ghost function Records(): set<BufferInfo>
      reads this
    {
      set t | t in ht :: ht[t]
    }

    /** The reader, its records and its table. */
    ghost function Footprint(): set<object>
      reads this`Repr, table
    {
      Repr + {table} + table.Repr
    }

    /** How many entries the table may hold before an insertion. */
    ghost function Limit(): nat {
      3 * table.numBuckets
    }

    /** The records in the table and their buffers do not share memory. */
    ghost predicate Separate()
      reads this, Repr
    {
      && this in Repr
      && (forall t :: t in ht ==> ht[t] in Repr && (ht[t].buffer != null ==> ht[t].buffer in Repr))
      && (forall t :: t in ht ==> ht[t].tag == t)
      && (forall t :: t in ht && ht[t].buffer != null ==> ht[t].buffer in owner && owner[ht[t].buffer] == t)
      && (forall t :: t in ht && ht[t].valid ==> ht[t].buffer != null)
    }

    /** `model` is the value that the records represent. */
    ghost predicate RecordsOk()
      reads this, Repr
    {
      && Separate()
      && model.delivered == handed
      && model.table.Keys == ht.Keys
      && forall t {:trigger ht[t].View()} :: t in ht ==> ht[t].View() == model.table[t]
    }

    /** The table shares no memory with the records. */
    ghost predicate Apart()
      reads this`Repr, table
    {
      table !in Repr && table.Repr !! Repr
    }

    ghost predicate Valid()
      reads this, Repr, table, table.Repr
      ensures Valid() ==> this in Repr
    {
      RecordsOk() && Apart() && table.Valid() && table.model == ht
    }

    /** The record is the table's entry for its tag. */
    ghost predicate Owns(b: BufferInfo)
      reads this, b, b.buffer
    {
      b.tag in ht && ht[b.tag] == b && b.tag in model.table && b.View() == model.table[b.tag]
    }

    constructor (table: HashTable<BufferInfo?>)
      requires table.Valid() && table.model == map[]
      ensures Valid() && this.table == table && model == State(map[], []) && Repr == {this}
    {
      this.table := table;
      ht, handed, model, Repr, owner := map[], [], State(map[], []), {this}, map[];
    }

    /** LookupHashTable. */
    method Lookup(tag: int) returns (found: bool, b: BufferInfo?)
      requires Valid()
      ensures found <==> tag in ht
      ensures found ==> b == ht[tag] && b.View() == model.table[tag]
    {
      var ret, kv := table.Lookup(tag, KeyValue(tag, null));
      found, b := ret == 1, kv.value;
    }

    /** The number of entries is the same for table and model. */
    lemma SameSize()
      requires Valid()
      ensures |ht| == |model.table| == table.numElements
    {
      assert |ht.Keys| == |ht| && |model.table.Keys| == |model.table|;
    }

    /** A new record and its buffer become part of what the table holds. */
    ghost method Register(tag: int, b: BufferInfo)
      requires Separate() && Apart() && tag !in ht && b !in Repr && b.tag == tag && b !in table.Repr
      requires if b.buffer == null then !b.valid else
                 b.buffer !in Repr && b.buffer !in owner && b.buffer !in table.Repr
      modifies this`ht, this`Repr, this`owner
      ensures Separate() && Apart() && ht == old(ht)[tag := b]
      ensures Repr == old(Repr) + {b} + (if b.buffer == null then {} else {b.buffer})
    {
      ht := ht[tag := b];
      Repr := Repr + {b} + (if b.buffer == null then {} else {b.buffer});
      owner := if b.buffer == null then owner else owner[b.buffer := tag];
    }

    /** And `model` follows. */
    ghost method TakeIn(tag: int, b: BufferInfo)
      requires RecordsOk() && Apart() && tag !in ht && b !in Repr && b.tag == tag && b !in table.Repr
      requires if b.buffer == null then !b.valid else
                 b.buffer !in Repr && b.buffer !in owner && b.buffer !in table.Repr
      modifies this`ht, this`Repr, this`owner, this`model
      ensures RecordsOk() && Apart() && ht == old(ht)[tag := b]
      ensures model == old(model).(table := old(model).table[tag := b.View()])
      ensures Repr == old(Repr) + {b} + (if b.buffer == null then {} else {b.buffer})
    {
      Register(tag, b);
      model := model.(table := model.table[tag := b.View()]);
    }

    /** InsertHashTable for a tag that has no entry yet. */
    method AddEntry(tag: int, b: BufferInfo)
      requires Valid() && tag !in ht && |ht| < Limit()
      requires b !in Repr && b !in table.Repr && b.tag == tag
      requires if b.buffer == null then !b.valid else
                 b.buffer !in Repr && b.buffer !in owner && b.buffer !in table.Repr
      modifies this, table, table.Repr
      ensures Valid() && fresh(table.Repr - old(table.Repr))
      ensures ht == old(ht)[tag := b]
      ensures model == old(model).(table := old(model).table[tag := b.View()])
      ensures Repr == old(Repr) + {b} + (if b.buffer == null then {} else {b.buffer})
    {
      SameSize();
      var ret, before := table.Insert(KeyValue(tag, b));
      TakeIn(tag, b);
    }

    /** A record and its buffer are no longer part of what the table holds. */
    ghost method LetGo(tag: int)
      requires RecordsOk() && Apart() && tag in ht
      modifies this`ht, this`Repr, this`model
      ensures RecordsOk() && Apart() && ht == old(ht) - {tag}
      ensures model == old(model).(table := old(model).table - {tag})
      ensures Repr <= old(Repr) && old(ht[tag]) !in Repr
    {
      var b := ht[tag];
      ht := ht - {tag};
      model := model.(table := model.table - {tag});
      Repr := Repr - {b} - (if b.buffer == null then {} else {b.buffer});
    }

    /** RemoveFromHashTable for a tag that has an entry. */
    method RemoveEntry(tag: int)
      requires Valid() && tag in ht
      modifies this, table, table.Repr
      ensures Valid() && table.Repr == old(table.Repr)
      ensures ht == old(ht) - {tag}
      ensures model == old(model).(table := old(model).table - {tag})
      ensures Repr <= old(Repr) && old(ht[tag]) !in Repr
    {
      var ret, removed := table.Remove(tag, KeyValue(tag, null));
      LetGo(tag);
    }

    /** Valid() survives an update of one record that `model` follows. */
    twostate lemma RecordChanged(t: int)
      requires old(RecordsOk()) && t in old(ht) && ht == old(ht) && owner == old(owner)
      requires Repr == old(Repr) && (ht[t].buffer == old(ht[t].buffer))
      requires forall o :: o in Repr && o != this && o != ht[t] && o != ht[t].buffer ==> unchanged(o)
      requires ht[t].tag == t && (ht[t].valid ==> ht[t].buffer != null)
      requires handed == model.delivered
      requires model.table == old(model).table[t := ht[t].View()]
      ensures RecordsOk()
    {
    }

    /** InsertHashTable, and once more to put back what it has displaced. */
    method Offer(tag: int, buffer: BufferInfo) returns (inserted: bool, existing: BufferInfo?)
      requires this in Repr && Apart() && table.Valid() && table.model == ht && table.numElements < Limit()
      modifies table, table.Repr
      ensures table.Valid() && fresh(table.Repr - old(table.Repr))
      ensures inserted <==> tag !in ht
      ensures table.model == if inserted then ht[tag := buffer] else ht
      ensures !inserted ==> existing == ht[tag]
    {
      var ret, dummy := table.Insert(KeyValue(tag, buffer));
      inserted, existing := ret == 1, null;
      if !inserted {
        existing := dummy.value;
        var _, _ := table.Insert(dummy);
      }
    }

    /** insert_dummy_buffer: a new dummy under `tag`, unless there is an entry, which is put back. */
    method InsertDummyBuffer(tag: int, nextTag: int, waiting: Option<seq<Block>>)
      returns (buffer: BufferInfo, inserted: bool)
      requires Valid() && |ht| < Limit()
      modifies this, table, table.Repr
      ensures Valid() && fresh(table.Repr - old(table.Repr))
      ensures inserted <==> tag !in old(ht)
      ensures ht == if inserted then old(ht)[tag := buffer] else old(ht)
      ensures inserted ==> fresh(buffer) && buffer.waitingQueue == waiting && Repr == old(Repr) + {buffer}
      ensures inserted ==> model == old(model).(table := old(model).table[tag := DummyOf(tag, nextTag, waiting)])
      ensures !inserted ==> buffer == old(ht)[tag] && model == old(model) && Repr == old(Repr)
    {
      buffer := new BufferInfo.Dummy(tag, nextTag, waiting);
      SameSize();
      var existing;
      inserted, existing := Offer(tag, buffer);
      if inserted {
        TakeIn(tag, buffer);
      } else {
        buffer := existing;
      }
    }

    /** Records that were valid stay so, and their waiting queues are left alone. */
    twostate predicate Kept()
      reads *
    {
      forall b: BufferInfo :: b in old(Repr) && old(b.valid) ==>
        b.valid && b.waitingQueue == old(b.waitingQueue)
    }

    /** arg->handler(buffer->buffer, buffer->buffer_size). */
    method CallHandler(buffer: BufferInfo)
      requires Valid() && WellFormed(model)
      requires Owns(buffer) && buffer.valid
      modifies this`handed, this`model
      ensures Valid()
      ensures model == old(model).(delivered := old(model).delivered + [old(model).table[buffer.tag].buffer])
    {
      assert buffer.buffer[..buffer.bufferSize] == buffer.buffer[..];
      handed := handed + [buffer.buffer[..buffer.bufferSize]];
      model := model.(delivered := handed);
    }

    method MarkSent(buffer: BufferInfo)
      requires Valid() && Owns(buffer)
      modifies buffer`sent, this`model
      ensures Valid() && buffer.sent
      ensures model == old(model).(table := old(model).table[buffer.tag :=
                         old(model).table[buffer.tag].(sent := true)])
    {
      buffer.sent := true;
      model := model.(table := model.table[buffer.tag := buffer.View()]);
      RecordChanged(buffer.tag);
    }

    method LinkTo(buffer: BufferInfo, nextTag: int)
      requires Valid() && Owns(buffer)
      modifies buffer`nextTag, this`model
      ensures Valid()
      ensures model == old(model).(table := old(model).table[buffer.tag :=
                         old(model).table[buffer.tag].(nextTag := nextTag)])
    {
      buffer.nextTag := nextTag;
      model := model.(table := model.table[buffer.tag := buffer.View()]);
      RecordChanged(buffer.tag);
    }

    /** The entry is removed and its record, now unreachable through the table, marked sent. */
    method Retire(buffer: BufferInfo)
      requires Valid() && Owns(buffer)
      modifies this, buffer`sent, table, table.Repr
      ensures Valid() && Repr <= old(Repr) && table.Repr == old(table.Repr) && buffer.sent
      ensures ht == old(ht) - {buffer.tag}
      ensures model == old(model).(table := old(model).table - {buffer.tag})
    {
      RemoveEntry(buffer.tag);
      buffer.sent := true;
    }

    /** The next buffer, if the current one names one that is complete. */
    method CompletedNext(buffer: BufferInfo) returns (next: BufferInfo?)
      requires Valid()
      ensures (next != null) ==
                (!buffer.lastBlock && buffer.nextTag in model.table && model.table[buffer.nextTag].completed)
      ensures next != null ==> buffer.nextTag in ht && next == ht[buffer.nextTag]
    {
      next := null;
      if !buffer.lastBlock {
        var found, b := Lookup(buffer.nextTag);
        if found && b.completed {
          next := b;
        }
      }
    }

    /** The handler gets the buffer; whether to go on is looked up after that. */
    method HandOver(buffer: BufferInfo) returns (next: BufferInfo?)
      requires Valid() && WellFormed(model) && Owns(buffer) && buffer.valid
      modifies this`handed, this`model
      ensures Valid() && WellFormed(model) && Owns(buffer)
      ensures model == old(model).(delivered := old(model).delivered + [old(model).table[buffer.tag].buffer])
      ensures (next != null) ==
                (!buffer.lastBlock && buffer.nextTag in model.table && model.table[buffer.nextTag].completed)
      ensures next != null ==> Owns(next) && next.valid && next.tag == buffer.nextTag
    {
      CallHandler(buffer);
      next := CompletedNext(buffer);
      assert next != null ==> next.View() == model.table[buffer.nextTag];
    }

    /** handle_finished_buffer_next. */
    method HandleFinishedBufferNext(buffer: BufferInfo)
      requires Valid() && WellFormed(model)
      requires Owns(buffer) && buffer.valid
      modifies this, Records()`sent, table, table.Repr
      ensures Valid() && Repr <= old(Repr) && table.Repr == old(table.Repr) && buffer.sent
      ensures model == Release(old(model), buffer.tag)
      ensures forall t :: t in ht ==> t in old(ht) && ht[t] == old(ht)[t]
      decreases TagsAbove(model, buffer.tag), 0
    {
      ghost var t, s := buffer.tag, model;
      ReleaseUnfolds(s, t);
      var next := HandOver(buffer);
      if next == null {
        MarkSent(buffer);
        return;
      }
      NextTagAbove(s, t);
      ReleaseRest(buffer, next);
    }

    /** The buffers that depend on this one are sent first; then its entry goes. */
    method ReleaseRest(buffer: BufferInfo, next: BufferInfo)
      requires Valid() && WellFormed(model) && Owns(buffer) && Owns(next) && next.valid && buffer.tag < next.tag
      modifies this, Records()`sent, table, table.Repr
      ensures Valid() && Repr <= old(Repr) && table.Repr == old(table.Repr) && buffer.sent
      ensures var r := Release(old(model), next.tag); model == r.(table := r.table - {buffer.tag})
      ensures forall t :: t in ht ==> t in old(ht) && ht[t] == old(ht)[t]
      decreases TagsAbove(model, next.tag), 1
    {
      ReleaseKeepsBelow(model, next.tag, buffer.tag);
      HandleFinishedBufferNext(next);
      Retire(buffer);
    }

    /** The entry of a predecessor, which is a new dummy if there is none. */
    method FindOrInsert(tag: int, nextTag: int) returns (b: BufferInfo)
      requires Valid() && Room(model, tag, Limit())
      modifies this, table, table.Repr
      ensures Valid() && fresh(Repr - old(Repr)) && fresh(table.Repr - old(table.Repr))
      ensures Repr >= old(Repr) && tag in ht && b == ht[tag]
      ensures if tag in old(ht) then ht == old(ht) else fresh(b)
      ensures forall t :: t in old(ht) ==> t in ht && ht[t] == old(ht)[t]
      ensures model == if tag in old(ht) then old(model)
                       else old(model).(table := old(model).table[tag := Dummy(tag, nextTag, [])])
    {
      var found, existing := Lookup(tag);
      if found {
        b := existing;
      } else {
        SameSize();
        var inserted;
        b, inserted := InsertDummyBuffer(tag, nextTag, None);
      }
    }

    /** handle_finished_buffer_prev. */
    method HandleFinishedBufferPrev(done: BufferInfo)
      requires Valid() && WellFormed(model)
      requires Owns(done) && done.valid && FinishRoom(model, done.tag, Limit())
      modifies this, Records()`sent, Records()`nextTag, table, table.Repr
      ensures Valid() && fresh(Repr - old(Repr)) && fresh(table.Repr - old(table.Repr))
      ensures model == Finish(old(model), done.tag)
    {
      if done.prevTag != NO_TAG {
        var prev := FindOrInsert(done.prevTag, done.tag);
        assert prev.View() == model.table[done.prevTag];
        if !prev.sent {
          LinkTo(prev, done.tag);
          return;
        }
        RemoveEntry(done.prevTag);
      }
      HandleFinishedBufferNext(done);
    }

    /** A data block for a buffer that is not valid yet joins its waiting queue. */
    method Park(b: BufferInfo, block: Block)
      requires Valid() && Owns(b) && !b.valid
      modifies b`waitingQueue, this`model
      ensures Valid()
      ensures model == old(model).(table := old(model).table[b.tag :=
                         old(model).table[b.tag].(waiting := old(model).table[b.tag].waiting + [block])])
    {
      if b.waitingQueue == None {
        b.waitingQueue := Some([]);
      }
      b.waitingQueue := Some(b.waitingQueue.value + [block]);
      model := model.(table := model.table[b.tag := b.View()]);
      RecordChanged(b.tag);
    }

    /** memcpy of the payload to its place and the locked addition to n_written. */
    method CopyIn(b: BufferInfo, block: Block) returns (nWritten: nat)
      requires Valid() && Owns(b) && b.valid && b.bufferSize == b.buffer.Length
      requires block.DataBlock? && block.seqNumber + |block.payload| <= b.bufferSize
      modifies b.buffer, b`nWritten, this`model
      ensures Valid() && Owns(b) && Repr == old(Repr) && table.Repr == old(table.Repr)
      ensures nWritten == b.nWritten
      ensures model == old(model).(table := old(model).table[b.tag := Filled(old(model).table[b.tag], block)])
    {
      forall i | 0 <= i < |block.payload| {
        b.buffer[block.seqNumber + i] := block.payload[i];
      }
      assert b.buffer[..] == Overwrite(old(b.buffer[..]), block.seqNumber, block.payload);
      b.nWritten := AddU32(b.nWritten, |block.payload|);
      nWritten := b.nWritten;
      model := model.(table := model.table[b.tag := b.View()]);
      RecordChanged(b.tag);
    }

    method MarkCompleted(b: BufferInfo)
      requires Valid() && Owns(b)
      modifies b`completed, this`model
      ensures Valid() && Owns(b) && Repr == old(Repr) && table.Repr == old(table.Repr)
      ensures model == old(model).(table := old(model).table[b.tag :=
                         old(model).table[b.tag].(completed := true)])
    {
      b.completed := true;
      model := model.(table := model.table[b.tag := b.View()]);
      RecordChanged(b.tag);
    }

    method CompleteBuffer(b: BufferInfo)
      requires Valid() && WellFormed(model) && Owns(b) && b.valid
      requires FinishRoom(model.(table := model.table[b.tag := model.table[b.tag].(completed := true)]), b.tag, Limit())
      modifies this, Records()`sent, Records()`nextTag, b`completed, table, table.Repr
      ensures Valid() && fresh(Repr - old(Repr)) && fresh(table.Repr - old(table.Repr))
      ensures var s := old(model);
              var s1 := s.(table := s.table[b.tag := s.table[b.tag].(completed := true)]);
              WellFormed(s1) && s1.table[b.tag].valid && model == Finish(s1, b.tag)
    {
      WellFormedUpdate(model, b.tag, model.table[b.tag].(completed := true));
      MarkCompleted(b);
      HandleFinishedBufferPrev(b);
    }

    /** Writing an entry twice leaves the later one. */
    lemma MarkedAfterFill(s: State, s1: State, block: Block)
      requires WellFormed(s) && Fits(s, block) && block.DataBlock? && block.tag in s.table && s.table[block.tag].valid
      requires s1 == s.(table := s.table[block.tag := Filled(s.table[block.tag], block)])
      ensures var e := Filled(s.table[block.tag], block);
              s1.(table := s1.table[block.tag := e.(completed := true)]) ==
              s.(table := s.table[block.tag := e.(completed := true)])
    {
      var e := Filled(s.table[block.tag], block);
      assert s.table[block.tag := e][block.tag := e.(completed := true)] == s.table[block.tag := e.(completed := true)];
    }

    /** A data block for a valid buffer is copied in, and the last one finishes the buffer. */
    method Fill(b: BufferInfo, block: Block)
      requires Valid() && WellFormed(model) && Fits(model, block)
      requires Owns(b) && b.valid && b.tag == block.tag != NO_TAG && DataRoom(model, block, Limit())
      modifies this, Records()`sent, Records()`nextTag, b.buffer, b`nWritten, b`completed, table, table.Repr
      ensures Valid() && fresh(Repr - old(Repr)) && fresh(table.Repr - old(table.Repr))
      ensures model == HandleData(old(model), block)
    {
      ghost var s := model;
      var nWritten := CopyIn(b, block);
      WellFormedUpdate(s, b.tag, model.table[b.tag]);
      if nWritten != b.bufferSize {
        return;
      }
      MarkedAfterFill(s, model, block);
      CompleteBuffer(b);
    }

    /** A data block whose tag has no entry yet waits in a new dummy. */
    method ParkInDummy(block: Block)
      requires Valid() && WellFormed(model) && Fits(model, block) && block.tag !in model.table && |ht| < Limit()
      modifies this, table, table.Repr
      ensures Valid() && fresh(Repr - old(Repr)) && fresh(table.Repr - old(table.Repr))
      ensures block.tag != NO_TAG ==> model == HandleData(old(model), block)
    {
      var dummy, inserted := InsertDummyBuffer(block.tag, NO_TAG, Some([block]));
      assert inserted;
    }

    /** A data block for an entry is copied in or parked. */
    method FillOrPark(b: BufferInfo, block: Block)
      requires Valid() && WellFormed(model) && Fits(model, block)
      requires Owns(b) && b.tag == block.tag != NO_TAG && DataRoom(model, block, Limit())
      modifies this, Records(), b.buffer, table, table.Repr
      ensures Valid() && fresh(Repr - old(Repr)) && fresh(table.Repr - old(table.Repr)) && Kept()
      ensures model == HandleData(old(model), block)
    {
      if b.valid {
        Fill(b, block);
        return;
      }
      Park(b, block);
    }

    /** handle_block on a data block. */
    method HandleDataBlock(block: Block)
      requires Valid() && WellFormed(model) && Fits(model, block) && block.tag != NO_TAG
      requires DataRoom(model, block, Limit())
      modifies this, Repr, table, table.Repr
      ensures Valid() && fresh(Repr - old(Repr)) && fresh(table.Repr - old(table.Repr)) && Kept()
      ensures model == HandleData(old(model), block)
    {
      var found, buffer := Lookup(block.tag);
      if !found {
        SameSize();
        ParkInDummy(block);
        return;
      }
      assert Owns(buffer);
      FillOrPark(buffer, block);
    }

    /** The fields that an init block sets; malloc returns memory with arbitrary content. */
    method SetFields(b: BufferInfo, block: Block)
      requires block.InitBlock?
      modifies b
      ensures fresh(b.buffer) && b.valid && b.waitingQueue == old(b.waitingQueue)
      ensures b.buffer != null && b.buffer.Length == block.bufferSize
      ensures b.View() == old(b.View()).(buffer := b.buffer[..], bufferSize := block.bufferSize, tag := block.tag,
                                         prevTag := block.prevTag, lastBlock := block.lastBlock,
                                         valid := true, waiting := [])
    {
      b.buffer := new byte[block.bufferSize];
      b.tag := block.tag;
      b.prevTag := block.prevTag;
      b.lastBlock := block.lastBlock;
      b.bufferSize := block.bufferSize;
      b.valid := true;
    }

    /** Everything about the table but the entry for one tag. */
    ghost predicate OthersOk(tag: int)
      reads this, Repr
    {
      && this in Repr && model.delivered == handed && model.table.Keys == ht.Keys && tag in ht && ht[tag] in Repr
      && forall t :: t in ht && t != tag ==>
           && ht[t] in Repr && ht[t].tag == t
           && (ht[t].buffer != null ==> ht[t].buffer in Repr && ht[t].buffer in owner && owner[ht[t].buffer] == t)
           && (ht[t].valid ==> ht[t].buffer != null)
           && ht[t].View() == model.table[t]
    }

    /** A change to one record leaves the others as they were. */
    twostate lemma OthersKept(tag: int)
      requires old(RecordsOk()) && tag in ht && unchanged(this)
      requires forall o :: o in Repr && o != ht[tag] ==> unchanged(o)
      ensures OthersOk(tag)
    {
      forall t | t in ht && t != tag
        ensures ht[t].View() == model.table[t]
      {
        assert old(ht[t].tag) == t && old(ht[tag].tag) == tag;
        assert unchanged(ht[t]);
        assert ht[t].buffer != null ==> unchanged(ht[t].buffer);
        assert ht[t].View() == old(ht[t].View());
      }
    }

    /** The memory of a record that has just become valid. */
    ghost method Adopt(b: BufferInfo)
      requires OthersOk(b.tag) && ht[b.tag] == b && Apart()
      requires b.buffer != null && b.buffer !in Repr && b.buffer !in table.Repr
      modifies this`model, this`Repr, this`owner
      ensures RecordsOk() && Apart() && Repr == old(Repr) + {b.buffer}
      ensures model == old(model).(table := old(model).table[b.tag := b.View()])
    {
      model := model.(table := model.table[b.tag := b.View()]);
      Repr := Repr + {b.buffer};
      owner := owner[b.buffer := b.tag];
    }

    /** An init block whose data came first takes over the dummy. */
    method ClaimDummy(b: BufferInfo, block: Block)
      requires Valid() && Owns(b) && block.InitBlock? && block.tag == b.tag
      modifies this`model, this`Repr, this`owner, b
      ensures Valid() && fresh(Repr - old(Repr)) && b in Repr
      ensures b.valid && b.buffer != null && b.buffer.Length == block.bufferSize
      ensures b.waitingQueue == old(b.waitingQueue)
      ensures model == old(model).(table := old(model).table[b.tag := Initialised(old(model), block, b.buffer[..])])
    {
      SetFields(b, block);
      OthersKept(b.tag);
      Adopt(b);
    }

    /** The queue of a valid buffer is nobody's but the draining thread's. */
    method SetQueue(b: BufferInfo, queue: Option<seq<Block>>)
      requires Valid() && b.valid
      modifies b`waitingQueue
      ensures Valid() && b.waitingQueue == queue
    {
      ghost var before := b.View();
      b.waitingQueue := queue;
      assert b.View() == before;
    }

    /** The oldest parked block of a valid buffer is handled. */
    method DrainOne(b: BufferInfo)
      requires Valid() && WellFormed(model) && b.valid && b !in table.Repr
      requires b.waitingQueue.Some? && b.waitingQueue.value != []
      requires forall w :: w in b.waitingQueue.value ==> Fits(model, w) && w.tag != NO_TAG
      requires DrainRoom(model, b.waitingQueue.value, Limit())
      modifies this, Repr, b`waitingQueue, table, table.Repr
      ensures Valid() && WellFormed(model) && fresh(Repr - old(Repr)) && fresh(table.Repr - old(table.Repr))
      ensures b.valid && b !in table.Repr && b.waitingQueue == Some(old(b.waitingQueue.value)[1..])
      ensures forall w :: w in b.waitingQueue.value ==> Fits(model, w) && w.tag != NO_TAG
      ensures DrainRoom(model, b.waitingQueue.value, Limit())
      ensures Drain(old(model), old(b.waitingQueue.value)) == Drain(model, b.waitingQueue.value)
    {
      ghost var s := model;
      var queue := b.waitingQueue.value;
      SetQueue(b, Some(queue[1..]));
      HandleDataBlock(queue[0]);
      RestStillFits(s, model, queue);
    }

    /** The loop that handles the parked blocks of a buffer that has just become valid. */
    method DrainQueue(b: BufferInfo)
      requires Valid() && WellFormed(model) && b.valid && b in Repr
      requires b.waitingQueue.Some? ==>
                 (forall w :: w in b.waitingQueue.value ==> Fits(model, w) && w.tag != NO_TAG) &&
                 DrainRoom(model, b.waitingQueue.value, Limit())
      modifies this, Repr, table, table.Repr
      ensures Valid() && fresh(Repr - old(Repr)) && fresh(table.Repr - old(table.Repr))
      ensures model == Drain(old(model), old(if b.waitingQueue == None then [] else b.waitingQueue.value))
    {
      if b.waitingQueue != None {
        ghost var queue := b.waitingQueue.value;
        while b.waitingQueue.value != []
          invariant Valid() && WellFormed(model) && fresh(Repr - old(Repr)) && fresh(table.Repr - old(table.Repr))
          invariant b.valid && b.waitingQueue.Some? && b !in table.Repr
          invariant forall w :: w in b.waitingQueue.value ==> Fits(model, w) && w.tag != NO_TAG
          invariant DrainRoom(model, b.waitingQueue.value, Limit())
          invariant Drain(model, b.waitingQueue.value) == Drain(old(model), queue)
          decreases |b.waitingQueue.value|
        {
          DrainOne(b);
        }
        SetQueue(b, None);
      }
    }

    /** The entry for an init block: the dummy that waits for it, or a new record. */
    method InitEntry(block: Block, waiting: BufferInfo?) returns (b: BufferInfo)
      requires Valid() && block.InitBlock? && Room(model, block.tag, Limit())
      requires if block.tag in ht then waiting == ht[block.tag] && !waiting.valid else waiting == null
      modifies this, Repr, table, table.Repr
      ensures Valid() && fresh(Repr - old(Repr)) && fresh(table.Repr - old(table.Repr)) && b in Repr && b.valid
      ensures b.buffer != null && b.buffer.Length == block.bufferSize
      ensures model == old(model).(table := old(model).table[block.tag := Initialised(old(model), block, b.buffer[..])])
      ensures (if b.waitingQueue == None then [] else b.waitingQueue.value) == Waiting(old(model), block.tag)
    {
      if waiting != null {
        b := waiting;
        assert Owns(b);
        ClaimDummy(b, block);
      } else {
        SameSize();
        b := new BufferInfo.Dummy(block.tag, NO_TAG, None);
        SetFields(b, block);
        AddEntry(block.tag, b);
      }
    }

    /** An init block for a tag without a valid entry. */
    method HandleInitBlock(block: Block, waiting: BufferInfo?) returns (ghost heap: seq<byte>)
      requires Valid() && WellFormed(model) && Admissible(model, block) && HasRoom(model, block, Limit())
      requires block.InitBlock?
      requires if block.tag in ht then waiting == ht[block.tag] && !waiting.valid else waiting == null
      modifies this, Repr, table, table.Repr
      ensures Valid() && fresh(Repr - old(Repr)) && fresh(table.Repr - old(table.Repr))
      ensures |heap| == block.bufferSize
      ensures Receiver.HandleBlock(old(model), block, heap) == Running(model)
    {
      ghost var s := model;
      assert block.tag in ht ==> ht[block.tag].View() == model.table[block.tag];
      RoomWith(s, block, seq(block.bufferSize, _ => 0), Limit());
      var b := InitEntry(block, waiting);
      heap := b.buffer[..];
      RoomWith(s, block, heap, Limit());
      WellFormedUpdate(s, block.tag, Initialised(s, block, heap));
      DrainQueue(b);
    }

    /** handle_block.  `exited` says that the process gave up on a duplicate init block. */
    method HandleBlock(block: Block) returns (exited: bool, ghost heap: seq<byte>)
      requires Valid() && WellFormed(model) && Admissible(model, block) && HasRoom(model, block, Limit())
      modifies this, Repr, table, table.Repr
      ensures Valid() && fresh(Repr - old(Repr)) && fresh(table.Repr - old(table.Repr))
      ensures block.InitBlock? ==> |heap| == block.bufferSize
      ensures Receiver.HandleBlock(old(model), block, heap) == if exited then Exited else Running(model)
      ensures exited ==> model == old(model)
    {
      exited, heap := false, [];
      if block.DataBlock? {
        HandleDataBlock(block);
        return;
      }
      var found, buffer := Lookup(block.tag);
      if found && buffer.valid {
        exited, heap := true, seq(block.bufferSize, _ => 0);
      } else {
        heap := HandleInitBlock(block, if found then buffer else null);
      }
    }
  }

  ghost function DummyOf(tag: int, nextTag: int, waiting: Option<seq<Block>>): Entry {
    Dummy(tag, nextTag, if waiting.None? then [] else waiting.value)
  }
}
