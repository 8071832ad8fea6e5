/**
 How full the receiver's table gets.  InsertHashTable behaves as a map only below the resize threshold, so
 every insertion that handle_block makes is looked at with the number of entries it finds.
 */
module TableRoom {
  import opened Standards
  import opened Messages
  import opened Receiver
  import opened Insertions
  import opened Delivery
  import opened Runs

  ghost predicate InRange(t: int, lo: int, hi: int) {
    lo <= t < hi
  }

  /** All tags lie in a window, and so does the predecessor that buffer t names. */
  ghost predicate Within(s: State, t: int, lo: int, hi: int) {
    && InRange(t, lo, hi)
    && (forall k :: k in s.table ==> InRange(k, lo, hi))
    && (t in s.table && s.table[t].valid && s.table[t].prevTag != NO_TAG ==> InRange(s.table[t].prevTag, lo, hi))
  }

  lemma {:induction false} WindowSize(keys: set<int>, lo: int, hi: int)
    requires lo <= hi && forall k :: k in keys ==> InRange(k, lo, hi)
    ensures |keys| <= hi - lo
    decreases hi - lo
  {
    if lo < hi {
      var rest := keys - {hi - 1};
      WindowSize(rest, lo, hi - 1);
      assert |keys| <= |rest| + 1 by {
        assert hi - 1 in keys ==> keys == rest + {hi - 1};
        assert hi - 1 !in keys ==> keys == rest;
      }
    } else {
      assert forall k :: k !in keys;
      assert keys == {};
    }
  }

  lemma RoomInWindow(s: State, tag: int, lo: int, hi: int, limit: nat)
    requires hi - lo <= limit && (forall k :: k in s.table ==> InRange(k, lo, hi)) && InRange(tag, lo, hi)
    ensures |s.table| <= hi - lo && Room(s, tag, limit)
  {
    WindowSize(s.table.Keys, lo, hi);
    if tag !in s.table {
      WindowSize(s.table.Keys + {tag}, lo, hi);
    }
  }

  /** Releasing buffers adds no tag and leaves what the entries say of their predecessors. */
  lemma {:induction false} ReleaseShrinks(s: State, t: int, k: int)
    requires WellFormed(s) && t in s.table && k in Release(s, t).table
    ensures k in s.table
    ensures Release(s, t).table[k].valid == s.table[k].valid && Release(s, t).table[k].prevTag == s.table[k].prevTag
    decreases TagsAbove(s, t)
  {
    var e := s.table[t];
    ReleaseUnfolds(s, t);
    if !e.lastBlock && e.nextTag in s.table && s.table[e.nextTag].completed {
      NextTagAbove(s, t);
      ReleaseShrinks(s.(delivered := s.delivered + [e.buffer]), e.nextTag, k);
    }
  }

  lemma ReleaseWithin(s: State, u: int, t: int, lo: int, hi: int)
    requires WellFormed(s) && u in s.table && Within(s, t, lo, hi)
    ensures Within(Release(s, u), t, lo, hi)
  {
    forall k | k in Release(s, u).table
      ensures InRange(k, lo, hi)
      ensures k == t && Release(s, u).table[k].valid && Release(s, u).table[k].prevTag != NO_TAG ==>
                InRange(Release(s, u).table[k].prevTag, lo, hi)
    {
      ReleaseShrinks(s, u, k);
    }
  }

  lemma FinishWithin(s: State, t: int, lo: int, hi: int, limit: nat)
    requires hi - lo <= limit
    requires WellFormed(s) && t in s.table && s.table[t].valid && Within(s, t, lo, hi)
    ensures FinishRoom(s, t, limit) && Within(Finish(s, t), t, lo, hi)
  {
    var p := s.table[t].prevTag;
    if p == NO_TAG {
      ReleaseWithin(s, t, t, lo, hi);
    } else {
      RoomInWindow(s, p, lo, hi, limit);
      if p in s.table && s.table[p].sent {
        ReleaseWithin(s.(table := s.table - {p}), t, t, lo, hi);
      }
    }
  }

  lemma DataWithin(s: State, b: Block, lo: int, hi: int, limit: nat)
    requires hi - lo <= limit
    requires WellFormed(s) && Fits(s, b) && b.tag != NO_TAG && Within(s, b.tag, lo, hi)
    ensures DataRoom(s, b, limit) && Within(HandleData(s, b), b.tag, lo, hi)
  {
    RoomInWindow(s, b.tag, lo, hi, limit);
    if b.tag in s.table && s.table[b.tag].valid {
      var e := Filled(s.table[b.tag], b);
      if e.nWritten == e.bufferSize {
        var s1 := s.(table := s.table[b.tag := e.(completed := true)]);
        WellFormedUpdate(s, b.tag, e.(completed := true));
        FinishWithin(s1, b.tag, lo, hi, limit);
      }
    }
  }

  lemma {:induction false} DrainWithin(s: State, t: int, queue: seq<Block>, lo: int, hi: int, limit: nat)
    requires hi - lo <= limit
    requires WellFormed(s) && forall b :: b in queue ==> Fits(s, b) && b.tag == t != NO_TAG
    requires Within(s, t, lo, hi)
    ensures DrainRoom(s, queue, limit)
    decreases |queue|
  {
    if queue != [] {
      DataWithin(s, queue[0], lo, hi, limit);
      var s1 := HandleData(s, queue[0]);
      RestStillFits(s, s1, queue);
      DrainWithin(s1, t, queue[1..], lo, hi, limit);
    }
  }

  /** Whatever handle_block does with a block of the window, it inserts only into a table with room. */
  lemma BlockWithin(s: State, b: Block, heap: seq<byte>, lo: int, hi: int, limit: nat)
    requires hi - lo <= limit
    requires WellFormed(s) && Admissible(s, b) && (b.InitBlock? ==> |heap| == b.bufferSize)
    requires Within(s, b.tag, lo, hi) && (b.InitBlock? && b.prevTag != NO_TAG ==> InRange(b.prevTag, lo, hi))
    ensures BlockRoom(s, b, heap, limit)
  {
    if b.DataBlock? {
      DataWithin(s, b, lo, hi, limit);
    } else if HandleBlock(s, b, heap).Running? {
      RoomInWindow(s, b.tag, lo, hi, limit);
      var s1 := s.(table := s.table[b.tag := Initialised(s, b, heap)]);
      WellFormedUpdate(s, b.tag, Initialised(s, b, heap));
      assert b.tag in s.table ==> EntryWellFormed(b.tag, s.table[b.tag]);
      DrainWithin(s1, b.tag, Waiting(s, b.tag), lo, hi, limit);
    }
  }

  /** The lowest tag that can be in the table: the last delivered buffer's, once there is one. */
  ghost function Lowest(s: State): nat {
    if s.delivered == [] then 0 else |s.delivered| - 1
  }

  /** Every block handled or about to be handled belongs to one of the first `high` buffers. */
  ghost predicate Below(arrivals: seq<Arrival>, high: int) {
    forall a :: a in arrivals ==> a.block.tag < high
  }

  ghost predicate GotBelow(got: set<Block>, high: int) {
    forall b :: b in got ==> b.tag < high
  }

  lemma KeysBelow(sent: seq<Message>, got: set<Block>, s: State, high: int, k: int)
    requires Inv(sent, got, s) && GotBelow(got, high) && k in s.table
    ensures InRange(k, Lowest(s), high)
  {
    ZombieAt(sent, got, s, k);
    if k >= |s.delivered| {
      assert Present(sent, got, k, NO_TAG);
      if !Touched(sent, got, k) {
        assert InitOf(sent, k + 1) in got;
      }
    } else {
      assert Complete(sent, got, k) && InitOf(sent, k) in got;
    }
  }

  /** The table never holds more than the undelivered buffers and the last delivered one. */
  lemma TableSize(sent: seq<Message>, arrivals: seq<Arrival>)
    requires Plan(sent) && Arrives(sent, arrivals)
    ensures var s := Run(sent, arrivals); |s.table| <= |sent| - |s.delivered| + if s.delivered == [] then 0 else 1
  {
    RunKeepsInv(sent, arrivals);
    var s := Run(sent, arrivals);
    forall k | k in s.table
      ensures InRange(k, Lowest(s), |sent|)
    {
      KeysBelow(sent, Handled(arrivals), s, |sent|, k);
    }
    WindowSize(s.table.Keys, Lowest(s), |sent|);
  }

  lemma UnhandledIsUndelivered(sent: seq<Message>, got: set<Block>, s: State, b: Block)
    requires Inv(sent, got, s) && Belongs(sent, b) && b !in got
    ensures b.tag >= |s.delivered|
  {
    DeliveredIsHandled(sent, got, s, b);
  }

  lemma DeliveredIsHandled(sent: seq<Message>, got: set<Block>, s: State, b: Block)
    requires Inv(sent, got, s) && Belongs(sent, b)
    ensures b.tag < |s.delivered| ==> Complete(sent, got, b.tag) && b in got
  {
  }

  lemma NextWithin(sent: seq<Message>, got: set<Block>, s: State, b: Block, high: int)
    requires Inv(sent, got, s) && GotBelow(got, high)
    requires Belongs(sent, b) && b !in got && b.tag < high
    ensures Within(s, b.tag, Lowest(s), high)
    ensures b.InitBlock? && b.prevTag != NO_TAG ==> InRange(b.prevTag, Lowest(s), high)
  {
    UnhandledIsUndelivered(sent, got, s, b);
    forall k | k in s.table
      ensures InRange(k, Lowest(s), high)
    {
      KeysBelow(sent, got, s, high, k);
    }
    if b.tag in s.table {
      assert EntryOk(sent, got, b.tag, s.table[b.tag], NO_TAG);
    }
  }

  /** The last call of handle_block in a run inserts only while the table has fewer than `limit` entries. */
  ghost predicate StepRoom(sent: seq<Message>, arrivals: seq<Arrival>, limit: nat)
    requires Plan(sent) && Arrives(sent, arrivals) && arrivals != []
  {
    var n := |arrivals| - 1;
    var s, a := Run(sent, arrivals[..n]), arrivals[n];
    WellFormed(s) && Admissible(s, a.block) && BlockRoom(s, a.block, a.heap, limit)
  }

  /** There is room as long as the sender is not too far ahead of the oldest buffer not yet handed over. */
  lemma RoomWhileClose(sent: seq<Message>, arrivals: seq<Arrival>, high: int, limit: nat)
    requires Plan(sent) && Arrives(sent, arrivals) && arrivals != [] && Below(arrivals, high)
    requires high - Lowest(Run(sent, arrivals[..|arrivals| - 1])) <= limit
    ensures StepRoom(sent, arrivals, limit)
  {
    var n := |arrivals| - 1;
    var before, a := arrivals[..n], arrivals[n];
    RunKeepsInv(sent, before);
    var s := Run(sent, before);
    HandledExtends(arrivals);
    assert a in arrivals && forall x :: x in before ==> x in arrivals;
    StepKeepsInv(sent, Handled(before), s, a);
    NextWithin(sent, Handled(before), s, a.block, high);
    BlockWithin(s, a.block, a.heap, Lowest(s), high, limit);
  }

  /** With no more buffers than the limit there is room for every block of the plan, in whatever state. */
  lemma RoomForPlan(sent: seq<Message>, got: set<Block>, s: State, b: Block, limit: nat)
    requires Inv(sent, got, s) && Belongs(sent, b) && b !in got && |sent| <= limit
    requires WellFormed(s) && Admissible(s, b)
    ensures HasRoom(s, b, limit)
  {
    assert GotBelow(got, |sent|) && b.tag < |sent|;
    NextWithin(sent, got, s, b, |sent|);
    if b.DataBlock? {
      BlockWithin(s, b, [], Lowest(s), |sent|, limit);
    } else {
      forall heap: seq<byte> | |heap| == b.bufferSize
        ensures BlockRoom(s, b, heap, limit)
      {
        BlockWithin(s, b, heap, Lowest(s), |sent|, limit);
      }
    }
  }

  /** The init blocks of the first k buffers, in order. */
  ghost function Inits(sent: seq<Message>, k: nat): (arrivals: seq<Arrival>)
    requires Plan(sent) && k <= |sent|
    ensures |arrivals| == k
    ensures forall t :: 0 <= t < k ==> arrivals[t].block == InitOf(sent, t) && |arrivals[t].heap| == |sent[t].bytes|
  {
    seq(k, t requires 0 <= t < k => Arrival(InitOf(sent, t), sent[t].bytes))
  }

  /** If only init blocks have arrived, each has its entry and nothing is handed over. */
  lemma InitsFill(sent: seq<Message>, k: nat)
    requires Plan(sent) && k <= |sent|
    ensures Arrives(sent, Inits(sent, k))
    ensures forall t :: t in Run(sent, Inits(sent, k)).table <==> 0 <= t < k
  {
    var arrivals := Inits(sent, k);
    RunKeepsInv(sent, arrivals);
    var got, s := Handled(arrivals), Run(sent, arrivals);
    InitsOnly(sent, arrivals, got, s, k);
  }

  lemma FirstIsComplete(sent: seq<Message>, got: set<Block>, s: State)
    requires Inv(sent, got, s)
    ensures s.delivered != [] ==> Complete(sent, got, 0)
  {
  }

  lemma InitsOnly(sent: seq<Message>, arrivals: seq<Arrival>, got: set<Block>, s: State, k: nat)
    requires Plan(sent) && k <= |sent| && arrivals == Inits(sent, k) && got == Handled(arrivals) && Inv(sent, got, s)
    ensures forall t :: t in s.table <==> 0 <= t < k
  {
    assert forall b :: b in got ==> b.InitBlock? && 0 <= b.tag < k;
    forall t
      ensures !Complete(sent, got, t)
    {
      if IsTag(sent, t) && sent[t].bytes != [] {
        assert IsChunk(sent, t, 0) && DataOf(sent, t, 0) !in got;
      }
    }
    FirstIsComplete(sent, got, s);
    forall t
      ensures t in s.table <==> 0 <= t < k
    {
      if 0 <= t < k {
        assert arrivals[t] in arrivals && InitOf(sent, t) in got;
        assert Present(sent, got, t, NO_TAG);
      }
      if t in s.table {
        assert t >= 0 && Present(sent, got, t, NO_TAG);
      }
    }
  }

  ghost function FirstTags(k: nat): (tags: set<int>)
    ensures |tags| == k && forall t :: t in tags <==> 0 <= t < k
  {
    if k == 0 then {} else FirstTags(k - 1) + {k - 1}
  }

  /** One init block more than the limit: the last of them finds the table full. */
  lemma InitsOverflow(sent: seq<Message>, limit: nat)
    requires Plan(sent) && limit < |sent|
    ensures Arrives(sent, Inits(sent, limit + 1)) && !StepRoom(sent, Inits(sent, limit + 1), limit)
  {
    var arrivals := Inits(sent, limit + 1);
    InitsFill(sent, limit);
    InitsFill(sent, limit + 1);
    assert arrivals[..limit] == Inits(sent, limit);
    var s := Run(sent, Inits(sent, limit));
    assert s.table.Keys == FirstTags(limit);
  }

  /**
   In every order of arrival every insertion finds a table below the limit if and only if there are no
   more buffers than that.
   */
  lemma RoomExactly(sent: seq<Message>, limit: nat)
    requires Plan(sent)
    ensures (forall arrivals :: Arrives(sent, arrivals) && arrivals != [] ==> StepRoom(sent, arrivals, limit))
            <==> |sent| <= limit
  {
    if |sent| <= limit {
      forall arrivals | Arrives(sent, arrivals) && arrivals != []
        ensures StepRoom(sent, arrivals, limit)
      {
        RoomWhileClose(sent, arrivals, |sent|, limit);
      }
    } else {
      InitsOverflow(sent, limit);
    }
  }
}
