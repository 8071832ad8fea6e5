/**
 Ordered delivery: the invariant that ties the receiver's table to the set of blocks handled so far,
 and the proof that every step of the receiver keeps it.
 */
module Delivery {
  import opened Standards
  import opened Messages
  import opened Receiver

  /**
   Buffer t is complete and its predecessor's entry says so.  `pending` is the one buffer, if any,
   whose last byte has just been written but which has not been linked or released yet.
   */
  ghost predicate Linked(sent: seq<Message>, got: set<Block>, t: int, pending: int)
    requires Plan(sent)
  {
    Complete(sent, got, t) && t != pending
  }

  /** The entry of an undelivered buffer, as a function of the blocks handled. */
  ghost predicate EntryOk(sent: seq<Message>, got: set<Block>, t: int, e: Entry, pending: int)
    requires IsTag(sent, t)
  {
    && e.tag == t
    && !e.sent
    && e.nextTag == (if Linked(sent, got, t + 1, pending) then t + 1 else NO_TAG)
    && e.valid == (InitOf(sent, t) in got)
    && e.completed == Complete(sent, got, t)
    && (if e.valid then FilledOk(sent, got, t, e) else ParkedOk(sent, got, t, e))
  }

  /** A valid buffer holds exactly the data blocks handled so far and counts their bytes. */
  ghost predicate FilledOk(sent: seq<Message>, got: set<Block>, t: int, e: Entry)
    requires IsTag(sent, t)
  {
    && e.waiting == []
    && e.prevTag == t - 1
    && e.lastBlock == sent[t].last
    && e.bufferSize == |e.buffer| == |sent[t].bytes|
    && e.nWritten == Received(sent, got, t, sent[t].Chunks())
    && forall i :: IsChunk(sent, t, i) && DataOf(sent, t, i) in got ==> Written(sent[t], e.buffer, i)
  }

  /** A dummy's queue holds exactly the data blocks handled so far, each once. */
  ghost predicate ParkedOk(sent: seq<Message>, got: set<Block>, t: int, e: Entry)
    requires IsTag(sent, t)
  {
    && e.nWritten == 0
    && (forall b :: b in e.waiting <==> b in got && b.DataBlock? && b.tag == t)
    && forall i, j :: 0 <= i < j < |e.waiting| ==> e.waiting[i] != e.waiting[j]
  }

  /** The entry kept for the most recently delivered buffer. */
  ghost predicate ZombieOk(t: int, e: Entry) {
    EntryWellFormed(t, e) && e.sent && e.valid && e.completed && e.nextTag == NO_TAG
  }

  /** An undelivered buffer has an entry if one of its blocks or its completed successor asked for one. */
  ghost predicate Present(sent: seq<Message>, got: set<Block>, t: int, pending: int)
    requires Plan(sent)
  {
    IsTag(sent, t) && (Touched(sent, got, t) || Linked(sent, got, t + 1, pending))
  }

  ghost predicate CompleteUpTo(sent: seq<Message>, got: set<Block>, k: nat)
    requires Plan(sent)
  {
    forall t :: 0 <= t < k ==> Complete(sent, got, t)
  }

  ghost predicate Handed(sent: seq<Message>, delivered: seq<seq<byte>>) {
    && |delivered| <= |sent|
    && forall t :: 0 <= t < |delivered| ==> delivered[t] == sent[t].bytes
  }

  /** The entries of tag `low` and above are those of undelivered buffers. */
  ghost predicate UpperOk(sent: seq<Message>, got: set<Block>, s: State, low: int, pending: int)
    requires Plan(sent)
  {
    && (forall t :: t >= low ==> (t in s.table <==> Present(sent, got, t, pending)))
    && (forall t :: t >= low && t in s.table ==> EntryOk(sent, got, t, s.table[t], pending))
  }

  /** Below the first undelivered tag k there is only the entry of buffer k - 1, already sent. */
  ghost predicate LowerOk(table: map<int, Entry>, k: nat) {
    && (forall t :: t in table && t < k ==> t == k - 1)
    && (if k > 0 then k - 1 in table && ZombieOk(k - 1, table[k - 1]) else NO_TAG !in table)
  }

  ghost predicate GotOk(sent: seq<Message>, got: set<Block>)
    requires Plan(sent)
  {
    forall b :: b in got ==> Belongs(sent, b)
  }

  ghost predicate InvExcept(sent: seq<Message>, got: set<Block>, s: State, pending: int) {
    && Plan(sent)
    && GotOk(sent, got)
    && Handed(sent, s.delivered)
    && var k := |s.delivered|;
    && CompleteUpTo(sent, got, k)
    && !Linked(sent, got, k, pending)
    && LowerOk(s.table, k)
    && UpperOk(sent, got, s, k, pending)
  }

  /** The receiver's invariant between two calls of handle_block. */
  ghost predicate Inv(sent: seq<Message>, got: set<Block>, s: State) {
    InvExcept(sent, got, s, NO_TAG)
  }

  lemma InvIsWellFormed(sent: seq<Message>, got: set<Block>, s: State, pending: int)
    requires InvExcept(sent, got, s, pending)
    ensures WellFormed(s)
  {
    forall k | k in s.table
      ensures EntryWellFormed(k, s.table[k])
    {
      if k >= |s.delivered| {
        assert EntryOk(sent, got, k, s.table[k], pending);
      }
    }
  }

  lemma CompletedBytes(sent: seq<Message>, got: set<Block>, t: int, e: Entry, pending: int)
    requires IsTag(sent, t) && EntryOk(sent, got, t, e, pending) && Complete(sent, got, t)
    ensures e.valid && e.buffer == sent[t].bytes
  {
    forall i | 0 <= i < sent[t].Chunks()
      ensures Written(sent[t], e.buffer, i)
    {
      assert IsChunk(sent, t, i) && DataOf(sent, t, i) in got;
    }
    AllWritten(sent[t], e.buffer);
  }

  /** The last buffer of the run of complete buffers that starts at t. */
  ghost function ChainEnd(sent: seq<Message>, got: set<Block>, t: int): (m: int)
    requires Plan(sent) && Complete(sent, got, t)
    ensures t <= m < |sent| && !Complete(sent, got, m + 1)
    ensures forall u :: t <= u <= m ==> Complete(sent, got, u)
    decreases |sent| - t
  {
    if Complete(sent, got, t + 1) then ChainEnd(sent, got, t + 1) else t
  }

  ghost function AfterRelease(table: map<int, Entry>, t: int, m: int): map<int, Entry> {
    map k | k in table && (k < t || m <= k) :: if k == m then table[k].(sent := true) else table[k]
  }

  /** At a completed buffer, the chain goes on exactly when the next buffer is complete. */
  lemma ReleaseStep(sent: seq<Message>, got: set<Block>, s: State, t: int)
    requires Plan(sent) && Complete(sent, got, t) && UpperOk(sent, got, s, t, NO_TAG) && WellFormed(s)
    ensures t in s.table
    ensures var e := s.table[t];
            && e.tag == t && e.buffer == sent[t].bytes
            && e.nextTag == (if Complete(sent, got, t + 1) then t + 1 else NO_TAG)
            && (Complete(sent, got, t + 1) ==> !e.lastBlock && t + 1 in s.table)
            && (e.nextTag in s.table ==> s.table[e.nextTag].completed)
  {
    assert Present(sent, got, t, NO_TAG);
    var e := s.table[t];
    assert EntryOk(sent, got, t, e, NO_TAG);
    CompletedBytes(sent, got, t, e, NO_TAG);
    if Complete(sent, got, t + 1) {
      assert Present(sent, got, t + 1, NO_TAG);
      assert EntryOk(sent, got, t + 1, s.table[t + 1], NO_TAG);
    }
  }

  /** Buffers t to m have been handed over, and only m keeps its entry. */
  ghost predicate RunReleased(sent: seq<Message>, s: State, r: State, t: int, m: int) {
    && Handed(sent, r.delivered) && |r.delivered| == m + 1
    && r.table == AfterRelease(s.table, t, m)
  }

  lemma AfterReleaseAbove(table: map<int, Entry>, t: int, m: int)
    requires t <= m
    ensures forall u :: u > m ==> (u in table <==> u in AfterRelease(table, t, m))
    ensures forall u :: u > m && u in table ==> table[u] == AfterRelease(table, t, m)[u]
  {
  }

  lemma AfterReleaseStep(table: map<int, Entry>, t: int, m: int)
    requires t < m
    ensures AfterRelease(table, t + 1, m) - {t} == AfterRelease(table, t, m)
  {
  }

  /** UpperOk looks at nothing but the entries from `low` up. */
  lemma UpperFrame(sent: seq<Message>, got: set<Block>, s: State, s1: State, low: int, low1: int)
    requires Plan(sent) && UpperOk(sent, got, s, low, NO_TAG) && low <= low1
    requires forall u :: u >= low1 ==> (u in s.table <==> u in s1.table)
    requires forall u :: u >= low1 && u in s.table ==> s.table[u] == s1.table[u]
    ensures UpperOk(sent, got, s1, low1, NO_TAG)
  {
    forall u | u >= low1
      ensures u in s1.table <==> Present(sent, got, u, NO_TAG)
      ensures u in s1.table ==> EntryOk(sent, got, u, s1.table[u], NO_TAG)
    {
      assert u >= low;
    }
  }

  /**
   handle_finished_buffer_next hands over the maximal run of completed buffers that starts at t,
   removes all their entries but the last and marks that one sent.
   */
  lemma {:induction false} ReleaseDeliversRun(sent: seq<Message>, got: set<Block>, s: State, t: int)
    requires Plan(sent) && WellFormed(s) && Complete(sent, got, t)
    requires Handed(sent, s.delivered) && |s.delivered| == t
    requires UpperOk(sent, got, s, t, NO_TAG)
    ensures t in s.table
    ensures RunReleased(sent, s, Release(s, t), t, ChainEnd(sent, got, t))
    decreases |sent| - t
  {
    ReleaseStep(sent, got, s, t);
    var s1 := s.(delivered := s.delivered + [s.table[t].buffer]);
    ReleaseUnfolds(s, t);
    if Complete(sent, got, t + 1) {
      UpperFrame(sent, got, s, s1, t, t + 1);
      ReleaseDeliversRun(sent, got, s1, t + 1);
      AfterReleaseStep(s.table, t, ChainEnd(sent, got, t));
    } else {
      assert s.table[t := s.table[t].(sent := true)] == AfterRelease(s.table, t, t) by {
        assert forall k :: k in s.table && k < t ==> k in AfterRelease(s.table, t, t);
      }
    }
  }

  lemma BecomesZombie(sent: seq<Message>, got: set<Block>, t: int, e: Entry)
    requires IsTag(sent, t) && EntryWellFormed(t, e) && EntryOk(sent, got, t, e, NO_TAG)
    requires Complete(sent, got, t) && !Complete(sent, got, t + 1)
    ensures ZombieOk(t, e.(sent := true))
  {
  }

  lemma LastOfRun(sent: seq<Message>, got: set<Block>, s: State, t: int, m: int)
    requires Plan(sent) && WellFormed(s) && UpperOk(sent, got, s, t, NO_TAG) && t <= m
    requires Complete(sent, got, m) && !Complete(sent, got, m + 1)
    requires forall k :: k in s.table ==> k >= t >= 0
    ensures m in s.table && LowerOk(AfterRelease(s.table, t, m), m + 1)
  {
    assert Present(sent, got, m, NO_TAG);
    assert EntryOk(sent, got, m, s.table[m], NO_TAG);
    BecomesZombie(sent, got, m, s.table[m]);
  }

  /** Everything before t has been handed over and forgotten, and t is complete. */
  ghost predicate ChainReady(sent: seq<Message>, got: set<Block>, s: State, t: nat) {
    && Plan(sent) && GotOk(sent, got) && WellFormed(s)
    && Complete(sent, got, t) && CompleteUpTo(sent, got, t)
    && Handed(sent, s.delivered) && |s.delivered| == t
    && (forall k :: k in s.table ==> k >= t)
    && UpperOk(sent, got, s, t, NO_TAG)
  }

  lemma InvFromRun(sent: seq<Message>, got: set<Block>, s: State, r: State, t: nat, m: int)
    requires ChainReady(sent, got, s, t)
    requires t <= m && !Complete(sent, got, m + 1) && CompleteUpTo(sent, got, m + 1)
    requires RunReleased(sent, s, r, t, m)
    ensures Inv(sent, got, r)
  {
    assert LowerOk(r.table, m + 1) by {
      LastOfRun(sent, got, s, t, m);
    }
    assert UpperOk(sent, got, r, m + 1, NO_TAG) by {
      AfterReleaseAbove(s.table, t, m);
      UpperFrame(sent, got, s, r, t, m + 1);
    }
  }

  lemma RunIsComplete(sent: seq<Message>, got: set<Block>, t: nat) returns (m: int)
    requires Plan(sent) && CompleteUpTo(sent, got, t) && Complete(sent, got, t)
    ensures m == ChainEnd(sent, got, t)
    ensures t <= m && !Complete(sent, got, m + 1) && CompleteUpTo(sent, got, m + 1)
  {
    m := ChainEnd(sent, got, t);
  }

  lemma ReleaseFromReady(sent: seq<Message>, got: set<Block>, s: State, t: nat) returns (r: State, m: int)
    requires ChainReady(sent, got, s, t)
    ensures t <= m && !Complete(sent, got, m + 1) && CompleteUpTo(sent, got, m + 1)
    ensures t in s.table && r == Release(s, t) && RunReleased(sent, s, r, t, m)
  {
    ReleaseDeliversRun(sent, got, s, t);
    m := RunIsComplete(sent, got, t);
    r := Release(s, t);
  }

  lemma InvAfterRelease(sent: seq<Message>, got: set<Block>, s: State, t: nat)
    requires ChainReady(sent, got, s, t)
    ensures t in s.table && Inv(sent, got, Release(s, t))
  {
    var r, m := ReleaseFromReady(sent, got, s, t);
    InvFromRun(sent, got, s, r, t, m);
  }

  /** Pending concerns only the predecessor of the pending buffer. */
  lemma PendingBelow(sent: seq<Message>, got: set<Block>, s: State, s1: State, t: int)
    requires Plan(sent) && UpperOk(sent, got, s, t, t)
    requires forall u :: u >= t ==> (u in s.table <==> u in s1.table)
    requires forall u :: u >= t && u in s.table ==> s.table[u] == s1.table[u]
    ensures UpperOk(sent, got, s1, t, NO_TAG)
  {
    forall u | u >= t
      ensures u in s1.table <==> Present(sent, got, u, NO_TAG)
      ensures u in s1.table ==> EntryOk(sent, got, u, s1.table[u], NO_TAG)
    {
      assert u in s.table <==> Present(sent, got, u, t);
    }
  }

  lemma UntouchedHasNoData(sent: seq<Message>, got: set<Block>, t: int)
    requires Plan(sent) && GotOk(sent, got) && IsTag(sent, t) && !Touched(sent, got, t)
    ensures forall b :: b in got && b.DataBlock? ==> b.tag != t
  {
    forall b | b in got && b.DataBlock?
      ensures b.tag != t
    {
      assert Belongs(sent, b);
    }
  }

  /** The entry a completed buffer leaves with its undelivered predecessor. */
  function LinkBack(s: State, t: int): State {
    var p := t - 1;
    var e := if p in s.table then s.table[p] else Dummy(p, t, []);
    s.(table := s.table[p := e.(nextTag := t)])
  }

  lemma LinkedEntryOk(sent: seq<Message>, got: set<Block>, s: State, t: int)
    requires InvExcept(sent, got, s, t) && Complete(sent, got, t) && |s.delivered| < t
    ensures EntryOk(sent, got, t - 1, LinkBack(s, t).table[t - 1], NO_TAG)
  {
    var p := t - 1;
    assert p in s.table <==> Present(sent, got, p, t);
    if p in s.table {
      assert EntryOk(sent, got, p, s.table[p], t);
    } else {
      UntouchedHasNoData(sent, got, p);
    }
  }

  lemma LinkKeepsInv(sent: seq<Message>, got: set<Block>, s: State, t: int)
    requires InvExcept(sent, got, s, t) && Complete(sent, got, t) && |s.delivered| < t
    ensures Inv(sent, got, LinkBack(s, t))
  {
    var r := LinkBack(s, t);
    LinkedEntryOk(sent, got, s, t);
    forall u | u >= |s.delivered|
      ensures u in r.table <==> Present(sent, got, u, NO_TAG)
      ensures u in r.table ==> EntryOk(sent, got, u, r.table[u], NO_TAG)
    {
      assert u in s.table <==> Present(sent, got, u, t);
      if u != t - 1 && u in s.table {
        assert EntryOk(sent, got, u, s.table[u], t);
      }
    }
  }

  lemma FinishLinks(s: State, t: int)
    requires WellFormed(s) && t in s.table && s.table[t].valid && s.table[t].prevTag == t - 1 != NO_TAG
    requires t - 1 in s.table ==> !s.table[t - 1].sent
    ensures Finish(s, t) == LinkBack(s, t)
  {
  }

  lemma FinishReleases(s: State, t: int)
    requires WellFormed(s) && t in s.table && s.table[t].valid && s.table[t].prevTag == t - 1
    requires t - 1 != NO_TAG ==> t - 1 in s.table && s.table[t - 1].sent
    ensures var s1 := s.(table := s.table - {t - 1}); WellFormed(s1) && Finish(s, t) == Release(s1, t)
  {
    if t - 1 == NO_TAG {
      assert s.table - {NO_TAG} == s.table;
    }
  }

  /** Without its predecessor's entry the first undelivered buffer, once complete, can be released. */
  lemma ReadyToRelease(sent: seq<Message>, got: set<Block>, s: State, t: int)
    requires InvExcept(sent, got, s, t) && WellFormed(s) && Complete(sent, got, t) && |s.delivered| == t
    ensures ChainReady(sent, got, s.(table := s.table - {t - 1}), t)
  {
    PendingBelow(sent, got, s, s.(table := s.table - {t - 1}), t);
  }

  lemma FinishFirst(sent: seq<Message>, got: set<Block>, s: State, t: int)
    requires InvExcept(sent, got, s, t) && WellFormed(s) && Complete(sent, got, t) && |s.delivered| == t
    requires t in s.table && s.table[t].valid && s.table[t].prevTag == t - 1
    ensures Inv(sent, got, Finish(s, t))
  {
    FinishReleases(s, t);
    ReadyToRelease(sent, got, s, t);
    InvAfterRelease(sent, got, s.(table := s.table - {t - 1}), t);
  }

  lemma FinishLater(sent: seq<Message>, got: set<Block>, s: State, t: int)
    requires InvExcept(sent, got, s, t) && WellFormed(s) && Complete(sent, got, t) && |s.delivered| < t
    requires t in s.table && s.table[t].valid && s.table[t].prevTag == t - 1
    ensures Inv(sent, got, Finish(s, t))
  {
    LinkKeepsInv(sent, got, s, t);
    assert t - 1 in s.table ==> EntryOk(sent, got, t - 1, s.table[t - 1], t);
    FinishLinks(s, t);
  }

  /** handle_finished_buffer_prev restores the invariant, whichever way it goes. */
  lemma FinishKeepsInv(sent: seq<Message>, got: set<Block>, s: State, t: int)
    requires InvExcept(sent, got, s, t) && Complete(sent, got, t) && |s.delivered| <= t
    ensures WellFormed(s) && t in s.table && s.table[t].valid
    ensures Inv(sent, got, Finish(s, t))
  {
    InvIsWellFormed(sent, got, s, t);
    assert Present(sent, got, t, t);
    assert EntryOk(sent, got, t, s.table[t], t);
    if t == |s.delivered| {
      FinishFirst(sent, got, s, t);
    } else {
      FinishLater(sent, got, s, t);
    }
  }

  /** Two sets of handled blocks that differ at most in blocks of buffer t. */
  ghost predicate SameOutside(got: set<Block>, g: set<Block>, t: int) {
    forall b: Block :: b.tag != t ==> (b in got <==> b in g)
  }

  lemma OthersUnchanged(sent: seq<Message>, got: set<Block>, g: set<Block>, t: int, u: int)
    requires Plan(sent) && SameOutside(got, g, t) && u != t
    ensures Complete(sent, g, u) == Complete(sent, got, u)
    ensures Touched(sent, g, u) == Touched(sent, got, u)
    ensures IsTag(sent, u) ==> (InitOf(sent, u) in g <==> InitOf(sent, u) in got)
    ensures forall i :: IsChunk(sent, u, i) ==> (DataOf(sent, u, i) in g <==> DataOf(sent, u, i) in got)
  {
  }

  lemma OtherEntry(sent: seq<Message>, got: set<Block>, g: set<Block>, t: int, u: int, e: Entry)
    requires IsTag(sent, u) && u != t && EntryOk(sent, got, u, e, NO_TAG)
    requires SameOutside(got, g, t) && !Complete(sent, got, t)
    ensures EntryOk(sent, g, u, e, t)
  {
    OthersUnchanged(sent, got, g, t, u);
    if u + 1 != t {
      OthersUnchanged(sent, got, g, t, u + 1);
    }
    if e.valid {
      ReceivedSame(sent, got, g, u, sent[u].Chunks());
    }
  }

  lemma OtherPresent(sent: seq<Message>, got: set<Block>, g: set<Block>, t: int, u: int)
    requires Plan(sent) && u != t && SameOutside(got, g, t) && !Complete(sent, got, t)
    ensures Present(sent, g, u, t) == Present(sent, got, u, NO_TAG)
  {
    OthersUnchanged(sent, got, g, t, u);
    if u + 1 != t {
      OthersUnchanged(sent, got, g, t, u + 1);
    }
  }

  lemma UpdateKeepsUpper(sent: seq<Message>, got: set<Block>, g: set<Block>, s: State, t: int, e: Entry, low: int)
    requires Plan(sent) && UpperOk(sent, got, s, low, NO_TAG) && low <= t
    requires SameOutside(got, g, t) && !Complete(sent, got, t) && Touched(sent, g, t)
    requires IsTag(sent, t) && EntryOk(sent, g, t, e, t)
    ensures UpperOk(sent, g, s.(table := s.table[t := e]), low, t)
  {
    var r := s.(table := s.table[t := e]);
    forall u | u >= low
      ensures u in r.table <==> Present(sent, g, u, t)
      ensures u in r.table ==> EntryOk(sent, g, u, r.table[u], t)
    {
      if u != t {
        OtherPresent(sent, got, g, t, u);
        if u in s.table {
          OtherEntry(sent, got, g, t, u, s.table[u]);
        }
      }
    }
  }

  /** Replacing the entry of buffer t by one that accounts for the blocks in g keeps the invariant. */
  lemma UpdateKeepsInv(sent: seq<Message>, got: set<Block>, g: set<Block>, s: State, t: int, e: Entry)
    requires Inv(sent, got, s) && GotOk(sent, g) && SameOutside(got, g, t) && !Complete(sent, got, t)
    requires |s.delivered| <= t && Touched(sent, g, t)
    requires EntryOk(sent, g, t, e, t)
    ensures InvExcept(sent, g, s.(table := s.table[t := e]), t)
  {
    var r := s.(table := s.table[t := e]);
    forall u | 0 <= u < |s.delivered|
      ensures Complete(sent, g, u)
    {
      OthersUnchanged(sent, got, g, t, u);
    }
    if |s.delivered| != t {
      OthersUnchanged(sent, got, g, t, |s.delivered|);
    }
    UpdateKeepsUpper(sent, got, g, s, t, e, |s.delivered|);
  }

  lemma NothingPending(sent: seq<Message>, got: set<Block>, s: State, t: int)
    requires InvExcept(sent, got, s, t) && !Complete(sent, got, t)
    ensures Inv(sent, got, s)
  {
    forall u | u >= |s.delivered|
      ensures u in s.table <==> Present(sent, got, u, NO_TAG)
      ensures u in s.table ==> EntryOk(sent, got, u, s.table[u], NO_TAG)
    {
      assert u in s.table <==> Present(sent, got, u, t);
    }
  }

  lemma Undelivered(sent: seq<Message>, got: set<Block>, s: State, t: int, i: int)
    requires Inv(sent, got, s) && IsChunk(sent, t, i) && DataOf(sent, t, i) !in got
    ensures |s.delivered| <= t && !Complete(sent, got, t)
  {
    assert t < |s.delivered| ==> Complete(sent, got, t);
  }

  /** A data block with no entry to go to is parked in a new dummy. */
  lemma ParksInDummy(sent: seq<Message>, got: set<Block>, s: State, t: int, i: int)
    requires Inv(sent, got, s) && IsChunk(sent, t, i) && DataOf(sent, t, i) !in got
    requires t !in s.table
    ensures var b := DataOf(sent, t, i);
            EntryOk(sent, got + {b}, t, Dummy(t, NO_TAG, [b]), t)
  {
    Undelivered(sent, got, s, t, i);
    assert !Present(sent, got, t, NO_TAG);
    UntouchedHasNoData(sent, got, t);
    OthersUnchanged(sent, got, got + {DataOf(sent, t, i)}, t, t + 1);
  }

  /** A data block that finds a dummy joins its queue. */
  lemma ParksInQueue(sent: seq<Message>, got: set<Block>, t: int, i: int, e: Entry)
    requires IsChunk(sent, t, i) && DataOf(sent, t, i) !in got
    requires EntryOk(sent, got, t, e, NO_TAG) && !e.valid
    ensures var b := DataOf(sent, t, i);
            EntryOk(sent, got + {b}, t, e.(waiting := e.waiting + [b]), t)
  {
    OthersUnchanged(sent, got, got + {DataOf(sent, t, i)}, t, t + 1);
  }

  lemma WriteKeepsOthers(m: Message, buffer: seq<byte>, i: int, j: int)
    requires m.WellCut() && 0 <= i < m.Chunks() && 0 <= j < m.Chunks() && |buffer| == |m.bytes|
    ensures m.cuts[i] + |m.Payload(i)| <= |buffer|
    ensures var r := Overwrite(buffer, m.cuts[i], m.Payload(i));
            Written(m, r, i) && (j != i && Written(m, buffer, j) ==> Written(m, r, j))
  {
    assert m.cuts[i + 1] <= m.cuts[|m.cuts| - 1];
    if j < i {
      assert m.cuts[j + 1] <= m.cuts[i];
    } else if i < j {
      assert m.cuts[i + 1] <= m.cuts[j];
    }
  }

  /** The count never wraps around, and reaches the buffer size with the last data block. */
  lemma CountGrows(sent: seq<Message>, got: set<Block>, t: int, i: int)
    requires IsChunk(sent, t, i) && DataOf(sent, t, i) !in got && InitOf(sent, t) in got
    ensures var b := DataOf(sent, t, i);
            var n := sent[t].Chunks();
            && AddU32(Received(sent, got, t, n), |b.payload|) == Received(sent, got + {b}, t, n)
            && (Received(sent, got + {b}, t, n) == |sent[t].bytes| <==> Complete(sent, got + {b}, t))
  {
    var b := DataOf(sent, t, i);
    var n := sent[t].Chunks();
    ReceivedAdds(sent, got, t, i, n);
    ReceivedAll(sent, got + {b}, t, n);
    assert IsChunk(sent, t, 0);
    assert forall j :: IsChunk(sent, t, j) <==> 0 <= j < n;
  }

  /** A data block that finds its buffer valid is copied to its place and counted. */
  lemma FillsBuffer(sent: seq<Message>, got: set<Block>, t: int, i: int, e: Entry)
    requires IsChunk(sent, t, i) && DataOf(sent, t, i) !in got
    requires EntryOk(sent, got, t, e, NO_TAG) && e.valid
    ensures sent[t].cuts[i] + |sent[t].Payload(i)| <= |e.buffer|
    ensures var b := DataOf(sent, t, i);
            var e1 := Filled(e, b);
            && (e1.nWritten == e.bufferSize <==> Complete(sent, got + {b}, t))
            && EntryOk(sent, got + {b}, t, e1.(completed := e1.nWritten == e.bufferSize), t)
  {
    var b := DataOf(sent, t, i);
    WriteKeepsOthers(sent[t], e.buffer, i, i);
    CountGrows(sent, got, t, i);
    OthersUnchanged(sent, got, got + {b}, t, t + 1);
    var e1 := Filled(e, b);
    forall j | IsChunk(sent, t, j) && DataOf(sent, t, j) in got + {b}
      ensures Written(sent[t], e1.buffer, j)
    {
      WriteKeepsOthers(sent[t], e.buffer, i, j);
    }
  }

  /** Every data block of the plan, handled for the first time, keeps the invariant. */
  lemma DataKeepsInv(sent: seq<Message>, got: set<Block>, s: State, t: int, i: int)
    requires Inv(sent, got, s) && IsChunk(sent, t, i) && DataOf(sent, t, i) !in got
    ensures var b := DataOf(sent, t, i);
            WellFormed(s) && Fits(s, b) && Inv(sent, got + {b}, HandleData(s, b))
  {
    var b := DataOf(sent, t, i);
    Undelivered(sent, got, s, t, i);
    InvIsWellFormed(sent, got, s, NO_TAG);
    if t !in s.table {
      ParksInDummy(sent, got, s, t, i);
      UpdateKeepsInv(sent, got, got + {b}, s, t, Dummy(t, NO_TAG, [b]));
      NothingPending(sent, got + {b}, HandleData(s, b), t);
    } else if !s.table[t].valid {
      var e := s.table[t];
      assert EntryOk(sent, got, t, e, NO_TAG);
      ParksInQueue(sent, got, t, i, e);
      UpdateKeepsInv(sent, got, got + {b}, s, t, e.(waiting := e.waiting + [b]));
      NothingPending(sent, got + {b}, HandleData(s, b), t);
    } else {
      FillKeepsInv(sent, got, s, t, i);
    }
  }

  lemma FillKeepsInv(sent: seq<Message>, got: set<Block>, s: State, t: int, i: int)
    requires Inv(sent, got, s) && IsChunk(sent, t, i) && DataOf(sent, t, i) !in got
    requires WellFormed(s) && t in s.table && s.table[t].valid && |s.delivered| <= t && !Complete(sent, got, t)
    ensures var b := DataOf(sent, t, i);
            Fits(s, b) && Inv(sent, got + {b}, HandleData(s, b))
  {
    var b := DataOf(sent, t, i);
    var e := s.table[t];
    assert EntryOk(sent, got, t, e, NO_TAG);
    FillsBuffer(sent, got, t, i, e);
    var e1 := Filled(e, b);
    var e2 := e1.(completed := e1.nWritten == e.bufferSize);
    var s2 := s.(table := s.table[t := e2]);
    UpdateKeepsInv(sent, got, got + {b}, s, t, e2);
    if Complete(sent, got + {b}, t) {
      FinishKeepsInv(sent, got + {b}, s2, t);
    } else {
      NothingPending(sent, got + {b}, s2, t);
    }
  }

  ghost function Elements(queue: seq<Block>): set<Block> {
    set b | b in queue
  }

  /** The waiting queue of buffer t, none of whose blocks counts as handled yet. */
  ghost predicate Drainable(sent: seq<Message>, got: set<Block>, s: State, t: int, queue: seq<Block>) {
    && (forall b :: b in queue ==> exists i :: IsChunk(sent, t, i) && b == DataOf(sent, t, i))
    && (forall b :: b in queue ==> b !in got && Fits(s, b) && b.tag != NO_TAG)
    && forall i, j :: 0 <= i < j < |queue| ==> queue[i] != queue[j]
  }

  lemma DrainableStep(sent: seq<Message>, got: set<Block>, s: State, s1: State, t: int, queue: seq<Block>)
    requires Drainable(sent, got, s, t, queue) && queue != [] && KeepsSizes(s, s1)
    ensures Drainable(sent, got + {queue[0]}, s1, t, queue[1..])
    ensures Elements(queue) == {queue[0]} + Elements(queue[1..])
  {
    RestStillFits(s, s1, queue);
    forall b | b in queue[1..]
      ensures b !in got + {queue[0]} && exists i :: IsChunk(sent, t, i) && b == DataOf(sent, t, i)
    {
      assert b in queue;
    }
  }

  /** The first turn of the drain loop. */
  lemma DrainHead(sent: seq<Message>, got: set<Block>, s: State, t: int, queue: seq<Block>) returns (s1: State)
    requires Inv(sent, got, s) && WellFormed(s) && Drainable(sent, got, s, t, queue) && queue != []
    ensures Inv(sent, got + {queue[0]}, s1) && WellFormed(s1)
    ensures Drainable(sent, got + {queue[0]}, s1, t, queue[1..])
    ensures Elements(queue) == {queue[0]} + Elements(queue[1..])
    ensures Drain(s, queue) == Drain(s1, queue[1..])
  {
    assert queue[0] in queue;
    var i :| IsChunk(sent, t, i) && queue[0] == DataOf(sent, t, i);
    DataKeepsInv(sent, got, s, t, i);
    s1 := HandleData(s, queue[0]);
    DrainableStep(sent, got, s, s1, t, queue);
  }

  /** The recursive drain of a waiting queue accounts for every block in it. */
  lemma {:induction false} DrainKeepsInv(sent: seq<Message>, got: set<Block>, s: State, t: int, queue: seq<Block>)
    requires Inv(sent, got, s) && WellFormed(s) && Drainable(sent, got, s, t, queue)
    ensures Inv(sent, got + Elements(queue), Drain(s, queue))
    decreases |queue|
  {
    if queue == [] {
      assert got + Elements(queue) == got;
    } else {
      var s1 := DrainHead(sent, got, s, t, queue);
      DrainKeepsInv(sent, got + {queue[0]}, s1, t, queue[1..]);
      assert got + Elements(queue) == got + {queue[0]} + Elements(queue[1..]);
    }
  }

  /** The blocks that count as handled once the init block has claimed the dummy but drained nothing. */
  ghost function BeforeDrain(got: set<Block>, s: State, b: Block): set<Block> {
    got - Elements(Waiting(s, b.tag)) + {b}
  }

  /** What waits for an init block is exactly what was handled of its buffer, each block once. */
  lemma WaitingIsData(sent: seq<Message>, got: set<Block>, s: State, t: int)
    requires Inv(sent, got, s) && IsTag(sent, t) && InitOf(sent, t) !in got
    ensures |s.delivered| <= t && !Complete(sent, got, t)
    ensures t in s.table ==> EntryOk(sent, got, t, s.table[t], NO_TAG)
    ensures var queue := Waiting(s, t);
            && (forall b :: b in queue <==> b in got && b.DataBlock? && b.tag == t)
            && (forall b :: b in queue ==> exists i :: IsChunk(sent, t, i) && b == DataOf(sent, t, i))
            && (forall i, j :: 0 <= i < j < |queue| ==> queue[i] != queue[j])
  {
    assert t < |s.delivered| ==> Complete(sent, got, t);
    if t !in s.table {
      assert !Present(sent, got, t, NO_TAG);
      UntouchedHasNoData(sent, got, t);
    }
    forall b | b in Waiting(s, t)
      ensures exists i :: IsChunk(sent, t, i) && b == DataOf(sent, t, i)
    {
      assert Belongs(sent, b);
    }
  }

  lemma ChunkFits(sent: seq<Message>, t: int, i: int)
    requires IsChunk(sent, t, i)
    ensures var b := DataOf(sent, t, i); b.seqNumber + |b.payload| <= |sent[t].bytes|
  {
    assert sent[t].cuts[i + 1] <= sent[t].cuts[|sent[t].cuts| - 1];
  }

  lemma InitialisedOk(sent: seq<Message>, got: set<Block>, s: State, t: int, heap: seq<byte>)
    requires Inv(sent, got, s) && IsTag(sent, t) && InitOf(sent, t) !in got && |heap| == |sent[t].bytes|
    ensures var b := InitOf(sent, t);
            var g := BeforeDrain(got, s, b);
            EntryOk(sent, g, t, Initialised(s, b, heap), t) && !Complete(sent, g, t)
  {
    WaitingIsData(sent, got, s, t);
    var b := InitOf(sent, t);
    var g := BeforeDrain(got, s, b);
    assert t !in s.table ==> !Present(sent, got, t, NO_TAG);
    OthersUnchanged(sent, got, g, t, t + 1);
    ReceivedNone(sent, g, t, sent[t].Chunks());
    assert sent[t].bytes != [] ==> IsChunk(sent, t, 0);
  }

  lemma WaitingDrainable(sent: seq<Message>, got: set<Block>, s: State, t: int, heap: seq<byte>)
    requires Inv(sent, got, s) && IsTag(sent, t) && InitOf(sent, t) !in got && |heap| == |sent[t].bytes|
    ensures var b := InitOf(sent, t);
            var g := BeforeDrain(got, s, b);
            && Admissible(s, b)
            && Drainable(sent, g, s.(table := s.table[t := Initialised(s, b, heap)]), t, Waiting(s, t))
            && g + Elements(Waiting(s, t)) == got + {b}
  {
    WaitingIsData(sent, got, s, t);
    forall w | w in Waiting(s, t)
      ensures w.DataBlock? && w.seqNumber + |w.payload| <= |sent[t].bytes|
    {
      var i :| IsChunk(sent, t, i) && w == DataOf(sent, t, i);
      ChunkFits(sent, t, i);
    }
  }

  lemma InitialisedKeepsInv(sent: seq<Message>, got: set<Block>, s: State, t: int, heap: seq<byte>)
    requires Inv(sent, got, s) && IsTag(sent, t) && InitOf(sent, t) !in got && |heap| == |sent[t].bytes|
    ensures var b := InitOf(sent, t);
            var s0 := s.(table := s.table[t := Initialised(s, b, heap)]);
            Inv(sent, BeforeDrain(got, s, b), s0) && WellFormed(s0)
  {
    var b := InitOf(sent, t);
    var g := BeforeDrain(got, s, b);
    var s0 := s.(table := s.table[t := Initialised(s, b, heap)]);
    WaitingIsData(sent, got, s, t);
    InitialisedOk(sent, got, s, t, heap);
    UpdateKeepsInv(sent, got, g, s, t, Initialised(s, b, heap));
    NothingPending(sent, g, s0, t);
    InvIsWellFormed(sent, g, s0, NO_TAG);
  }

  /** Every init block of the plan, handled for the first time, keeps the invariant. */
  lemma InitKeepsInv(sent: seq<Message>, got: set<Block>, s: State, t: int, heap: seq<byte>)
    requires Inv(sent, got, s) && IsTag(sent, t) && InitOf(sent, t) !in got && |heap| == |sent[t].bytes|
    ensures var b := InitOf(sent, t);
            WellFormed(s) && Admissible(s, b) && HandleBlock(s, b, heap).Running? &&
            Inv(sent, got + {b}, HandleBlock(s, b, heap).state)
  {
    var b := InitOf(sent, t);
    InvIsWellFormed(sent, got, s, NO_TAG);
    assert !(t in s.table && s.table[t].valid) by {
      WaitingIsData(sent, got, s, t);
    }
    WaitingDrainable(sent, got, s, t, heap);
    InitialisedKeepsInv(sent, got, s, t, heap);
    var s0 := s.(table := s.table[t := Initialised(s, b, heap)]);
    DrainKeepsInv(sent, BeforeDrain(got, s, b), s0, t, Waiting(s, t));
  }
}
