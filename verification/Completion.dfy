/**
 The one fine-grained part of handle_block: while one buffer is being filled, any number of threads copy
 their blocks byte by byte, add to n_written under the buffer's mutex, and compare what they read with
 the buffer size.  Exactly one of them may go on to finish the buffer.
 */
module Completion {
  import opened Standards
  import opened Messages

  /** Where the handling of one data block stands; `seen` is the local copy of n_written. */
  datatype Pc =
    | Copying(copied: nat)
    | WantsLock
    | Adding
    | Reading
    | Unlocking(seen: nat)
    | Testing(seen: nat)
    | Done(seen: nat)
  {
    predicate HasAdded() {
      Reading? || Unlocking? || Testing? || Done?
    }

    predicate HasSeen() {
      Unlocking? || Testing? || Done?
    }

    predicate HoldsLock() {
      Adding? || Reading? || Unlocking?
    }
  }

  /** Thread i handles data block i of the buffer's message. */
  datatype State = State(buffer: seq<byte>, nWritten: nat, lock: int, pcs: seq<Pc>)

  const FREE: int := -1

  ghost predicate Init(m: Message, s: State)
    requires m.WellCut()
  {
    && |s.buffer| == |m.bytes| && s.nWritten == 0 && s.lock == FREE && |s.pcs| == m.Chunks()
    && forall i :: 0 <= i < |s.pcs| ==> s.pcs[i] == Copying(0)
  }

  ghost function Size(m: Message, i: int): nat
    requires m.WellCut() && 0 <= i < m.Chunks()
  {
    |m.Payload(i)|
  }

  ghost predicate Sized(m: Message, s: State)
    requires m.WellCut()
  {
    |s.buffer| == |m.bytes| && |s.pcs| == m.Chunks()
  }

  ghost predicate CanStep(s: State, i: nat)
    requires i < |s.pcs|
  {
    !s.pcs[i].Done? && (s.pcs[i].WantsLock? ==> s.lock == FREE)
  }

  /** One atomic step of thread i: a byte of memcpy, a lock operation, or an access to n_written. */
  ghost function Next(m: Message, s: State, i: nat): State
    requires m.WellCut() && Sized(m, s) && i < m.Chunks() && CanStep(s, i)
  {
    match s.pcs[i]
    case Copying(k) =>
      if k < Size(m, i) then
        assert m.cuts[i + 1] <= m.cuts[m.Chunks()];
        s.(buffer := s.buffer[m.cuts[i] + k := m.Payload(i)[k]], pcs := s.pcs[i := Copying(k + 1)])
      else
        s.(pcs := s.pcs[i := WantsLock])
    case WantsLock => s.(lock := i, pcs := s.pcs[i := Adding])
    case Adding => s.(nWritten := AddU32(s.nWritten, Size(m, i)), pcs := s.pcs[i := Reading])
    case Reading => s.(pcs := s.pcs[i := Unlocking(s.nWritten)])
    case Unlocking(seen) => s.(lock := FREE, pcs := s.pcs[i := Testing(seen)])
    case Testing(seen) => s.(pcs := s.pcs[i := Done(seen)])
  }

  ghost predicate Step(m: Message, s: State, r: State, i: nat)
    requires m.WellCut()
  {
    Sized(m, s) && i < m.Chunks() && CanStep(s, i) && r == Next(m, s, i)
  }

  /** The bytes added by the first k threads that have done so. */
  ghost function Added(m: Message, pcs: seq<Pc>, k: nat): nat
    requires m.WellCut() && k <= m.Chunks() == |pcs|
  {
    if k == 0 then 0 else Added(m, pcs, k - 1) + if pcs[k - 1].HasAdded() then Size(m, k - 1) else 0
  }

  lemma {:induction false} AddedAll(m: Message, pcs: seq<Pc>, k: nat)
    requires m.WellCut() && k <= m.Chunks() == |pcs|
    ensures Added(m, pcs, k) <= m.cuts[k]
    ensures Added(m, pcs, k) == m.cuts[k] <==> forall i :: 0 <= i < k ==> pcs[i].HasAdded()
  {
    if k > 0 {
      AddedAll(m, pcs, k - 1);
    }
  }

  lemma {:induction false} AddedUpdate(m: Message, pcs: seq<Pc>, i: nat, pc: Pc, k: nat)
    requires m.WellCut() && i < m.Chunks() == |pcs| && k <= m.Chunks()
    requires pcs[i].HasAdded() ==> pc.HasAdded()
    ensures Added(m, pcs[i := pc], k) ==
            Added(m, pcs, k) + if i < k && pc.HasAdded() && !pcs[i].HasAdded() then Size(m, i) else 0
  {
    if k > 0 {
      AddedUpdate(m, pcs, i, pc, k - 1);
    }
  }

  ghost function CopiedBytes(m: Message, pcs: seq<Pc>, i: nat): nat
    requires m.WellCut() && i < m.Chunks() == |pcs|
  {
    if pcs[i].Copying? then pcs[i].copied else Size(m, i)
  }

  /** The bytes that thread i claims to have copied are in place. */
  ghost predicate CopiedOk(m: Message, s: State, i: nat)
    requires m.WellCut() && |s.buffer| == |m.bytes| && i < m.Chunks() == |s.pcs|
  {
    && CopiedBytes(m, s.pcs, i) <= Size(m, i)
    && forall x :: m.cuts[i] <= x < m.cuts[i] + CopiedBytes(m, s.pcs, i) ==>
         0 <= x < |s.buffer| && s.buffer[x] == m.bytes[x]
  }

  ghost predicate AllCopiedOk(m: Message, s: State)
    requires m.WellCut()
  {
    && |s.buffer| == |m.bytes| && |s.pcs| == m.Chunks()
    && forall i :: 0 <= i < m.Chunks() ==> CopiedOk(m, s, i)
  }

  ghost predicate LockOk(s: State) {
    && FREE <= s.lock < |s.pcs|
    && forall i :: 0 <= i < |s.pcs| ==> (s.pcs[i].HoldsLock() <==> s.lock == i)
  }

  /** What thread j has seen is a count that no later count repeats. */
  ghost predicate SeenBelow(m: Message, s: State, last: nat, j: nat)
    requires m.WellCut() && j < |s.pcs| == m.Chunks()
  {
    && (s.pcs[j].HasSeen() ==> 0 < s.pcs[j].seen <= s.nWritten)
    && (s.pcs[j].HasSeen() && j != last ==> s.pcs[j].seen < s.nWritten)
    && (s.pcs[j].Reading? ==> j == last && s.nWritten > 0)
  }

  /** `last` is the thread that has most recently added its size, if any has. */
  ghost predicate SeenOk(m: Message, s: State, last: nat)
    requires m.WellCut()
  {
    && |s.pcs| == m.Chunks()
    && (forall j :: 0 <= j < |s.pcs| ==> SeenBelow(m, s, last, j))
    && (s.nWritten > 0 ==>
          last < |s.pcs| && (s.pcs[last].Reading? || (s.pcs[last].HasSeen() && s.pcs[last].seen == s.nWritten)))
  }

  ghost predicate CountOk(m: Message, s: State)
    requires m.WellCut()
  {
    |s.pcs| == m.Chunks() && s.nWritten == Added(m, s.pcs, m.Chunks())
  }

  ghost predicate Inv(m: Message, s: State, last: nat)
    requires m.WellCut()
  {
    LockOk(s) && CountOk(m, s) && AllCopiedOk(m, s) && SeenOk(m, s, last)
  }

  lemma {:induction false} NothingAdded(m: Message, pcs: seq<Pc>, k: nat)
    requires m.WellCut() && k <= m.Chunks() == |pcs|
    requires forall i :: 0 <= i < |pcs| ==> !pcs[i].HasAdded()
    ensures Added(m, pcs, k) == 0
  {
    if k > 0 {
      NothingAdded(m, pcs, k - 1);
    }
  }

  lemma InitInv(m: Message, s: State)
    requires m.WellCut() && Init(m, s)
    ensures Inv(m, s, 0)
  {
    NothingAdded(m, s.pcs, m.Chunks());
  }

  lemma StepKeepsLock(m: Message, s: State, r: State, i: nat, last: nat)
    requires m.WellCut() && Inv(m, s, last) && Step(m, s, r, i)
    ensures LockOk(r)
  {
  }

  lemma StepKeepsCopied(m: Message, s: State, r: State, i: nat, last: nat)
    requires m.WellCut() && Inv(m, s, last) && Step(m, s, r, i)
    ensures AllCopiedOk(m, r)
  {
    assert CopiedOk(m, s, i);
    forall j | 0 <= j < m.Chunks()
      ensures CopiedOk(m, r, j)
    {
      assert CopiedOk(m, s, j);
      if j < i {
        assert m.cuts[j + 1] <= m.cuts[i];
      } else if i < j {
        assert m.cuts[i + 1] <= m.cuts[j];
      }
    }
  }

  lemma MoveKeepsCount(m: Message, s: State, r: State, i: nat, pc: Pc)
    requires m.WellCut() && CountOk(m, s) && i < m.Chunks() && r.pcs == s.pcs[i := pc]
    requires s.pcs[i].HasAdded() ==> pc.HasAdded()
    requires r.nWritten == if pc.HasAdded() && !s.pcs[i].HasAdded() then AddU32(s.nWritten, Size(m, i)) else s.nWritten
    ensures CountOk(m, r)
    ensures pc.HasAdded() && !s.pcs[i].HasAdded() ==> r.nWritten == s.nWritten + Size(m, i)
  {
    AddedUpdate(m, s.pcs, i, pc, m.Chunks());
    AddedAll(m, r.pcs, m.Chunks());
  }

  lemma StepKeepsCount(m: Message, s: State, r: State, i: nat, last: nat)
    requires m.WellCut() && Inv(m, s, last) && Step(m, s, r, i)
    ensures CountOk(m, r)
    ensures s.pcs[i].Adding? ==> r.nWritten == s.nWritten + Size(m, i)
  {
    MoveKeepsCount(m, s, r, i, r.pcs[i]);
  }

  /** The thread that added last after thread i has moved. */
  ghost function LastAfter(s: State, i: nat, last: nat): nat
    requires i < |s.pcs|
  {
    if s.pcs[i].Adding? then i else last
  }

  lemma StepKeepsSeen(m: Message, s: State, r: State, i: nat, last: nat)
    requires m.WellCut() && Inv(m, s, last) && Step(m, s, r, i)
    ensures SeenOk(m, r, LastAfter(s, i, last))
  {
    StepKeepsCount(m, s, r, i, last);
    forall j | 0 <= j < m.Chunks()
      ensures SeenBelow(m, r, LastAfter(s, i, last), j)
    {
      assert SeenBelow(m, s, last, j) && SeenBelow(m, s, last, i);
      assert s.pcs[j].HoldsLock() && s.pcs[i].HoldsLock() ==> i == j;
    }
  }

  lemma StepKeepsInv(m: Message, s: State, r: State, i: nat, last: nat)
    requires m.WellCut() && Inv(m, s, last) && Step(m, s, r, i)
    ensures Inv(m, r, LastAfter(s, i, last))
  {
    StepKeepsLock(m, s, r, i, last);
    StepKeepsCount(m, s, r, i, last);
    StepKeepsCopied(m, s, r, i, last);
    StepKeepsSeen(m, s, r, i, last);
  }

  /** Any interleaving: `who` names the thread that takes each step. */
  ghost predicate IsRun(m: Message, run: seq<State>, who: seq<nat>)
    requires m.WellCut()
  {
    && |run| == |who| + 1
    && Init(m, run[0])
    && (forall k :: 0 <= k < |run| ==> |run[k].pcs| == m.Chunks())
    && (forall k :: 0 <= k < |who| ==> Step(m, run[k], run[k + 1], who[k]))
  }

  lemma {:induction false} RunKeepsInv(m: Message, run: seq<State>, who: seq<nat>, k: nat) returns (last: nat)
    requires m.WellCut() && IsRun(m, run, who) && k < |run|
    ensures Inv(m, run[k], last)
  {
    if k == 0 {
      InitInv(m, run[0]);
      last := 0;
    } else {
      var before := RunKeepsInv(m, run, who, k - 1);
      StepKeepsInv(m, run[k - 1], run[k], who[k - 1], before);
      last := LastAfter(run[k - 1], who[k - 1], before);
    }
  }

  /** Thread i finds that its block completed the buffer. */
  ghost predicate Finishes(m: Message, s: State, i: nat)
    requires i < |s.pcs|
  {
    s.pcs[i].HasSeen() && s.pcs[i].seen == |m.bytes|
  }

  /**
   In every state of every interleaving at most one thread has seen the full count, and if one has, all
   the bytes are in place: no thread is still copying when the buffer is declared complete.
   */
  lemma FinisherSeesWholeBuffer(m: Message, run: seq<State>, who: seq<nat>, k: nat, i: nat, j: nat)
    requires m.WellCut() && IsRun(m, run, who) && k < |run|
    requires i < m.Chunks() && j < m.Chunks()
    requires Finishes(m, run[k], i)
    ensures run[k].buffer == m.bytes
    ensures forall t :: 0 <= t < m.Chunks() ==> run[k].pcs[t].HasAdded()
    ensures Finishes(m, run[k], j) ==> i == j
  {
    var s := run[k];
    var last := RunKeepsInv(m, run, who, k);
    assert SeenBelow(m, s, last, i) && SeenBelow(m, s, last, j);
    AddedAll(m, s.pcs, m.Chunks());
    WholeBuffer(m, s);
  }

  lemma WholeBuffer(m: Message, s: State)
    requires m.WellCut() && AllCopiedOk(m, s)
    requires forall t :: 0 <= t < m.Chunks() ==> s.pcs[t].HasAdded()
    ensures s.buffer == m.bytes
  {
    forall x | 0 <= x < |m.bytes|
      ensures s.buffer[x] == m.bytes[x]
    {
      var t := ChunkHolding(m, x, m.Chunks());
      assert CopiedOk(m, s, t);
    }
  }

  /** Once every thread is done with a buffer that has any byte at all, exactly one of them saw it complete. */
  lemma SomeoneFinishes(m: Message, run: seq<State>, who: seq<nat>, k: nat) returns (i: nat)
    requires m.WellCut() && IsRun(m, run, who) && k < |run| && |m.bytes| > 0
    requires forall t :: 0 <= t < m.Chunks() ==> run[k].pcs[t].Done?
    ensures i < m.Chunks() && Finishes(m, run[k], i)
    ensures forall j :: 0 <= j < m.Chunks() && Finishes(m, run[k], j) ==> i == j
  {
    i := RunKeepsInv(m, run, who, k);
    AddedAll(m, run[k].pcs, m.Chunks());
    forall j | 0 <= j < m.Chunks() && Finishes(m, run[k], j)
      ensures i == j
    {
      assert SeenBelow(m, run[k], i, j);
    }
  }

  /** The mutex never wedges: while a thread is not done, some thread can take a step. */
  lemma SomeoneCanStep(m: Message, run: seq<State>, who: seq<nat>, k: nat, i: nat) returns (t: nat)
    requires m.WellCut() && IsRun(m, run, who) && k < |run|
    requires i < m.Chunks() && !run[k].pcs[i].Done?
    ensures t < m.Chunks() && CanStep(run[k], t)
  {
    var s := run[k];
    var last := RunKeepsInv(m, run, who, k);
    t := if s.pcs[i].WantsLock? && s.lock != FREE then s.lock else i;
  }
}
