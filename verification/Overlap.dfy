/**
 What the locks allow: threads that are meant to overlap can do so, and a thread waits only where the code
 makes it wait.
 */
module Overlap {
  import Completion
  import Handoff
  import HT = HashTable
  import Messages
  import RW = ReadersWriters

  // ------------------------------------------------------------ the hash table's semaphores

  /** Thread i begins with a lookup. */
  ghost predicate LooksUp<V>(plan: seq<seq<HT.Op<V>>>, i: nat) {
    i < |plan| && plan[i] != [] && plan[i][0].LookupOp?
  }

  /** Of the first k threads all that begin with a lookup are in the middle of it, and nothing else has happened. */
  ghost predicate ReadersIn<V>(plan: seq<seq<HT.Op<V>>>, s: RW.State<V>, k: nat) {
    && s.todo == plan && |s.pcs| == |plan| && s.mutex == 1 && s.readcount >= 0
    && s.wrt == (if s.readcount > 0 then 0 else 1)
    && forall i :: 0 <= i < |plan| ==> s.pcs[i] == if i < k && LooksUp(plan, i) then RW.Reads else RW.Idle
  }

  lemma Grow<V>(plan: seq<seq<HT.Op<V>>>, run: seq<RW.State<V>>, who: seq<nat>, i: nat)
    returns (longer: seq<RW.State<V>>, more: seq<nat>)
    requires RW.IsRun(plan, run, who) && RW.Enabled(run[|who|], i)
    ensures RW.IsRun(plan, longer, more) && longer[|more|] == RW.Next(run[|who|], i)
  {
    longer, more := run + [RW.Next(run[|who|], i)], who + [i];
  }

  /** Thread i stands at `pc`, the others where they stood in `before`. */
  ghost predicate Moved<V>(before: RW.State<V>, s: RW.State<V>, i: nat, pc: RW.Pc<V>, mutex: nat, count: int,
                           wrt: nat) {
    i < |before.pcs| && s == before.(pcs := before.pcs[i := pc], mutex := mutex, readcount := count, wrt := wrt)
  }

  /** From waiting outside to counted in, under the mutex. */
  lemma CountIn<V>(plan: seq<seq<HT.Op<V>>>, run: seq<RW.State<V>>, who: seq<nat>, i: nat)
    returns (longer: seq<RW.State<V>>, more: seq<nat>)
    requires RW.IsRun(plan, run, who) && LooksUp(plan, i)
    requires var s := run[|who|]; |s.pcs| == |s.todo| == |plan| && s.todo == plan && s.pcs[i].Idle? && s.mutex == 1
    ensures RW.IsRun(plan, longer, more)
    ensures var s := run[|who|]; Moved(s, longer[|more|], i, RW.TestsFirst, 0, s.readcount + 1, s.wrt)
  {
    longer, more := Grow(plan, run, who, i);
    longer, more := Grow(plan, longer, more, i);
    longer, more := Grow(plan, longer, more, i);
  }

  /** From there to the traversal, with the mutex given back; the first reader takes the table. */
  lemma GoIn<V>(plan: seq<seq<HT.Op<V>>>, run: seq<RW.State<V>>, who: seq<nat>, i: nat)
    returns (longer: seq<RW.State<V>>, more: seq<nat>)
    requires RW.IsRun(plan, run, who)
    requires var s := run[|who|]; i < |s.pcs| == |s.todo| && s.pcs[i].TestsFirst? && s.mutex == 0
    requires var s := run[|who|]; s.readcount >= 1 && s.wrt == if s.readcount > 1 then 0 else 1
    ensures RW.IsRun(plan, longer, more)
    ensures var s := run[|who|]; Moved(s, longer[|more|], i, RW.Reads, 1, s.readcount, 0)
  {
    longer, more := Grow(plan, run, who, i);
    if run[|who|].readcount == 1 {
      longer, more := Grow(plan, longer, more, i);
    }
    longer, more := Grow(plan, longer, more, i);
  }

  lemma {:induction false} AllIn<V>(plan: seq<seq<HT.Op<V>>>, k: nat) returns (run: seq<RW.State<V>>, who: seq<nat>)
    requires k <= |plan|
    ensures RW.IsRun(plan, run, who) && ReadersIn(plan, run[|who|], k)
  {
    if k == 0 {
      run, who := [RW.State(plan, seq(|plan|, _ => RW.Idle), 1, 1, 0, map[], [])], [];
    } else {
      run, who := AllIn(plan, k - 1);
      if LooksUp(plan, k - 1) {
        run, who := CountIn(plan, run, who, k - 1);
        run, who := GoIn(plan, run, who, k - 1);
      }
    }
  }

  /** Lookups overlap: for any plan there is a run into a state in which all threads that begin with one are reading. */
  lemma AllLookupsOverlap<V>(plan: seq<seq<HT.Op<V>>>) returns (run: seq<RW.State<V>>, who: seq<nat>)
    ensures RW.IsRun(plan, run, who) && |run[|who|].pcs| == |plan|
    ensures forall i :: 0 <= i < |plan| && LooksUp(plan, i) ==> run[|who|].pcs[i].Reading()
  {
    run, who := AllIn(plan, |plan|);
  }

  /** A thread that cannot step has nothing left to do, or is at a semaphore whose value is 0. */
  lemma WaitsOnlyAtSemaphores<V>(plan: seq<seq<HT.Op<V>>>, run: seq<RW.State<V>>, who: seq<nat>, k: nat, i: nat)
    requires RW.IsRun(plan, run, who) && k < |run| && i < |plan|
    ensures |run[k].pcs| == |run[k].todo| == |plan|
    ensures var s := run[k];
            !RW.Enabled(s, i) <==>
              || (s.pcs[i].Idle? && s.todo[i] == [])
              || ((s.pcs[i].Enters? || s.pcs[i].Leaves?) && s.mutex == 0)
              || ((s.pcs[i].WaitsWrt? || s.pcs[i].Claims?) && s.wrt == 0)
  {
    var holder, owner := RW.RunKeepsInv(plan, run, who, k);
    assert RW.Suits(run[k].pcs[i], run[k].todo[i]);
  }

  // ------------------------------------------------------------ the queue of a connection

  lemma Extend<T>(plan: seq<seq<T>>, run: seq<Handoff.State<T>>, moves: seq<Handoff.Move>, move: Handoff.Move)
    returns (longer: seq<Handoff.State<T>>, more: seq<Handoff.Move>)
    requires Handoff.IsRun(plan, run, moves) && Handoff.Enabled(run[|moves|], move)
    ensures Handoff.IsRun(plan, longer, more) && longer[|more|] == Handoff.Next(run[|moves|], move)
  {
    longer, more := run + [Handoff.Next(run[|moves|], move)], moves + [move];
  }

  /** One call of write_block_to_queue from start to end. */
  lemma WriteOne<T>(plan: seq<seq<T>>, run: seq<Handoff.State<T>>, moves: seq<Handoff.Move>, i: nat)
    returns (longer: seq<Handoff.State<T>>, more: seq<Handoff.Move>)
    requires Handoff.IsRun(plan, run, moves)
    requires var s := run[|moves|];
             i < |s.producers| && s.producers[i].Outside? && s.producers[i].todo != [] && s.mutex == Handoff.FREE
             && !s.consumer.Asleep?
    ensures Handoff.IsRun(plan, longer, more)
    ensures var s := run[|moves|];
            var entry := Handoff.Entry(i, s.producers[i].todo[0]);
            longer[|more|] == s.(producers := s.producers[i := Handoff.Outside(s.producers[i].todo[1..])],
                                 queue := s.queue + [entry], enqueued := s.enqueued + [entry])
  {
    longer, more := Extend(plan, run, moves, Handoff.Produce(i));
    longer, more := Extend(plan, longer, more, Handoff.Produce(i));
    longer, more := Extend(plan, longer, more, Handoff.Produce(i));
    longer, more := Extend(plan, longer, more, Handoff.Produce(i));
  }

  /** The sender takes the oldest block and gives the mutex back before it sends. */
  lemma TakeOne<T>(plan: seq<seq<T>>, run: seq<Handoff.State<T>>, moves: seq<Handoff.Move>)
    returns (longer: seq<Handoff.State<T>>, more: seq<Handoff.Move>)
    requires Handoff.IsRun(plan, run, moves)
    requires var s := run[|moves|]; s.consumer.WantsLock? && s.mutex == Handoff.FREE && s.queue != []
    ensures Handoff.IsRun(plan, longer, more)
    ensures var s := run[|moves|];
            longer[|more|] == s.(consumer := Handoff.Sending([s.queue[0]]), queue := s.queue[1..])
  {
    longer, more := Extend(plan, run, moves, Handoff.Consume);
    longer, more := Extend(plan, longer, more, Handoff.Consume);
    longer, more := Extend(plan, longer, more, Handoff.Consume);
    longer, more := Extend(plan, longer, more, Handoff.Consume);
  }

  /** Sending keeps no one from writing: while a producer's first block is sent, it puts its second on the queue. */
  lemma WritesWhileSending<T>(plan: seq<seq<T>>, i: nat)
    returns (run: seq<Handoff.State<T>>, moves: seq<Handoff.Move>)
    requires i < |plan| && |plan[i]| >= 2
    ensures Handoff.IsRun(plan, run, moves)
    ensures var s := run[|moves|];
            && s.consumer == Handoff.Sending([Handoff.Entry(i, plan[i][0])])
            && s.queue == [Handoff.Entry(i, plan[i][1])]
  {
    var start := Handoff.State(seq(|plan|, j requires 0 <= j < |plan| => Handoff.Outside(plan[j])), Handoff.WantsLock,
                               Handoff.FREE, [], [], []);
    run, moves := [start], [];
    run, moves := WriteOne(plan, run, moves, i);
    run, moves := TakeOne(plan, run, moves);
    run, moves := WriteOne(plan, run, moves, i);
  }

  /** Some thread is between locking and unlocking the mutex. */
  ghost predicate MutexTaken<T>(s: Handoff.State<T>) {
    s.consumer.HoldsMutex() || exists j :: 0 <= j < |s.producers| && !s.producers[j].Outside?
  }

  /** A producer waits only for the mutex, the sender only for the mutex or for a signal. */
  lemma WaitsOnlyForMutex<T>(plan: seq<seq<T>>, run: seq<Handoff.State<T>>, moves: seq<Handoff.Move>, k: nat, i: nat)
    requires Handoff.IsRun(plan, run, moves) && k < |run| && i < |plan|
    ensures |run[k].producers| == |plan|
    ensures var s := run[k];
            && (!Handoff.Enabled(s, Handoff.Produce(i)) <==>
                  s.producers[i].Outside? && (s.producers[i].todo == [] || MutexTaken(s)))
            && (!Handoff.Enabled(s, Handoff.Consume) <==>
                  s.consumer.Asleep? || ((s.consumer.WantsLock? || s.consumer.Woken?) && MutexTaken(s)))
  {
    Handoff.RunKeepsInv(plan, run, moves, k);
    var s := run[k];
    assert s.mutex != Handoff.FREE <==> MutexTaken(s) by {
      if 0 <= s.mutex < |s.producers| {
        assert !s.producers[s.mutex].Outside?;
      }
    }
  }

  // ------------------------------------------------------------ the mutex of a buffer

  /** A thread that fills a buffer waits only for the mutex of the buffer, while another is inside. */
  lemma WaitsOnlyForCount(m: Messages.Message, run: seq<Completion.State>, who: seq<nat>, k: nat, i: nat)
    requires m.WellCut() && Completion.IsRun(m, run, who) && k < |run| && i < m.Chunks()
    ensures var s := run[k];
            !Completion.CanStep(s, i) <==>
              s.pcs[i].Done? ||
              (s.pcs[i].WantsLock? && exists j :: 0 <= j < |s.pcs| && j != i && s.pcs[j].HoldsLock())
  {
    var last := Completion.RunKeepsInv(m, run, who, k);
    var s := run[k];
    if s.lock != Completion.FREE {
      assert s.pcs[s.lock].HoldsLock();
    }
  }
}
