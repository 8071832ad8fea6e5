/**
 Handing blocks from any number of producers to the one thread that sends them on a connection:
 write_block_to_queue against listen_for_blocks, one lock, condition-variable or queue access at a time.
 */
module Handoff {

  /** A block together with the producer it came from. */
  datatype Entry<T> = Entry(from: nat, block: T)

  /** Where a producer stands in write_block_to_queue, and the blocks it has not enqueued yet. */
  datatype Producer<T> =
    | Outside(todo: seq<T>)
    | Locked(todo: seq<T>)
    | Enqueued(todo: seq<T>)
    | Signalled(todo: seq<T>)

  /** Where the sending thread stands in its loop; `got` is what dequeue returned. */
  datatype Consumer<T> =
    | WantsLock
    | Checking
    | GoingToWait
    | Asleep
    | Woken
    | Taking
    | Unlocking(got: seq<Entry<T>>)
    | Sending(got: seq<Entry<T>>)
  {
    predicate HoldsMutex() {
      Checking? || GoingToWait? || Taking? || Unlocking?
    }

    function InHand(): seq<Entry<T>> {
      if Unlocking? || Sending? then got else []
    }
  }

  const FREE: int := -1

  /** The mutex is held by producer `mutex`, or by the consumer when it equals the number of producers. */
  datatype State<T> = State(
    producers: seq<Producer<T>>,
    consumer: Consumer<T>,
    mutex: int,
    queue: seq<Entry<T>>,
    enqueued: seq<Entry<T>>,
    sent: seq<Entry<T>>)

  datatype Move = Produce(i: nat) | Consume | WakeSpuriously

  ghost predicate Init<T>(plan: seq<seq<T>>, s: State<T>) {
    && |s.producers| == |plan| && (forall i :: 0 <= i < |plan| ==> s.producers[i] == Outside(plan[i]))
    && s.consumer == WantsLock && s.mutex == FREE && s.queue == [] && s.enqueued == [] && s.sent == []
  }

  predicate Enabled<T>(s: State<T>, move: Move) {
    match move
    case Produce(i) =>
      && i < |s.producers|
      && (s.producers[i].Outside? ==> s.producers[i].todo != [] && s.mutex == FREE)
      && (s.producers[i].Locked? ==> s.producers[i].todo != [])
    case Consume =>
      && !s.consumer.Asleep?
      && (s.consumer.WantsLock? || s.consumer.Woken? ==> s.mutex == FREE)
    case WakeSpuriously =>
      s.consumer.Asleep?
  }

  function ProducerStep<T>(s: State<T>, i: nat): State<T>
    requires Enabled(s, Produce(i))
  {
    match s.producers[i]
    case Outside(todo) => s.(mutex := i, producers := s.producers[i := Locked(todo)])
    case Locked(todo) =>
      s.(queue := s.queue + [Entry(i, todo[0])], enqueued := s.enqueued + [Entry(i, todo[0])],
         producers := s.producers[i := Enqueued(todo[1..])])
    case Enqueued(todo) =>
      s.(consumer := if s.consumer.Asleep? then Woken else s.consumer, producers := s.producers[i := Signalled(todo)])
    case Signalled(todo) => s.(mutex := FREE, producers := s.producers[i := Outside(todo)])
  }

  /** pthread_cond_wait gives up the mutex and goes to sleep in one step; dequeue of nothing yields nothing. */
  function ConsumerStep<T>(s: State<T>): State<T>
    requires Enabled(s, Consume)
  {
    match s.consumer
    case WantsLock => s.(mutex := |s.producers|, consumer := Checking)
    case Woken => s.(mutex := |s.producers|, consumer := Checking)
    case Checking => s.(consumer := if s.queue == [] then GoingToWait else Taking)
    case GoingToWait => s.(mutex := FREE, consumer := Asleep)
    case Taking =>
      if s.queue == [] then s.(consumer := Unlocking([]))
      else s.(queue := s.queue[1..], consumer := Unlocking([s.queue[0]]))
    case Unlocking(got) => s.(mutex := FREE, consumer := Sending(got))
    case Sending(got) => s.(sent := s.sent + got, consumer := WantsLock)
  }

  function Next<T>(s: State<T>, move: Move): State<T>
    requires Enabled(s, move)
  {
    match move
    case Produce(i) => ProducerStep(s, i)
    case Consume => ConsumerStep(s)
    case WakeSpuriously => s.(consumer := Woken)
  }

  /** Any interleaving of any number of threads. */
  ghost predicate IsRun<T>(plan: seq<seq<T>>, run: seq<State<T>>, moves: seq<Move>) {
    && |run| == |moves| + 1
    && Init(plan, run[0])
    && forall k :: 0 <= k < |moves| ==> Enabled(run[k], moves[k]) && run[k + 1] == Next(run[k], moves[k])
  }

  ghost predicate MutexOk<T>(s: State<T>) {
    && FREE <= s.mutex <= |s.producers|
    && (forall i :: 0 <= i < |s.producers| ==> (s.producers[i].Outside? <==> s.mutex != i))
    && (s.consumer.HoldsMutex() <==> s.mutex == |s.producers|)
  }

  /** A producer has enqueued under the mutex and is about to signal. */
  ghost predicate SignalPending<T>(s: State<T>) {
    0 <= s.mutex < |s.producers| && s.producers[s.mutex].Enqueued?
  }

  ghost predicate ConsumerOk<T>(s: State<T>) {
    && (s.consumer.GoingToWait? ==> s.queue == [])
    && (s.consumer.Taking? ==> s.queue != [])
    && (s.consumer.Unlocking? || s.consumer.Sending? ==> |s.consumer.got| == 1)
    && (s.consumer.Asleep? && s.queue != [] ==> SignalPending(s))
  }

  ghost predicate HistoryOk<T>(s: State<T>) {
    s.sent + s.consumer.InHand() + s.queue == s.enqueued
  }

  /** The blocks of producer i in the order in which they appear. */
  ghost function From<T>(entries: seq<Entry<T>>, i: nat): seq<T> {
    if entries == [] then []
    else
      var last := entries[|entries| - 1];
      From(entries[..|entries| - 1], i) + if last.from == i then [last.block] else []
  }

  ghost predicate OrderOk<T>(plan: seq<seq<T>>, s: State<T>) {
    && |s.producers| == |plan|
    && forall i :: 0 <= i < |plan| ==>
         && From(s.enqueued, i) + s.producers[i].todo == plan[i]
         && (s.producers[i].Locked? ==> s.producers[i].todo != [])
  }

  ghost predicate Inv<T>(plan: seq<seq<T>>, s: State<T>) {
    MutexOk(s) && ConsumerOk(s) && HistoryOk(s) && OrderOk(plan, s)
  }

  lemma StepKeepsOrder<T>(plan: seq<seq<T>>, s: State<T>, move: Move)
    requires Inv(plan, s) && Enabled(s, move)
    ensures OrderOk(plan, Next(s, move))
  {
    if move.Produce? && s.producers[move.i].Locked? {
      var todo := s.producers[move.i].todo;
      var grown := s.enqueued + [Entry(move.i, todo[0])];
      assert grown[..|grown| - 1] == s.enqueued;
      assert todo == [todo[0]] + todo[1..];
      forall j | 0 <= j < |plan|
        ensures From(grown, j) + Next(s, move).producers[j].todo == plan[j]
      {
        assert From(s.enqueued, j) + s.producers[j].todo == plan[j];
      }
    }
  }

  lemma StepKeepsMutex<T>(plan: seq<seq<T>>, s: State<T>, move: Move)
    requires Inv(plan, s) && Enabled(s, move)
    ensures MutexOk(Next(s, move))
  {
  }

  lemma StepKeepsConsumer<T>(plan: seq<seq<T>>, s: State<T>, move: Move)
    requires Inv(plan, s) && Enabled(s, move)
    ensures ConsumerOk(Next(s, move))
  {
  }

  lemma StepKeepsHistory<T>(plan: seq<seq<T>>, s: State<T>, move: Move)
    requires Inv(plan, s) && Enabled(s, move)
    ensures HistoryOk(Next(s, move))
  {
    if move.Consume? && s.consumer.Taking? {
      assert s.queue == [s.queue[0]] + s.queue[1..];
    }
  }

  lemma StepKeepsInv<T>(plan: seq<seq<T>>, s: State<T>, move: Move) returns (r: State<T>)
    requires Inv(plan, s) && Enabled(s, move)
    ensures r == Next(s, move) && Inv(plan, r)
  {
    StepKeepsOrder(plan, s, move);
    StepKeepsMutex(plan, s, move);
    StepKeepsConsumer(plan, s, move);
    StepKeepsHistory(plan, s, move);
    r := Next(s, move);
  }

  lemma {:induction false} RunKeepsInv<T>(plan: seq<seq<T>>, run: seq<State<T>>, moves: seq<Move>, k: nat)
    requires IsRun(plan, run, moves) && k < |run|
    ensures Inv(plan, run[k])
  {
    if k > 0 {
      RunKeepsInv(plan, run, moves, k - 1);
      var r := StepKeepsInv(plan, run[k - 1], moves[k - 1]);
    }
  }

  /** At all times what has been sent is a prefix of what has been enqueued, in enqueue order. */
  lemma SentInEnqueueOrder<T>(plan: seq<seq<T>>, run: seq<State<T>>, moves: seq<Move>, k: nat)
    requires IsRun(plan, run, moves) && k < |run|
    ensures run[k].sent <= run[k].enqueued
    ensures run[k].enqueued == run[k].sent + run[k].consumer.InHand() + run[k].queue
    ensures forall i :: 0 <= i < |plan| ==> From(run[k].enqueued, i) <= plan[i]
  {
    RunKeepsInv(plan, run, moves, k);
  }

  /**
   No lost wake-up: the sender sleeps over a non-empty queue only while a producer that still holds the
   mutex is about to signal it.
   */
  lemma NoLostWakeup<T>(plan: seq<seq<T>>, run: seq<State<T>>, moves: seq<Move>, k: nat)
    requires IsRun(plan, run, moves) && k < |run|
    requires run[k].consumer.Asleep?
    ensures run[k].queue != [] ==> SignalPending(run[k])
    ensures run[k].mutex == FREE ==> run[k].queue == []
  {
    RunKeepsInv(plan, run, moves, k);
  }

  /** No thread can move, short of a wake-up without a signal. */
  ghost predicate AtRest<T>(s: State<T>) {
    forall move: Move :: Enabled(s, move) ==> move.WakeSpuriously?
  }

  ghost predicate AllSent<T>(plan: seq<seq<T>>, s: State<T>) {
    && s.sent == s.enqueued
    && |s.producers| == |plan|
    && forall i :: 0 <= i < |plan| ==> s.producers[i] == Outside([]) && From(s.sent, i) == plan[i]
  }

  lemma HolderCanMove<T>(plan: seq<seq<T>>, s: State<T>)
    requires Inv(plan, s)
    ensures s.mutex != FREE ==> !AtRest(s)
  {
    if s.mutex != FREE {
      var move := if s.mutex < |s.producers| then Produce(s.mutex) else Consume;
      assert Enabled(s, move);
    }
  }

  lemma RestIsAllSent<T>(plan: seq<seq<T>>, s: State<T>)
    requires Inv(plan, s)
    ensures AtRest(s) <==> s.consumer.Asleep? && AllSent(plan, s)
  {
    if AtRest(s) {
      assert !Enabled(s, Consume);
      HolderCanMove(plan, s);
      assert s.consumer.Asleep? && s.queue == [];
      assert s.sent == s.sent + s.consumer.InHand() + s.queue;
      forall i | 0 <= i < |plan|
        ensures s.producers[i] == Outside([]) && From(s.sent, i) == plan[i]
      {
        assert !Enabled(s, Produce(i));
        assert s.producers[i] == Outside([]);
        assert From(s.enqueued, i) + s.producers[i].todo == plan[i];
      }
    }
  }

  /**
   The threads come to rest exactly when everything has been sent: some thread can move without a spurious
   wake-up unless the sender is asleep and every producer's blocks are out, in that producer's order.
   */
  lemma RestsExactlyWhenAllSent<T>(plan: seq<seq<T>>, run: seq<State<T>>, moves: seq<Move>, k: nat)
    requires IsRun(plan, run, moves) && k < |run|
    ensures AtRest(run[k]) <==> run[k].consumer.Asleep? && AllSent(plan, run[k])
  {
    RunKeepsInv(plan, run, moves, k);
    RestIsAllSent(plan, run[k]);
  }

  /** A bound on the steps still to come, if the sender is never woken without a signal. */
  ghost function ProducerWork<T>(producers: seq<Producer<T>>, k: nat): nat
    requires k <= |producers|
  {
    if k == 0 then 0 else
      ProducerWork(producers, k - 1) +
      match producers[k - 1]
      case Outside(todo) => 4 * |todo|
      case Locked(todo) => if todo == [] then 0 else 4 * |todo| - 1
      case Enqueued(todo) => 4 * |todo| + 2
      case Signalled(todo) => 4 * |todo| + 1
  }

  ghost function ConsumerWork<T>(consumer: Consumer<T>): nat {
    match consumer
    case Asleep => 0
    case GoingToWait => 1
    case Taking => 1
    case Checking => 2
    case WantsLock => 3
    case Woken => 3
    case Sending(_) => 4
    case Unlocking(_) => 5
  }

  ghost function Work<T>(s: State<T>): nat {
    20 * ProducerWork(s.producers, |s.producers|) + 10 * |s.queue| + ConsumerWork(s.consumer)
  }

  lemma {:induction false} ProducerWorkDrops<T>(producers: seq<Producer<T>>, i: nat, p: Producer<T>, k: nat)
    requires i < |producers| && k <= |producers|
    requires ProducerWork([p], 1) + 1 == ProducerWork([producers[i]], 1)
    ensures ProducerWork(producers, k) == ProducerWork(producers[i := p], k) + if i < k then 1 else 0
  {
    if k > 0 {
      ProducerWorkDrops(producers, i, p, k - 1);
    }
  }

  lemma StepDropsWork<T>(plan: seq<seq<T>>, s: State<T>, move: Move)
    requires Inv(plan, s) && Enabled(s, move)
    ensures move.WakeSpuriously? ==> Work(Next(s, move)) == Work(s) + 3
    ensures !move.WakeSpuriously? ==> Work(Next(s, move)) < Work(s)
  {
    if move.Produce? {
      ProducerWorkDrops(s.producers, move.i, Next(s, move).producers[move.i], |s.producers|);
    }
  }

  ghost function Spurious(moves: seq<Move>): nat {
    if moves == [] then 0
    else Spurious(moves[..|moves| - 1]) + if moves[|moves| - 1].WakeSpuriously? then 1 else 0
  }

  /**
   Every run is finite but for spurious wake-ups: its length is bounded by the work there was at the start
   and four more steps for each wake-up without a signal.
   */
  lemma {:induction false} RunIsBounded<T>(plan: seq<seq<T>>, run: seq<State<T>>, moves: seq<Move>)
    requires IsRun(plan, run, moves)
    ensures |moves| + Work(run[|moves|]) <= Work(run[0]) + 4 * Spurious(moves)
  {
    if moves != [] {
      var n := |moves| - 1;
      assert IsRun(plan, run[..n + 1], moves[..n]);
      RunIsBounded(plan, run[..n + 1], moves[..n]);
      RunKeepsInv(plan, run, moves, n);
      StepDropsWork(plan, run[n], moves[n]);
    }
  }
}
