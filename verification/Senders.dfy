/**
 The two threads of one connection, as module Handoff has them: the one that writes the blocks meant for it
 and the one that sends them.  What is to be written may grow while they run.
 */
module Senders {
  import opened Handoff

  ghost function Blocks<T>(entries: seq<Entry<T>>): (blocks: seq<T>)
    ensures |blocks| == |entries| && forall i :: 0 <= i < |blocks| ==> blocks[i] == entries[i].block
  {
    seq(|entries|, i requires 0 <= i < |entries| => entries[i].block)
  }

  function Started<T>(): (s: State<T>)
    ensures Init([[]], s)
  {
    State([Outside([])], WantsLock, FREE, [], [], [])
  }

  /** One writer and one sender; `plan` is what has been given to the writer so far. */
  ghost predicate Paired<T>(plan: seq<T>, s: State<T>) {
    Inv([plan], s)
  }

  /** What has been given to the writer and not been sent, oldest first. */
  ghost function Unsent<T>(s: State<T>): seq<T>
    requires |s.producers| == 1
  {
    Blocks(s.consumer.InHand() + s.queue) + s.producers[0].todo
  }

  /** The writer is given more to write. */
  function Extend<T>(s: State<T>, more: seq<T>): State<T>
    requires |s.producers| == 1
  {
    s.(producers := [s.producers[0].(todo := s.producers[0].todo + more)])
  }

  lemma StartedIsPaired<T>()
    ensures Paired<T>([], Started()) && Unsent<T>(Started()) == []
  {
  }

  lemma ExtendKeepsPaired<T>(plan: seq<T>, s: State<T>, more: seq<T>)
    requires Paired(plan, s)
    ensures Paired(plan + more, Extend(s, more))
    ensures Unsent(Extend(s, more)) == Unsent(s) + more
  {
    assert [plan + more][0] == [plan][0] + more;
    assert From(s.enqueued, 0) + s.producers[0].todo == plan;
    assert From(s.enqueued, 0) + (s.producers[0].todo + more) == plan + more;
  }

  /** A step keeps what is unsent, but for the one that sends the oldest block. */
  lemma StepKeepsPaired<T>(plan: seq<T>, s: State<T>, move: Move) returns (r: State<T>)
    requires Paired(plan, s) && Enabled(s, move)
    ensures r == Next(s, move) && Paired(plan, r)
    ensures if Sends(s, move) then |s.consumer.got| == 1 && Unsent(s) == [s.consumer.got[0].block] + Unsent(r)
            else Unsent(r) == Unsent(s)
  {
    r := StepKeepsInv([plan], s, move);
    StepKeepsUnsent(plan, s, move);
  }

  predicate Sends<T>(s: State<T>, move: Move) {
    move.Consume? && s.consumer.Sending?
  }

  lemma StepKeepsUnsent<T>(plan: seq<T>, s: State<T>, move: Move)
    requires Paired(plan, s) && Enabled(s, move) && |Next(s, move).producers| == 1
    ensures var r := Next(s, move);
            if Sends(s, move) then |s.consumer.got| == 1 && Unsent(s) == [s.consumer.got[0].block] + Unsent(r)
            else Unsent(r) == Unsent(s)
  {
    if move.Consume? && s.consumer.Taking? {
      TakingKeepsHeld(s);
    } else if move.Produce? && s.producers[0].Locked? {
      WritingKeepsUnsent(s);
    }
  }

  lemma TakingKeepsHeld<T>(s: State<T>)
    requires s.consumer.Taking? && s.queue != []
    ensures var r := ConsumerStep(s); r.consumer.InHand() + r.queue == s.consumer.InHand() + s.queue
  {
    assert s.queue == [s.queue[0]] + s.queue[1..];
  }

  lemma WritingKeepsUnsent<T>(s: State<T>)
    requires |s.producers| == 1 && Enabled(s, Produce(0)) && s.producers[0].Locked?
    ensures Unsent(ProducerStep(s, 0)) == Unsent(s)
  {
    var r, held := ProducerStep(s, 0), s.consumer.InHand() + s.queue;
    assert r.consumer.InHand() + r.queue == held + [Entry(0, s.producers[0].todo[0])];
    assert Blocks(r.consumer.InHand() + r.queue) == Blocks(held) + [s.producers[0].todo[0]];
  }

  /** Neither thread can move. */
  predicate Settled<T>(s: State<T>) {
    !Enabled(s, Produce(0)) && !Enabled(s, Consume)
  }

  lemma SettledIsSent<T>(plan: seq<T>, s: State<T>)
    requires Paired(plan, s) && Settled(s)
    ensures Unsent(s) == []
  {
    assert AtRest(s);
    RestIsAllSent([plan], s);
    assert s.sent + s.consumer.InHand() + s.queue == s.sent;
    assert |s.consumer.InHand() + s.queue| == 0;
  }
}
