/**
 queue.c: a FIFO queue over doubly linked nodes.  New nodes go in at the head, the oldest is taken from
 the tail, and the links run from the head towards the tail.
 */
module Queue {

  class QueueNode<T> {
    var buf: T
    var bufLen: int
    var prev: QueueNode?<T>
    var next: QueueNode?<T>

    constructor (buf: T, bufLen: int, next: QueueNode?<T>)
      ensures this.buf == buf && this.bufLen == bufLen && this.prev == null && this.next == next
    {
      this.buf, this.bufLen, this.prev, this.next := buf, bufLen, null, next;
    }
  }

  datatype Item<T> = Item(buf: T, bufLen: int)

  class Queue<T> {
    var head: QueueNode?<T>
    var tail: QueueNode?<T>
    /** The nodes from tail to head, oldest first, and what they hold. */
    ghost var nodes: seq<QueueNode<T>>
    ghost var Contents: seq<Item<T>>

    ghost predicate Valid()
      reads this, nodes
    {
      && (forall i, j :: 0 <= i < j < |nodes| ==> nodes[i] != nodes[j])
      && (nodes == [] ==> head == null && tail == null)
      && (nodes != [] ==> tail == nodes[0] && tail.next == null)
      && (nodes != [] ==> head == nodes[|nodes| - 1] && head.prev == null)
      && (forall i {:trigger nodes[i].prev} :: 0 <= i < |nodes| - 1 ==> nodes[i].prev == nodes[i + 1])
      && (forall i {:trigger nodes[i].next} :: 1 <= i < |nodes| ==> nodes[i].next == nodes[i - 1])
      && |Contents| == |nodes|
      && forall i :: 0 <= i < |nodes| ==> Contents[i] == Item(nodes[i].buf, nodes[i].bufLen)
    }

    /** allocate_queue. */
    constructor ()
      ensures Valid() && nodes == [] && Contents == []
    {
      head, tail, nodes, Contents := null, null, [], [];
    }

    /** is_empty tests the head pointer alone. */
    method IsEmpty() returns (empty: bool)
      requires Valid()
      ensures empty <==> Contents == []
    {
      empty := head == null;
    }

    method Enqueue(buf: T, bufLen: int)
      requires Valid()
      modifies this, nodes
      ensures Valid() && Contents == old(Contents) + [Item(buf, bufLen)]
      ensures nodes == old(nodes) + [head] && fresh(head)
    {
      var wasEmpty := head == null;
      var newHead := new QueueNode(buf, bufLen, head);
      head := newHead;
      if !wasEmpty {
        head.next.prev := head;
      } else {
        tail := head;
      }
      nodes, Contents := nodes + [newHead], Contents + [Item(buf, bufLen)];
    }

    /** dequeue: the size of the oldest buffer and the buffer itself, or 0 if there is none. */
    method Dequeue(dflt: T) returns (size: int, buf: T)
      requires Valid()
      modifies this, nodes
      ensures Valid()
      ensures old(Contents) == [] ==> size == 0 && buf == dflt && Contents == [] && nodes == old(nodes)
      ensures old(Contents) != [] ==> Item(buf, size) == old(Contents)[0] && Contents == old(Contents)[1..]
      ensures old(nodes) != [] ==> nodes == old(nodes)[1..]
    {
      if head == null {
        return 0, dflt;
      }
      buf := tail.buf;
      size := tail.bufLen;
      assert |nodes| > 1 ==> tail.prev == nodes[1];
      tail := tail.prev;
      if tail == null {
        head := null;
      } else {
        tail.next := null;
      }
      nodes, Contents := nodes[1..], Contents[1..];
    }
  }

  datatype Op<T> = Put(buf: T, bufLen: int) | Take

  ghost function PutBy<T>(op: Op<T>): seq<Item<T>> {
    if op.Put? then [Item(op.buf, op.bufLen)] else []
  }

  ghost function AllPut<T>(ops: seq<Op<T>>): seq<Item<T>> {
    if ops == [] then [] else AllPut(ops[..|ops| - 1]) + PutBy(ops[|ops| - 1])
  }

  method Apply<T>(queue: Queue<T>, op: Op<T>, dflt: T) returns (taken: seq<Item<T>>)
    requires queue.Valid()
    modifies queue, queue.nodes
    ensures queue.Valid()
    ensures forall n :: n in queue.nodes ==> n in old(queue.nodes) || fresh(n)
    ensures taken + queue.Contents == old(queue.Contents) + PutBy(op)
  {
    taken := [];
    match op {
      case Put(buf, bufLen) =>
        queue.Enqueue(buf, bufLen);
      case Take =>
        var empty := queue.IsEmpty();
        if !empty {
          var size, buf := queue.Dequeue(dflt);
          taken := [Item(buf, size)];
        }
    }
  }

  lemma Regroup<T>(taken: seq<T>, more: seq<T>, rest: seq<T>, before: seq<T>, put: seq<T>)
    requires more + rest == before + put
    ensures (taken + more) + rest == (taken + before) + put
  {
    assert (taken + more) + rest == taken + (more + rest);
  }

  /** One more operation of the sequence. */
  method Step<T>(queue: Queue<T>, ops: seq<Op<T>>, i: nat, taken: seq<Item<T>>, dflt: T) returns (more: seq<Item<T>>)
    requires queue.Valid() && i < |ops| && taken + queue.Contents == AllPut(ops[..i])
    modifies queue, queue.nodes
    ensures queue.Valid() && more + queue.Contents == AllPut(ops[..i + 1])
    ensures forall n :: n in queue.nodes ==> n in old(queue.nodes) || fresh(n)
  {
    assert ops[..i + 1][..i] == ops[..i];
    ghost var before := queue.Contents;
    var now := Apply(queue, ops[i], dflt);
    Regroup(taken, now, queue.Contents, before, PutBy(ops[i]));
    more := taken + now;
  }

  /**
   First in, first out over any sequence of operations: what has been taken, followed by what is still
   in the queue, is everything that was put, in the order in which it was put.
   */
  method RunOps<T>(ops: seq<Op<T>>, dflt: T) returns (taken: seq<Item<T>>, queue: Queue<T>)
    ensures queue.Valid() && taken + queue.Contents == AllPut(ops)
  {
    queue := new Queue();
    taken := [];
    for i := 0 to |ops|
      invariant queue.Valid() && fresh(queue) && forall n :: n in queue.nodes ==> fresh(n)
      invariant taken + queue.Contents == AllPut(ops[..i])
    {
      assert forall k :: 0 <= k < |queue.nodes| ==> queue.nodes[k] in queue.nodes;
      taken := Step(queue, ops, i, taken, dflt);
    }
    assert ops[..|ops|] == ops;
  }
}
