/** LinkedList.c: a doubly linked list with cursors and an in-place bubble sort. */
module LinkedList {
  import opened Sequences
  import opened Sorting

  class Node<T> {
    var payload: T
    var next: Node?<T>
    var prev: Node?<T>

    constructor (payload: T, next: Node?<T>, prev: Node?<T>)
      ensures this.payload == payload && this.next == next && this.prev == prev
    {
      this.payload, this.next, this.prev := payload, next, prev;
    }
  }

  /** Distinct nodes, each linked to its neighbours in both directions. */
  ghost predicate Chain<T>(nodes: seq<Node<T>>)
    reads nodes
  {
    && (forall i, j :: 0 <= i < j < |nodes| ==> nodes[i] != nodes[j])
    && (nodes != [] ==> nodes[0].prev == null)
    && (nodes != [] ==> nodes[|nodes| - 1].next == null)
    && (forall i {:trigger nodes[i].next} :: 0 <= i < |nodes| - 1 ==> nodes[i].next == nodes[i + 1])
    && (forall i {:trigger nodes[i].prev} :: 1 <= i < |nodes| ==> nodes[i].prev == nodes[i - 1])
  }

  lemma PayloadsWith<T>(nodes: seq<Node<T>>, contents: seq<T>, p: nat, n: Node<T>)
    requires |nodes| == |contents| && p <= |nodes|
    requires forall i :: 0 <= i < |nodes| ==> contents[i] == nodes[i].payload
    ensures |With(contents, p, n.payload)| == |With(nodes, p, n)|
    ensures forall i :: 0 <= i < |nodes| + 1 ==> With(contents, p, n.payload)[i] == With(nodes, p, n)[i].payload
  {
    WithAt(nodes, p, n);
    WithAt(contents, p, n.payload);
  }

  /** A chain, except that the links into and out of node p are not trusted. */
  ghost predicate ChainAround<T>(nodes: seq<Node<T>>, p: nat)
    requires 0 < p < |nodes|
    reads nodes
  {
    && (forall i, j :: 0 <= i < j < |nodes| ==> nodes[i] != nodes[j])
    && nodes[0].prev == null
    && (p < |nodes| - 1 ==> nodes[|nodes| - 1].next == null)
    && (forall i {:trigger nodes[i].next} :: 0 <= i < |nodes| - 1 && i != p - 1 && i != p ==>
          nodes[i].next == nodes[i + 1])
    && (forall i {:trigger nodes[i].prev} :: 1 <= i < |nodes| && i != p && i != p + 1 ==> nodes[i].prev == nodes[i - 1])
  }

  /** Linking the neighbours of node p to each other takes it out of the chain. */
  lemma SplicedOut<T>(nodes: seq<Node<T>>, p: nat)
    requires 0 < p < |nodes| - 1 && ChainAround(nodes, p)
    requires nodes[p - 1].next == nodes[p + 1] && nodes[p + 1].prev == nodes[p - 1]
    ensures Chain(Without(nodes, p))
  {
    var r := Without(nodes, p);
    forall i | 0 <= i < |r| - 1
      ensures r[i].next == r[i + 1]
    {
      assert r[i] == nodes[if i < p then i else i + 1];
    }
    forall i | 1 <= i < |r|
      ensures r[i].prev == r[i - 1]
    {
      assert r[i] == nodes[if i < p then i else i + 1];
    }
  }

  /** A new node with proper links on both sides completes the chain. */
  lemma SplicedIn<T>(nodes: seq<Node<T>>, p: nat)
    requires 0 < p < |nodes| - 1 && ChainAround(nodes, p)
    requires nodes[p - 1].next == nodes[p] && nodes[p].prev == nodes[p - 1]
    requires nodes[p].next == nodes[p + 1] && nodes[p + 1].prev == nodes[p]
    ensures Chain(nodes)
  {
  }

  class LinkedList<T> {
    var numElements: nat
    var head: Node?<T>
    var tail: Node?<T>
    /** The nodes from head to tail and their payloads. */
    ghost var nodes: seq<Node<T>>
    ghost var Contents: seq<T>

    ghost predicate Valid()
      reads this, nodes
    {
      && numElements == |nodes| == |Contents|
      && Chain(nodes)
      && head == (if nodes == [] then null else nodes[0])
      && tail == (if nodes == [] then null else nodes[|nodes| - 1])
      && forall i {:trigger nodes[i].payload} :: 0 <= i < |nodes| ==> Contents[i] == nodes[i].payload
    }

    /** The nodes are linked up to hold one element more than has been counted. */
    ghost predicate Linked(linked: seq<Node<T>>, held: seq<T>)
      reads this, linked
    {
      && |linked| == |held| == numElements + 1
      && Chain(linked)
      && head == linked[0] && tail == linked[|linked| - 1]
      && forall i {:trigger linked[i].payload} :: 0 <= i < |linked| ==> held[i] == linked[i].payload
    }

    method CountIn(ghost linked: seq<Node<T>>, ghost held: seq<T>)
      requires Linked(linked, held)
      modifies `numElements, `nodes, `Contents
      ensures Valid() && nodes == linked && Contents == held
    {
      numElements := numElements + 1;
      nodes, Contents := linked, held;
    }

    /** AllocateLinkedList. */
    constructor ()
      ensures Valid() && nodes == [] && Contents == []
    {
      numElements, head, tail, nodes, Contents := 0, null, null, [], [];
    }

    /** PushLinkedList: add at the head. */
    method Push(payload: T)
      requires Valid()
      modifies this, nodes
      ensures Valid() && Contents == [payload] + old(Contents)
      ensures nodes == [head] + old(nodes) && fresh(head)
    {
      var ln := new Node(payload, head, null);
      if numElements == 0 {
        head, tail := ln, ln;
        numElements := 1;
        nodes, Contents := [ln], [payload];
        return;
      }
      head.prev := ln;
      head := ln;
      numElements := numElements + 1;
      nodes, Contents := [ln] + nodes, [payload] + Contents;
    }

    /** PopLinkedList: remove the head; false on an empty list. */
    method Pop(dflt: T) returns (ok: bool, payload: T)
      requires Valid()
      modifies this, nodes
      ensures Valid() && ok == (old(Contents) != [])
      ensures !ok ==> payload == dflt && Contents == old(Contents) && nodes == old(nodes)
      ensures ok ==> payload == old(Contents)[0] && Contents == old(Contents)[1..] && nodes == old(nodes)[1..]
    {
      if numElements == 0 {
        return false, dflt;
      }
      if numElements == 1 {
        tail := null;
      }
      var popped := head;
      assert numElements > 1 ==> popped.next == nodes[1];
      head := popped.next;
      if numElements > 1 {
        head.prev := null;
      }
      ok, payload := true, popped.payload;
      numElements := numElements - 1;
      nodes, Contents := nodes[1..], Contents[1..];
    }

    /** AppendLinkedList: add at the tail. */
    method Append(payload: T)
      requires Valid()
      modifies this, nodes
      ensures Valid() && Contents == old(Contents) + [payload]
      ensures nodes == old(nodes) + [tail] && fresh(tail)
    {
      var ln := new Node(payload, null, tail);
      if numElements == 0 {
        head, tail := ln, ln;
        numElements := 1;
        nodes, Contents := [ln], [payload];
        return;
      }
      tail.next := ln;
      tail := ln;
      numElements := numElements + 1;
      nodes, Contents := nodes + [ln], Contents + [payload];
    }

    /** SliceLinkedList: remove the tail; false on an empty list. */
    method Slice(dflt: T) returns (ok: bool, payload: T)
      requires Valid()
      modifies this, nodes
      ensures Valid() && ok == (old(Contents) != [])
      ensures !ok ==> payload == dflt && Contents == old(Contents) && nodes == old(nodes)
      ensures ok ==> payload == old(Contents)[|old(Contents)| - 1] && Contents == old(Contents)[..|old(Contents)| - 1]
      ensures ok ==> nodes == old(nodes)[..|old(nodes)| - 1]
    {
      if numElements == 0 {
        return false, dflt;
      }
      if numElements == 1 {
        head := null;
      }
      var popped := tail;
      assert numElements > 1 ==> popped.prev == nodes[|nodes| - 2];
      tail := popped.prev;
      if numElements > 1 {
        tail.next := null;
      }
      ok, payload := true, popped.payload;
      numElements := numElements - 1;
      nodes, Contents := nodes[..|nodes| - 1], Contents[..|Contents| - 1];
    }

    /** Exchange the payloads of two neighbouring nodes. */
    method SwapPayloads(curnode: Node<T>, next: Node<T>, ghost k: nat)
      requires Valid() && k + 1 < |nodes| && curnode == nodes[k] && next == nodes[k + 1]
      modifies curnode`payload, next`payload, this`Contents
      ensures Valid() && Contents == SwapAt(old(Contents), k)
    {
      var tmp := curnode.payload;
      curnode.payload := next.payload;
      next.payload := tmp;
      Contents := SwapAt(Contents, k);
    }

    /** The body of the inner loop: compare the payloads of two neighbours and swap them if need be. */
    method CompareAndSwap(ascending: bool, cmp: (T, T) -> int, curnode: Node<T>, next: Node<T>,
                          ghost k: nat, ghost dom: seq<T>)
      returns (swapped: bool)
      requires Valid() && k + 1 < |nodes| && curnode == nodes[k] && next == nodes[k + 1]
      requires TotalPreorder(cmp, dom) && Over(Contents, dom)
      modifies curnode`payload, next`payload, this`Contents
      ensures Valid() && Over(Contents, dom) && SameClasses(cmp, old(Contents), Contents, dom)
      ensures swapped ==> Inversions(cmp, ascending, Contents) < Inversions(cmp, ascending, old(Contents))
      ensures !swapped ==> Contents == old(Contents) && !OutOfOrder(cmp, ascending, Contents[k], Contents[k + 1])
    {
      assert nodes[k].payload == Contents[k] && nodes[k + 1].payload == Contents[k + 1];
      var compareResult := cmp(curnode.payload, next.payload);
      if ascending {
        compareResult := compareResult * -1;
      }
      swapped := compareResult < 0;
      if swapped {
        SwapHelps(cmp, ascending, Contents, k, dom);
        SwapPayloads(curnode, next, k);
      }
    }

    /** One sweep of the bubble sort; `swapped` tells whether it found anything out of order. */
    method Sweep(ascending: bool, cmp: (T, T) -> int, ghost dom: seq<T>) returns (swapped: bool)
      requires Valid() && numElements >= 2
      requires TotalPreorder(cmp, dom) && Over(Contents, dom)
      modifies nodes`payload, this`Contents
      ensures Valid() && Over(Contents, dom) && SameClasses(cmp, old(Contents), Contents, dom)
      ensures swapped ==> Inversions(cmp, ascending, Contents) < Inversions(cmp, ascending, old(Contents))
      ensures !swapped ==> Contents == old(Contents) && NeighboursOrdered(cmp, ascending, Contents, |Contents| - 1)
    {
      swapped := false;
      var curnode := head;
      ghost var k := 0;
      assert curnode.next == nodes[1];
      while curnode.next != null
        invariant Valid() && 0 <= k < |nodes| && curnode == nodes[k] && |Contents| == |old(Contents)|
        invariant curnode.next != null <==> k + 1 < |nodes|
        invariant Over(Contents, dom) && SameClasses(cmp, old(Contents), Contents, dom)
        invariant if swapped then Inversions(cmp, ascending, Contents) < Inversions(cmp, ascending, old(Contents))
                  else Contents == old(Contents) && NeighboursOrdered(cmp, ascending, Contents, k)
        decreases |nodes| - k
      {
        assert curnode.next == nodes[k + 1];
        var swap := CompareAndSwap(ascending, cmp, curnode, curnode.next, k, dom);
        swapped := swapped || swap;
        curnode, k := curnode.next, k + 1;
        assert k + 1 < |nodes| ==> nodes[k].next == nodes[k + 1];
      }
    }

    /**
     SortLinkedList: bubble sort in place.  The nodes stay where they are; the payloads end up in order,
     and payloads that compare equal keep their order.
     */
    method Sort(ascending: bool, cmp: (T, T) -> int)
      requires Valid() && TotalPreorder(cmp, Contents)
      modifies nodes`payload, this`Contents
      ensures Valid() && Sorted(cmp, ascending, Contents)
      ensures forall i, j :: 0 <= i < j < |Contents| ==>
                if ascending then cmp(Contents[i], Contents[j]) <= 0 else cmp(Contents[i], Contents[j]) >= 0
      ensures Over(Contents, old(Contents)) && SameClasses(cmp, old(Contents), Contents, old(Contents))
    {
      if numElements < 2 {
        return;
      }
      ghost var dom := Contents;
      var swapped := Sweep(ascending, cmp, dom);
      while swapped
        invariant Valid() && |Contents| == |dom|
        invariant Over(Contents, dom) && SameClasses(cmp, dom, Contents, dom)
        invariant !swapped ==> NeighboursOrdered(cmp, ascending, Contents, |Contents| - 1)
        decreases Inversions(cmp, ascending, Contents) + if swapped then 1 else 0
      {
        swapped := Sweep(ascending, cmp, dom);
      }
      OrderedIsSorted(cmp, ascending, Contents, dom);
    }
  }

  /** LLIter: a cursor on a node of a list. */
  class LLIter<T> {
    const list: LinkedList<T>
    var node: Node?<T>
    /** The index of `node` in the list. */
    ghost var pos: int

    ghost predicate Valid()
      reads this, list, list.nodes
    {
      list.Valid() && 0 <= pos < |list.nodes| && node == list.nodes[pos]
    }

    /** LLMakeIterator on a list that is not empty; pos 0 starts at the head, any other at the tail. */
    constructor (list: LinkedList<T>, pos: int)
      requires list.Valid() && list.Contents != []
      ensures Valid() && this.list == list
      ensures this.pos == if pos == 0 then 0 else |list.Contents| - 1
    {
      this.list := list;
      this.node := if pos == 0 then list.head else list.tail;
      this.pos := if pos == 0 then 0 else |list.Contents| - 1;
    }

    /** LLIteratorHasNext. */
    method HasNext() returns (more: bool)
      requires Valid()
      ensures more <==> pos + 1 < |list.Contents|
    {
      assert pos + 1 < |list.nodes| ==> list.nodes[pos].next == list.nodes[pos + 1];
      more := node.next != null;
    }

    /** LLIteratorNext. */
    method Next() returns (moved: bool)
      requires Valid()
      modifies this
      ensures Valid() && moved == (old(pos) + 1 < |list.Contents|)
      ensures pos == if moved then old(pos) + 1 else old(pos)
    {
      moved := HasNext();
      if moved {
        assert list.nodes[pos].next == list.nodes[pos + 1];
        node, pos := node.next, pos + 1;
      }
    }

    /** LLIteratorPrev, with the test of LLIteratorHasPrev. */
    method Prev() returns (moved: bool)
      requires Valid()
      modifies this
      ensures Valid() && moved == (old(pos) > 0)
      ensures pos == if moved then old(pos) - 1 else old(pos)
    {
      assert pos > 0 ==> list.nodes[pos].prev == list.nodes[pos - 1];
      moved := node.prev != null;
      if moved {
        node, pos := node.prev, pos - 1;
      }
    }

    /** LLIteratorGetPayload. */
    method GetPayload() returns (payload: T)
      requires Valid()
      ensures payload == list.Contents[pos]
    {
      assert list.Contents[pos] == list.nodes[pos].payload;
      payload := node.payload;
    }

    /** Replace the payload under the cursor in place. */
    method SetPayload(payload: T)
      requires Valid()
      modifies node`payload, list`Contents
      ensures Valid() && list.Contents == old(list.Contents)[pos := payload]
    {
      node.payload := payload;
      list.Contents := list.Contents[pos := payload];
    }

    /**
     LLIteratorDelete: remove the node under the cursor, which moves to the successor, or to the
     predecessor if the tail was removed.  False means that the list is now empty.
     */
    method Delete(dflt: T) returns (ok: bool)
      requires Valid()
      modifies this, list, list.nodes
      ensures list.Valid() && ok == (|old(list.Contents)| > 1)
      ensures list.Contents == Without(old(list.Contents), old(pos))
      ensures list.nodes == Without(old(list.nodes), old(pos))
      ensures ok ==> Valid() && pos == if old(pos) + 1 < |old(list.Contents)| then old(pos) else old(pos) - 1
    {
      var isHead := list.head == node;
      var isTail := list.tail == node;
      var isSole := list.numElements == 1;
      assert isHead <==> pos == 0;
      assert isTail <==> pos == |list.nodes| - 1;
      if isSole {
        RemoveSole();
      } else if !isHead && !isTail {
        RemoveMiddle();
      } else if isHead {
        RemoveHead(dflt);
      } else {
        RemoveTail(dflt);
      }
      ok := !isSole;
    }

    /** The branch of LLIteratorDelete for the head: step forward, then pop. */
    method RemoveHead(dflt: T)
      requires Valid() && pos == 0 && |list.nodes| > 1
      modifies this, list, list.nodes
      ensures Valid() && pos == 0
      ensures list.Contents == Without(old(list.Contents), 0) && list.nodes == Without(old(list.nodes), 0)
    {
      WithoutEnds(list.nodes);
      WithoutEnds(list.Contents);
      assert node.next == list.nodes[1];
      node := node.next;
      var _, _ := list.Pop(dflt);
    }

    /** The branch of LLIteratorDelete for the tail: step backward, then slice. */
    method RemoveTail(dflt: T)
      requires Valid() && pos == |list.nodes| - 1 > 0
      modifies this, list, list.nodes
      ensures Valid() && pos == old(pos) - 1
      ensures list.Contents == Without(old(list.Contents), old(pos)) && list.nodes == Without(old(list.nodes), old(pos))
    {
      WithoutEnds(list.nodes);
      WithoutEnds(list.Contents);
      assert node.prev == list.nodes[pos - 1];
      node, pos := node.prev, pos - 1;
      var _, _ := list.Slice(dflt);
    }

    /** The branch of LLIteratorDelete for the only node: the list is emptied, the cursor unusable. */
    method RemoveSole()
      requires Valid() && |list.nodes| == 1
      modifies this, list
      ensures list.Valid() && node == null
      ensures list.Contents == Without(old(list.Contents), 0) && list.nodes == Without(old(list.nodes), 0)
    {
      list.head, list.tail := null, null;
      list.numElements := list.numElements - 1;
      list.nodes, list.Contents := [], [];
      node := node.next;
    }

    /** The branch of LLIteratorDelete for a node that is neither head nor tail. */
    method RemoveMiddle()
      requires Valid() && 0 < pos < |list.nodes| - 1
      modifies this, list, list.nodes
      ensures Valid() && pos == old(pos)
      ensures list.Contents == Without(old(list.Contents), pos)
      ensures list.nodes == Without(old(list.nodes), pos)
    {
      assert node.prev == list.nodes[pos - 1] && node.next == list.nodes[pos + 1];
      node.prev.next := node.next;
      node.next.prev := node.prev;
      assert ChainAround(list.nodes, pos);
      SplicedOut(list.nodes, pos);
      list.numElements := list.numElements - 1;
      node := node.next;
      list.nodes, list.Contents := Without(list.nodes, pos), Without(list.Contents, pos);
    }

    /** LLIteratorInsertBefore: the cursor stays on its node. */
    method InsertBefore(payload: T)
      requires Valid()
      modifies this, list, list.nodes
      ensures Valid() && node == old(node) && pos == old(pos) + 1
      ensures list.Contents == With(old(list.Contents), old(pos), payload)
      ensures fresh(list.nodes[old(pos)]) && list.nodes == With(old(list.nodes), old(pos), list.nodes[old(pos)])
    {
      if node == list.head {
        list.Push(payload);
        pos := pos + 1;
        return;
      }
      InsertMiddle(payload);
    }

    method InsertMiddle(payload: T)
      requires Valid() && pos > 0
      modifies this, list, list.nodes
      ensures Valid() && node == old(node) && pos == old(pos) + 1
      ensures list.Contents == With(old(list.Contents), old(pos), payload)
      ensures fresh(list.nodes[old(pos)]) && list.nodes == With(old(list.nodes), old(pos), list.nodes[old(pos)])
    {
      assert node.prev == list.nodes[pos - 1];
      var newNode := new Node(payload, node, node.prev);
      Stitch(newNode, newNode.prev);
      WithAt(list.nodes, pos, newNode);
      list.CountIn(With(list.nodes, pos, newNode), With(list.Contents, pos, payload));
      pos := pos + 1;
    }

    /** The neighbours of a new node point to it from both sides. */
    method Stitch(n: Node<T>, before: Node<T>)
      requires Valid() && pos > 0 && before == list.nodes[pos - 1]
      requires n !in list.nodes && n.prev == before && n.next == node
      modifies before`next, node`prev
      ensures list.Linked(With(list.nodes, pos, n), With(list.Contents, pos, n.payload))
    {
      PayloadsWith(list.nodes, list.Contents, pos, n);
      WithAt(list.nodes, pos, n);
      before.next := n;
      node.prev := n;
      SplicedIn(With(list.nodes, pos, n), pos);
    }
  }
}
