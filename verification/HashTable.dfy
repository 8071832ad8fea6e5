/**
 HashTable.c: a chained hash table on an array of linked lists.  The table works below the load at which
 it would be resized.
 */
module HashTable {
  import opened Sequences
  import opened LinkedList
  import opened HashModel

  /** find: walk the chain with a cursor until the key turns up. */
  method Find<V>(list: LinkedList<KeyValue<V>>, key: int) returns (ret: int, at: LLIter?<KeyValue<V>>)
    requires list.Valid()
    ensures ret == if HasKey(list.Contents, key) then 1 else 0
    ensures ret == 1 ==>
              at != null && fresh(at) && at.list == list && at.Valid() && at.pos == IndexOf(list.Contents, key)
  {
    if list.numElements == 0 {
      return 0, null;
    }
    var iter := new LLIter(list, 0);
    var next := true;
    while next
      invariant fresh(iter) && iter.list == list && iter.Valid()
      invariant if next then iter.pos <= IndexOf(list.Contents, key) else !HasKey(list.Contents, key)
      decreases |list.Contents| - iter.pos, next
    {
      var payload := iter.GetPayload();
      if payload.key == key {
        return 1, iter;
      }
      next := iter.Next();
    }
    return 0, null;
  }

  method EmptyLists<T>(n: nat) returns (lists: array<LinkedList<T>>, ghost owner: map<object, nat>)
    requires n > 0
    ensures fresh(lists) && lists.Length == n
    ensures forall b :: 0 <= b < n ==>
              fresh(lists[b]) && lists[b].Valid() && lists[b].nodes == [] && lists[b].Contents == []
    ensures forall b :: 0 <= b < n ==> lists[b] in owner && owner[lists[b]] == b
  {
    var first := new LinkedList<T>();
    lists := new LinkedList<T>[n](_ => first);
    owner := map[first := 0];
    for i := 1 to n
      invariant lists.Length == n && fresh(lists)
      invariant forall b :: 0 <= b < i ==>
                  fresh(lists[b]) && lists[b].Valid() && lists[b].nodes == [] && lists[b].Contents == []
      invariant forall b :: 0 <= b < i ==> lists[b] in owner && owner[lists[b]] == b
    {
      var list := new LinkedList<T>();
      assert forall b :: 0 <= b < i ==> lists[b] != list;
      lists[i] := list;
      owner := owner[list := i];
    }
  }

  class HashTable<V> {
    const numBuckets: nat
    const buckets: array<LinkedList<KeyValue<V>>>
    var numElements: nat
    /** The content of each bucket, and the map that the table stands for. */
    ghost var chains: seq<seq<KeyValue<V>>>
    ghost var model: map<int, V>
    /** The memory behind the table: the array, the lists and their nodes. */
    ghost var Repr: set<object>
    /** Which bucket a list or node belongs to. */
    ghost var owner: map<object, nat>

    ghost predicate BucketOk(b: nat)
      requires b < buckets.Length && b < |chains|
      reads this`chains, this`Repr, this`owner, buckets, buckets[b], buckets[b].nodes
    {
      && buckets[b] in owner && owner[buckets[b]] == b
      && (forall i :: 0 <= i < |buckets[b].nodes| ==> buckets[b].nodes[i] in owner && owner[buckets[b].nodes[i]] == b)
      && buckets[b].Valid() && buckets[b].Contents == chains[b]
    }

    /** The lists are well formed, hold the chains and share no memory. */
    ghost predicate HeapOk()
      reads this`chains, this`Repr, this`owner, Repr
    {
      && this !in Repr && buckets in Repr
      && numBuckets > 0 && buckets.Length == numBuckets == |chains|
      && (forall b :: 0 <= b < numBuckets ==> buckets[b] in Repr)
      && (forall b, i :: 0 <= b < numBuckets && 0 <= i < |buckets[b].nodes| ==> buckets[b].nodes[i] in Repr)
      && (forall b :: 0 <= b < numBuckets ==> BucketOk(b))
    }

    ghost predicate Valid()
      reads this, Repr
    {
      && HeapOk()
      && ChainsOk(chains) && Represents(chains, model)
      && numElements == |model| == TotalLength(chains)
    }

    /** AllocateHashTable with at least one bucket: every bucket gets an empty list of its own. */
    constructor (numBuckets: nat)
      requires numBuckets > 0
      ensures Valid() && fresh(Repr) && this.numBuckets == numBuckets && model == map[]
    {
      var lists, owners := EmptyLists<KeyValue<V>>(numBuckets);
      this.numBuckets, this.buckets := numBuckets, lists;
      numElements, chains, model := 0, seq(numBuckets, _ => []), map[];
      owner := owners;
      Repr := {lists} + set b | 0 <= b < numBuckets :: lists[b];
      new;
      EmptyTotal(chains);
      assert forall b :: 0 <= b < numBuckets ==> BucketOk(b);
    }

    /** A bucket shares no memory with any other. */
    lemma BucketIsApart(b: nat, list: LinkedList<KeyValue<V>>)
      requires HeapOk() && b < numBuckets && list == buckets[b]
      ensures BucketOk(b)
      ensures forall c :: 0 <= c < numBuckets && c != b ==> BucketOk(c) && buckets[c] != list
      ensures forall c, i :: 0 <= c < numBuckets && c != b && 0 <= i < |buckets[c].nodes| ==>
                buckets[c].nodes[i] !in list.nodes
    {
      assert BucketOk(b);
      forall c | 0 <= c < numBuckets && c != b
        ensures BucketOk(c) && buckets[c] != list
        ensures forall i :: 0 <= i < |buckets[c].nodes| ==> buckets[c].nodes[i] !in list.nodes
      {
        assert BucketOk(c);
      }
    }

    /** PushLinkedList on the chain of a bucket. */
    method PushTo(b: nat, kv: KeyValue<V>)
      requires HeapOk() && b < numBuckets
      modifies this`chains, this`Repr, this`owner, buckets[b], buckets[b].nodes
      ensures HeapOk() && fresh(Repr - old(Repr))
      ensures chains == old(chains)[b := [kv] + old(chains)[b]]
    {
      var list := buckets[b];
      BucketIsApart(b, list);
      list.Push(kv);
      chains := chains[b := [kv] + chains[b]];
      Repr := Repr + {list.head};
      owner := owner[list.head := b];
      assert forall c :: 0 <= c < numBuckets ==> BucketOk(c);
    }

    /** Storing a new pair under a cursor on the chain of a bucket. */
    method SetAt(b: nat, at: LLIter<KeyValue<V>>, kv: KeyValue<V>)
      requires HeapOk() && b < numBuckets && at.Valid() && at.list == buckets[b]
      modifies this`chains, at.node`payload, at.list`Contents
      ensures HeapOk() && at.pos < |old(chains)[b]| && chains == old(chains)[b := old(chains)[b][at.pos := kv]]
    {
      BucketIsApart(b, at.list);
      at.SetPayload(kv);
      chains := chains[b := chains[b][at.pos := kv]];
      assert forall c :: 0 <= c < numBuckets ==> BucketOk(c);
    }

    /** LLIteratorDelete under a cursor on the chain of a bucket. */
    method DeleteAt(b: nat, at: LLIter<KeyValue<V>>, dflt: KeyValue<V>)
      requires HeapOk() && b < numBuckets && at.Valid() && at.list == buckets[b] && at !in Repr
      modifies this`chains, at, at.list, at.list.nodes
      ensures HeapOk() && old(at.pos) < |old(chains)[b]|
      ensures chains == old(chains)[b := Without(old(chains)[b], old(at.pos))]
      ensures old(at.pos) < |old(buckets[b].nodes)| && buckets[b].nodes == Without(old(buckets[b].nodes), old(at.pos))
      ensures forall c :: 0 <= c < numBuckets && c != b ==> buckets[c].nodes == old(buckets[c].nodes)
    {
      ghost var p := at.pos;
      BucketIsApart(b, at.list);
      var _ := at.Delete(dflt);
      chains := chains[b := Without(chains[b], p)];
      assert forall c :: 0 <= c < numBuckets ==> BucketOk(c);
    }

    method AddPair(b: nat, kv: KeyValue<V>)
      requires Valid() && b == BucketOf(kv.key, numBuckets) && kv.key !in model
      modifies this, buckets[b], buckets[b].nodes
      ensures Valid() && fresh(Repr - old(Repr)) && model == old(model)[kv.key := kv.value]
      ensures chains == old(chains)[b := [kv] + old(chains)[b]]
    {
      InsertNew(chains, model, kv);
      numElements := numElements + 1;
      PushTo(b, kv);
      model := model[kv.key := kv.value];
    }

    method ReplacePair(b: nat, at: LLIter<KeyValue<V>>, kv: KeyValue<V>)
      requires Valid() && b == BucketOf(kv.key, numBuckets) && kv.key in model
      requires at.Valid() && at.list == buckets[b] && at.pos == IndexOf(chains[b], kv.key)
      modifies this`chains, this`model, at.node`payload, at.list`Contents
      ensures Valid() && model == old(model)[kv.key := kv.value]
      ensures at.pos < |old(chains)[b]| && chains == old(chains)[b := old(chains)[b][at.pos := kv]]
    {
      InsertOld(chains, model, kv);
      SetAt(b, at, kv);
      model := model[kv.key := kv.value];
    }

    method RemovePair(b: nat, at: LLIter<KeyValue<V>>, key: int, dflt: KeyValue<V>)
      requires Valid() && b == BucketOf(key, numBuckets) && key in model && at !in Repr
      requires at.Valid() && at.list == buckets[b] && at.pos == IndexOf(chains[b], key)
      modifies this`chains, this`model, this`numElements, at, at.list, at.list.nodes
      ensures Valid() && model == old(model) - {key} && RemovedAt(b, old(at.pos), old(chains), chains)
      ensures old(at.pos) < |old(buckets[b].nodes)| && buckets[b].nodes == Without(old(buckets[b].nodes), old(at.pos))
      ensures forall c :: 0 <= c < numBuckets && c != b ==> buckets[c].nodes == old(buckets[c].nodes)
    {
      RemoveOld(chains, model, key);
      RemovedSize(model, key);
      DeleteAt(b, at, dflt);
      numElements := numElements - 1;
      model := model - {key};
    }

    /**
     InsertHashTable, below the load at which the table would be resized: 1 if the key is new, 2 if its
     value is replaced, in which case the old pair is handed back.
     */
    method Insert(kv: KeyValue<V>) returns (ret: int, oldKeyValue: KeyValue<V>)
      requires Valid() && numElements < 3 * numBuckets
      modifies this, Repr
      ensures Valid() && fresh(Repr - old(Repr))
      ensures ret == if kv.key in old(model) then 2 else 1
      ensures model == old(model)[kv.key := kv.value]
      ensures ret == 2 ==> oldKeyValue == KeyValue(kv.key, old(model)[kv.key])
      ensures exists b: nat :: InBucket(b, kv) && IsBucket(kv.key, b, numBuckets)
      // A new pair goes to the front of its chain, an old one keeps its place.
      ensures var b := BucketOf(kv.key, numBuckets);
              var i := IndexOf(old(chains)[b], kv.key);
              && b < |old(chains)|
              && (ret == 1 ==> chains == old(chains)[b := [kv] + old(chains)[b]])
              && (ret == 2 ==> i < |old(chains)[b]| && chains == old(chains)[b := old(chains)[b][i := kv]])
    {
      var b := BucketOf(kv.key, numBuckets);
      assert BucketOk(b) && Agree(chains[b], model, kv.key);
      var success, found := Find(buckets[b], kv.key);
      oldKeyValue := kv;
      if success == 0 {
        AddPair(b, kv);
        ret := 1;
      } else {
        oldKeyValue := found.GetPayload();
        ReplacePair(b, found, KeyValue(oldKeyValue.key, kv.value));
        ret := 2;
      }
      IsInItsBucket(kv);
    }

    /** The chain of bucket b, as it is in memory, holds a pair. */
    ghost predicate InBucket(b: nat, kv: KeyValue<V>)
      requires Valid()
      reads this, Repr
    {
      b < numBuckets && kv in buckets[b].Contents
    }

    /** A pair of the map is in the bucket that its key's remainder names. */
    lemma IsInItsBucket(kv: KeyValue<V>)
      requires Valid() && kv.key in model && model[kv.key] == kv.value
      ensures exists b: nat :: InBucket(b, kv) && IsBucket(kv.key, b, numBuckets)
    {
      var b := BucketOf(kv.key, numBuckets);
      assert BucketOk(b) && Agree(chains[b], model, kv.key);
      assert chains[b][IndexOf(chains[b], kv.key)] == kv;
      BucketIsRight(kv.key, numBuckets);
      assert InBucket(b, kv);
    }

    /** LookupHashTable: 1 and the pair, or 0 if the key is absent; the table is only read. */
    method Lookup(key: int, dflt: KeyValue<V>) returns (ret: int, keyValue: KeyValue<V>)
      requires Valid()
      ensures ret == if key in model then 1 else 0
      ensures ret == 1 ==> keyValue == KeyValue(key, model[key])
    {
      var b := BucketOf(key, numBuckets);
      assert BucketOk(b) && Agree(chains[b], model, key);
      var found;
      ret, found := Find(buckets[b], key);
      keyValue := dflt;
      if ret == 1 {
        keyValue := found.GetPayload();
      }
    }

    /** The pair under a cursor of find is handed back and removed. */
    method RemoveFound(b: nat, found: LLIter<KeyValue<V>>, key: int, dflt: KeyValue<V>) returns (keyValue: KeyValue<V>)
      requires Valid() && b == BucketOf(key, numBuckets) && HasKey(chains[b], key) && found !in Repr
      requires found.Valid() && found.list == buckets[b] && found.pos == IndexOf(chains[b], key)
      modifies this`chains, this`model, this`numElements, found, found.list, found.list.nodes
      ensures Valid() && key in old(model) && keyValue == KeyValue(key, old(model)[key])
      ensures model == old(model) - {key} && RemovedAt(b, old(found.pos), old(chains), chains)
      ensures old(found.pos) < |old(buckets[b].nodes)|
      ensures buckets[b].nodes == Without(old(buckets[b].nodes), old(found.pos))
      ensures forall c :: 0 <= c < numBuckets && c != b ==> buckets[c].nodes == old(buckets[c].nodes)
    {
      assert BucketOk(b) && Agree(chains[b], model, key);
      keyValue := found.GetPayload();
      RemovePair(b, found, key, dflt);
    }

    /** RemoveFromHashTable: 1 and the pair that was removed, or 0 if the key is absent. */
    method Remove(key: int, dflt: KeyValue<V>) returns (ret: int, keyValue: KeyValue<V>)
      requires Valid()
      modifies this, Repr
      ensures Valid() && Repr == old(Repr)
      ensures ret == if key in old(model) then 1 else 0
      ensures ret == 1 ==> keyValue == KeyValue(key, old(model)[key])
      ensures model == old(model) - {key}
      ensures var b := BucketOf(key, numBuckets);
              var i := IndexOf(old(chains)[b], key);
              && (forall c :: 0 <= c < numBuckets ==> buckets[c] == old(buckets[c]))
              && (forall c :: 0 <= c < numBuckets && c != b ==> buckets[c].nodes == old(buckets[c].nodes))
              && (ret == 1 ==> RemovedAt(b, i, old(chains), chains))
              && (ret == 1 ==> i < |old(buckets[b].nodes)| && buckets[b].nodes == Without(old(buckets[b].nodes), i))
    {
      var b := BucketOf(key, numBuckets);
      assert BucketOk(b) && Agree(chains[b], model, key);
      var found;
      ret, found := Find(buckets[b], key);
      keyValue := dflt;
      if ret == 1 {
        keyValue := RemoveFound(b, found, key, dflt);
      } else {
        assert model - {key} == model;
      }
    }
  }

  /** AllocateHashTable: NULL for no buckets. */
  method AllocateHashTable<V>(numBuckets: nat) returns (ht: HashTable?<V>)
    ensures ht == null <==> numBuckets == 0
    ensures ht != null ==> ht.Valid() && fresh(ht) && fresh(ht.Repr) && ht.numBuckets == numBuckets && ht.model == map[]
  {
    if numBuckets == 0 {
      return null;
    }
    ht := new HashTable(numBuckets);
  }

  /** The chain of bucket b has lost its pair i, the other chains are as before. */
  ghost predicate RemovedAt<V>(b: nat, i: nat, before: seq<seq<KeyValue<V>>>, after: seq<seq<KeyValue<V>>>) {
    b < |before| && i < |before[b]| && after == before[b := Without(before[b], i)]
  }

  lemma {:induction false} EmptyTotal<V>(chains: seq<seq<KeyValue<V>>>)
    requires forall b :: 0 <= b < |chains| ==> chains[b] == []
    ensures TotalLength(chains) == 0
  {
    if chains != [] {
      EmptyTotal(chains[1..]);
    }
  }

  lemma RemovedSize<V>(m: map<int, V>, key: int)
    requires key in m
    ensures |m - {key}| == |m| - 1
  {
    assert (m - {key}).Keys == m.Keys - {key};
    assert |m.Keys| == |m| && |(m - {key}).Keys| == |m - {key}|;
  }

  datatype Op<V> = InsertOp(kv: KeyValue<V>) | LookupOp(key: int) | RemoveOp(key: int)

  /** A return code, with the pair handed back when there is one. */
  datatype Reply<V> = Code(ret: int) | CodeAndPair(ret: int, kv: KeyValue<V>)

  /** The same operations on a finite map. */
  ghost function MapStep<V>(m: map<int, V>, op: Op<V>): map<int, V> {
    match op
    case InsertOp(kv) => m[kv.key := kv.value]
    case LookupOp(_) => m
    case RemoveOp(key) => m - {key}
  }

  ghost function MapAfter<V>(ops: seq<Op<V>>): map<int, V> {
    if ops == [] then map[] else MapStep(MapAfter(ops[..|ops| - 1]), ops[|ops| - 1])
  }

  lemma MapAfterNext<V>(ops: seq<Op<V>>, i: nat)
    requires i < |ops|
    ensures MapAfter(ops[..i + 1]) == MapStep(MapAfter(ops[..i]), ops[i])
  {
    assert ops[..i + 1][..i] == ops[..i];
  }

  ghost function MapReply<V>(m: map<int, V>, op: Op<V>): Reply<V> {
    match op
    case InsertOp(kv) => if kv.key in m then CodeAndPair(2, KeyValue(kv.key, m[kv.key])) else Code(1)
    case LookupOp(key) => if key in m then CodeAndPair(1, KeyValue(key, m[key])) else Code(0)
    case RemoveOp(key) => if key in m then CodeAndPair(1, KeyValue(key, m[key])) else Code(0)
  }

  method Apply<V>(ht: HashTable<V>, op: Op<V>, dflt: KeyValue<V>) returns (reply: Reply<V>)
    requires ht.Valid() && (op.InsertOp? ==> ht.numElements < 3 * ht.numBuckets)
    modifies ht, ht.Repr
    ensures ht.Valid() && fresh(ht.Repr - old(ht.Repr))
    ensures reply == MapReply(old(ht.model), op)
    ensures ht.model == MapStep(old(ht.model), op)
  {
    match op {
      case InsertOp(kv) =>
        var ret, before := ht.Insert(kv);
        reply := if ret == 2 then CodeAndPair(2, before) else Code(ret);
      case LookupOp(key) =>
        var ret, kv := ht.Lookup(key, dflt);
        reply := if ret == 1 then CodeAndPair(1, kv) else Code(ret);
      case RemoveOp(key) =>
        var ret, kv := ht.Remove(key, dflt);
        reply := if ret == 1 then CodeAndPair(1, kv) else Code(ret);
    }
  }

  /** The replies so far are those of a finite map. */
  ghost predicate AnswersAsMap<V>(ops: seq<Op<V>>, replies: seq<Reply<V>>) {
    && |replies| <= |ops|
    && forall i :: 0 <= i < |replies| ==> replies[i] == MapReply(MapAfter(ops[..i]), ops[i])
  }

  lemma NextAnswer<V>(ops: seq<Op<V>>, replies: seq<Reply<V>>, reply: Reply<V>)
    requires AnswersAsMap(ops, replies) && |replies| < |ops|
    requires reply == MapReply(MapAfter(ops[..|replies|]), ops[|replies|])
    ensures AnswersAsMap(ops, replies + [reply])
  {
  }

  /** Any sequence of operations on a new table answers as a finite map does. */
  method RunOps<V>(ops: seq<Op<V>>, numBuckets: nat, dflt: KeyValue<V>) returns (replies: seq<Reply<V>>)
    requires numBuckets > 0
    requires forall i :: 0 <= i < |ops| && ops[i].InsertOp? ==> |MapAfter(ops[..i])| < 3 * numBuckets
    ensures |replies| == |ops| && AnswersAsMap(ops, replies)
  {
    var ht := new HashTable<V>(numBuckets);
    replies := [];
    for i := 0 to |ops|
      invariant ht.Valid() && fresh(ht) && fresh(ht.Repr) && ht.numBuckets == numBuckets
      invariant ht.model == MapAfter(ops[..i]) && |replies| == i && AnswersAsMap(ops, replies)
    {
      MapAfterNext(ops, i);
      var reply := Apply(ht, ops[i], dflt);
      NextAnswer(ops, replies, reply);
      replies := replies + [reply];
    }
  }
}
