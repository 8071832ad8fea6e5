/** The iterators of HashTable.c: a bucket number and a cursor on that bucket's chain. */
module HashIterator {
  import opened Sequences
  import opened LinkedList
  import opened HashModel
  import opened HashTable

  /** The pairs from index q of bucket c on. */
  ghost function RestFrom<V>(chains: seq<seq<KeyValue<V>>>, c: nat, q: nat): seq<KeyValue<V>>
    requires c < |chains| && q <= |chains[c]|
  {
    chains[c][q..] + Flatten(chains[c + 1..])
  }

  class HTIter<V> {
    const ht: HashTable<V>
    var isValid: bool
    var bucketNum: nat
    var bucketIt: LLIter?<KeyValue<V>>

    ghost predicate Valid()
      reads this, ht, ht.Repr, bucketIt
    {
      && ht.Valid() && this !in ht.Repr
      && (isValid ==>
            && bucketNum < ht.numBuckets && bucketIt != null && bucketIt !in ht.Repr
            && bucketIt.list == ht.buckets[bucketNum]
            && 0 <= bucketIt.pos < |bucketIt.list.nodes| && bucketIt.node == bucketIt.list.nodes[bucketIt.pos])
    }

    /** The pairs still to be visited, the current one first. */
    ghost function Rest(): seq<KeyValue<V>>
      requires Valid()
      reads this, ht, ht.Repr, bucketIt
    {
      if !isValid then []
      else
        assert ht.BucketOk(bucketNum);
        RestFrom(ht.chains, bucketNum, bucketIt.pos)
    }

    /** HashTableMakeIterator. */
    constructor (ht: HashTable<V>)
      requires ht.Valid()
      ensures Valid() && this.ht == ht && Rest() == Flatten(ht.chains)
      ensures bucketIt == null || fresh(bucketIt)
    {
      this.ht := ht;
      isValid, bucketNum, bucketIt := false, 0, null;
      new;
      FlattenLength(ht.chains);
      if ht.numElements != 0 {
        var i := FirstNonEmpty(ht, 0);
        assert ht.BucketOk(i);
        isValid, bucketNum := true, i;
        bucketIt := new LLIter(ht.buckets[i], 0);
      }
    }

    /** A step to the next node of the same chain. */
    method StepInChain()
      requires Valid() && isValid && bucketIt.pos + 1 < |bucketIt.list.nodes|
      modifies bucketIt
      ensures Valid() && old(Rest()) != [] && Rest() == old(Rest())[1..] && Rest() != []
      ensures bucketIt.pos == old(bucketIt.pos) + 1
    {
      assert ht.BucketOk(bucketNum);
      TailStep(ht.chains[bucketNum], bucketIt.pos, Flatten(ht.chains[bucketNum + 1..]));
      var _ := bucketIt.Next();
    }

    /** A step from the end of a chain to the next bucket that is not empty, or past the end. */
    method StepToBucket()
      requires Valid() && isValid && bucketIt.pos + 1 == |bucketIt.list.nodes|
      modifies this
      ensures Valid() && old(Rest()) != [] && Rest() == old(Rest())[1..] && (isValid <==> Rest() != [])
      ensures isValid ==> bucketNum > old(bucketNum)
      ensures bucketIt == old(bucketIt) || fresh(bucketIt)
    {
      assert ht.BucketOk(bucketNum);
      var i := FirstNonEmpty(ht, bucketNum + 1);
      bucketNum := i;
      if i >= ht.numBuckets {
        isValid := false;
        return;
      }
      assert ht.BucketOk(i);
      FlattenFrom(ht.chains, i);
      bucketIt := new LLIter(ht.buckets[i], 0);
    }

    /** HTIteratorNext: 1 if there is a next pair, 0 if the iterator is, or has now gone, past the end. */
    method Next() returns (ret: int)
      requires Valid()
      modifies this, bucketIt
      ensures Valid()
      ensures Rest() == if old(Rest()) == [] then [] else old(Rest())[1..]
      ensures ret == if Rest() == [] then 0 else 1
      ensures bucketIt == old(bucketIt) || fresh(bucketIt)
      ensures isValid ==> old(isValid)
      ensures isValid ==>
                bucketNum > old(bucketNum) || (bucketNum == old(bucketNum) && bucketIt.pos == old(bucketIt.pos) + 1)
    {
      if !isValid {
        return 0;
      }
      assert ht.BucketOk(bucketNum);
      var more := bucketIt.HasNext();
      if more {
        StepInChain();
        return 1;
      }
      StepToBucket();
      ret := if isValid then 1 else 0;
    }

    /** HTIteratorPastEnd. */
    method PastEnd() returns (end: bool)
      requires Valid()
      ensures end <==> Rest() == []
    {
      if isValid {
        assert ht.BucketOk(bucketNum);
        ChainInTotal(ht.chains, bucketNum);
      }
      end := !isValid || ht.numElements == 0;
    }

    /** HTIteratorGet: 1 and the current pair, or 0 past the end. */
    method Get(dflt: KeyValue<V>) returns (ret: int, keyValue: KeyValue<V>)
      requires Valid()
      ensures ret == if Rest() == [] then 0 else 1
      ensures ret == 1 ==> keyValue == Rest()[0]
    {
      var end := PastEnd();
      if end {
        return 0, dflt;
      }
      assert ht.BucketOk(bucketNum);
      ret := 1;
      keyValue := bucketIt.GetPayload();
    }

    /** The current pair is where a search for its key would find it. */
    lemma CurrentIsIndexed()
      requires Valid() && isValid
      ensures bucketIt.pos < |ht.chains[bucketNum]| && Rest() != []
      ensures var kv := ht.chains[bucketNum][bucketIt.pos];
              && Rest()[0] == kv && kv.key in ht.model && ht.model[kv.key] == kv.value
              && BucketOf(kv.key, ht.numBuckets) == bucketNum
              && IndexOf(ht.chains[bucketNum], kv.key) == bucketIt.pos
    {
      assert ht.BucketOk(bucketNum);
      var kv := ht.chains[bucketNum][bucketIt.pos];
      assert ChainOk(ht.chains[bucketNum], bucketNum, |ht.chains|);
      IndexIsUnique(ht.chains[bucketNum], bucketIt.pos);
      assert Agree(ht.chains[bucketNum], ht.model, kv.key);
    }

    /**
     HTIteratorDelete: advance, then remove the pair that was current.  0 past the end, 2 if the pair
     was the last, else 1.
     */
    method Delete(dflt: KeyValue<V>) returns (ret: int, keyValue: KeyValue<V>)
      requires Valid()
      modifies this, bucketIt, ht, ht.Repr
      ensures Valid() && ht.Repr == old(ht.Repr) && (bucketIt == old(bucketIt) || fresh(bucketIt))
      ensures ret == if old(Rest()) == [] then 0 else if Rest() == [] then 2 else 1
      ensures ret == 0 ==> ht.model == old(ht.model) && Rest() == []
      ensures ret > 0 ==> keyValue == old(Rest())[0] && Rest() == old(Rest())[1..]
      ensures ret > 0 ==> keyValue.key in old(ht.model) && ht.model == old(ht.model) - {keyValue.key}
    {
      var kv;
      ret, kv := Get(dflt);
      keyValue := kv;
      if ret == 0 {
        return;
      }
      CurrentIsIndexed();
      ghost var b, p := bucketNum, bucketIt.pos;
      var res := Next();
      ret := if res == 0 then 2 else 1;
      keyValue := RemoveBehind(kv, b, p, dflt);
    }

    /** Removing the pair that the iterator has just left does not disturb what lies ahead of it. */
    method RemoveBehind(kv: KeyValue<V>, ghost b: nat, ghost p: nat, dflt: KeyValue<V>) returns (removed: KeyValue<V>)
      requires Valid() && kv.key in ht.model && ht.model[kv.key] == kv.value
      requires b == BucketOf(kv.key, ht.numBuckets) && p == IndexOf(ht.chains[b], kv.key)
      requires isValid ==> bucketNum > b || (bucketNum == b && bucketIt.pos == p + 1)
      modifies bucketIt, ht, ht.Repr
      ensures Valid() && Rest() == old(Rest()) && ht.Repr == old(ht.Repr)
      ensures ht.model == old(ht.model) - {kv.key} && removed == kv
    {
      ghost var chains := ht.chains;
      assert isValid ==> ht.BucketOk(bucketNum);
      var _, stored := ht.Remove(kv.key, dflt);
      removed := stored;
      if isValid {
        RestKept(chains, ht.chains, b, p, bucketNum, bucketIt.pos);
        assert ht.BucketOk(bucketNum);
        bucketIt.pos := if bucketNum == b then p else bucketIt.pos;
      }
    }
  }

  lemma TailStep<T>(c: seq<T>, p: nat, rest: seq<T>)
    requires p < |c|
    ensures (c[p..] + rest)[1..] == c[p + 1..] + rest
  {
  }

  /** Removing pair p of bucket b leaves what lies behind it as it was, one place further to the front. */
  lemma RestKept<V>(chains: seq<seq<KeyValue<V>>>, after: seq<seq<KeyValue<V>>>, b: nat, p: nat, c: nat, q: nat)
    requires RemovedAt(b, p, chains, after) && c < |chains| && q <= |chains[c]|
    requires c > b || (c == b && q == p + 1)
    ensures (if c == b then p else q) <= |after[c]|
    ensures RestFrom(after, c, if c == b then p else q) == RestFrom(chains, c, q)
  {
    assert after[c + 1..] == chains[c + 1..];
    if c == b {
      assert after[c][p..] == chains[c][q..];
    }
  }

  /** The loops that look for the next bucket with an element. */
  method FirstNonEmpty<V>(ht: HashTable<V>, start: nat) returns (i: nat)
    requires ht.Valid() && start <= ht.numBuckets
    ensures start <= i <= ht.numBuckets
    ensures Flatten(ht.chains[start..]) == Flatten(ht.chains[i..])
    ensures i < ht.numBuckets ==> ht.chains[i] != []
  {
    i := start;
    while i < ht.numBuckets
      invariant start <= i <= ht.numBuckets
      invariant Flatten(ht.chains[start..]) == Flatten(ht.chains[i..])
    {
      assert ht.BucketOk(i);
      if ht.buckets[i].numElements > 0 {
        return;
      }
      FlattenFrom(ht.chains, i);
      i := i + 1;
    }
  }

  /** The pairs are those of the map, each of them once. */
  ghost predicate ExactlyPairsOf<V>(rest: seq<KeyValue<V>>, m: map<int, V>) {
    && UniqueKeys(rest)
    && (forall i :: 0 <= i < |rest| ==> rest[i].key in m && m[rest[i].key] == rest[i].value)
    && forall key :: key in m ==> exists i :: 0 <= i < |rest| && rest[i].key == key
  }

  lemma AllAheadAtStart<V>(chains: seq<seq<KeyValue<V>>>, m: map<int, V>)
    requires chains != [] && ChainsOk(chains) && Represents(chains, m)
    ensures ExactlyPairsOf(Flatten(chains), m)
  {
    FlattenUnique(chains, 0, |chains|);
    var all := Flatten(chains);
    forall i | 0 <= i < |all|
      ensures all[i].key in m && m[all[i].key] == all[i].value
    {
      FlattenIsMap(chains, m, all[i]);
    }
    forall key | key in m
      ensures exists i :: 0 <= i < |all| && all[i].key == key
    {
      FlattenIsMap(chains, m, KeyValue(key, m[key]));
    }
  }

  lemma AheadAfterDelete<V>(rest: seq<KeyValue<V>>, m: map<int, V>)
    requires ExactlyPairsOf(rest, m) && rest != []
    ensures ExactlyPairsOf(rest[1..], m - {rest[0].key})
  {
    forall key | key in m - {rest[0].key}
      ensures exists i :: 0 <= i < |rest[1..]| && rest[1..][i].key == key
    {
      var i :| 0 <= i < |rest| && rest[i].key == key;
      assert rest[1..][i - 1] == rest[i];
    }
  }

  /** The loop a client writes: get, next, until past the end. */
  method VisitRest<V>(it: HTIter<V>, dflt: KeyValue<V>) returns (visited: seq<KeyValue<V>>)
    requires it.Valid()
    modifies it, it.bucketIt
    ensures visited == old(it.Rest())
  {
    visited := [];
    ghost var all := it.Rest();
    var end := it.PastEnd();
    while !end
      invariant it.Valid() && (it.bucketIt == old(it.bucketIt) || fresh(it.bucketIt))
      invariant visited + it.Rest() == all && (end <==> it.Rest() == [])
      decreases |it.Rest()|
    {
      var kv;
      kv, end := GetAndNext(it, dflt, visited);
      visited := visited + [kv];
    }
  }

  method GetAndNext<V>(it: HTIter<V>, dflt: KeyValue<V>, ghost visited: seq<KeyValue<V>>)
    returns (keyValue: KeyValue<V>, end: bool)
    requires it.Valid() && it.Rest() != []
    modifies it, it.bucketIt
    ensures it.Valid() && (it.bucketIt == old(it.bucketIt) || fresh(it.bucketIt))
    ensures visited + [keyValue] + it.Rest() == visited + old(it.Rest())
    ensures (end <==> it.Rest() == []) && |it.Rest()| < |old(it.Rest())|
  {
    ConsumeFirst(visited, it.Rest());
    var _, kv := it.Get(dflt);
    keyValue := kv;
    var _ := it.Next();
    end := it.PastEnd();
  }

  ghost predicate Increasing<V>(pairs: seq<KeyValue<V>>) {
    forall i, j :: 0 <= i < j < |pairs| ==> pairs[i].key < pairs[j].key
  }

  /** Keys below the number of buckets are met in increasing order. */
  lemma SmallKeysInOrder<V>(chains: seq<seq<KeyValue<V>>>)
    requires chains != [] && ChainsOk(chains)
    ensures SmallKeys(Flatten(chains), |chains|) ==> Increasing(Flatten(chains))
  {
    var all := Flatten(chains);
    FlattenInOrder(chains, 0, |chains|);
    FlattenUnique(chains, 0, |chains|);
    if SmallKeys(all, |chains|) {
      forall i, j | 0 <= i < j < |all|
        ensures all[i].key < all[j].key
      {
        SmallKeysIncrease(all, |chains|, i, j);
      }
    }
  }

  /** A fresh iterator, walked to the end, meets each pair of the map exactly once, bucket after bucket. */
  method VisitAll<V>(ht: HashTable<V>, dflt: KeyValue<V>) returns (visited: seq<KeyValue<V>>)
    requires ht.Valid()
    ensures ExactlyPairsOf(visited, ht.model)
    ensures SmallKeys(visited, ht.numBuckets) ==> Increasing(visited)
  {
    AllAheadAtStart(ht.chains, ht.model);
    SmallKeysInOrder(ht.chains);
    var it := new HTIter(ht);
    visited := VisitRest(it, dflt);
  }

  method DeleteNext<V>(it: HTIter<V>, dflt: KeyValue<V>, ghost removed: seq<KeyValue<V>>)
    returns (ret: int, keyValue: KeyValue<V>)
    requires it.Valid() && ExactlyPairsOf(it.Rest(), it.ht.model)
    modifies it, it.bucketIt, it.ht, it.ht.Repr
    ensures it.Valid() && (it.bucketIt == old(it.bucketIt) || fresh(it.bucketIt)) && it.ht.Repr == old(it.ht.Repr)
    ensures ExactlyPairsOf(it.Rest(), it.ht.model) && (ret == 0 <==> old(it.Rest()) == [])
    ensures ret == 0 ==> it.Rest() == []
    ensures ret != 0 ==> removed + [keyValue] + it.Rest() == removed + old(it.Rest())
    ensures ret != 0 ==> |it.Rest()| < |old(it.Rest())| && ret == if it.Rest() == [] then 2 else 1
  {
    ghost var rest, m := it.Rest(), it.ht.model;
    var kv;
    ret, kv := it.Delete(dflt);
    keyValue := kv;
    if ret != 0 {
      AheadAfterDelete(rest, m);
      ConsumeFirst(removed, rest);
    }
  }

  /** Deleting through an iterator until nothing is left ahead of it. */
  method DeleteRest<V>(it: HTIter<V>, dflt: KeyValue<V>) returns (removed: seq<KeyValue<V>>, codes: seq<int>)
    requires it.Valid() && ExactlyPairsOf(it.Rest(), it.ht.model)
    modifies it, it.bucketIt, it.ht, it.ht.Repr
    ensures it.Valid() && removed == old(it.Rest()) && ExactlyPairsOf([], it.ht.model) && |codes| == |removed|
    ensures forall i :: 0 <= i < |codes| ==> codes[i] == if i + 1 < |codes| then 1 else 2
  {
    removed, codes := [], [];
    ghost var all := it.Rest();
    while true
      invariant it.Valid() && (it.bucketIt == old(it.bucketIt) || fresh(it.bucketIt)) && it.ht.Repr == old(it.ht.Repr)
      invariant removed + it.Rest() == all && ExactlyPairsOf(it.Rest(), it.ht.model) && |codes| == |removed|
      invariant forall i :: 0 <= i < |codes| ==> codes[i] == if i + 1 < |all| then 1 else 2
      decreases |it.Rest()|
    {
      var ret, kv := DeleteNext(it, dflt, removed);
      if ret == 0 {
        return;
      }
      removed, codes := removed + [kv], codes + [ret];
    }
  }

  /**
   Deleting all pairs through an iterator: each pair of the map is handed back exactly once, code 2
   comes with the last one only, and the table is left empty.
   */
  method DeleteAll<V>(ht: HashTable<V>, dflt: KeyValue<V>) returns (removed: seq<KeyValue<V>>, codes: seq<int>)
    requires ht.Valid()
    modifies ht, ht.Repr
    ensures ht.Valid() && ht.model == map[] && ht.numElements == 0
    ensures ExactlyPairsOf(removed, old(ht.model)) && |codes| == |removed|
    ensures SmallKeys(removed, ht.numBuckets) ==> Increasing(removed)
    ensures forall i :: 0 <= i < |codes| ==> codes[i] == if i + 1 < |codes| then 1 else 2
  {
    SmallKeysInOrder(ht.chains);
    AllAheadAtStart(ht.chains, ht.model);
    var it := new HTIter(ht);
    removed, codes := DeleteRest(it, dflt);
    assert forall key :: key !in ht.model;
  }
}
