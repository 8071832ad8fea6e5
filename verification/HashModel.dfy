/** The buckets of HashTable.c as sequences, and the finite map they stand for. */
module HashModel {
  import opened Sequences

  datatype KeyValue<V> = KeyValue(key: int, value: V)

  /** A key is a 64-bit word; an int stands for the word it is converted to. */
  const KEY_LIMIT: nat := 0x1_0000_0000_0000_0000

  /** HashKeyToBucketNum. */
  function BucketOf(key: int, n: nat): (b: nat)
    requires n > 0
    ensures b < n
  {
    (key % KEY_LIMIT) % n
  }

  function Times(n: int, q: int): int {
    n * q
  }

  ghost predicate Divides(n: int, x: int) {
    exists q: int :: x == Times(n, q)
  }

  /** The bucket below n that differs from the key, taken as an unsigned word of 64 bits, by a multiple of n. */
  ghost predicate IsBucket(key: int, b: nat, n: nat) {
    && b < n
    && (0 <= key < 0x1_0000_0000_0000_0000 ==> Divides(n, key - b))
    && (-0x1_0000_0000_0000_0000 <= key < 0 ==> Divides(n, key + 0x1_0000_0000_0000_0000 - b))
  }

  lemma RemainderLeaves(x: nat, n: nat)
    requires n > 0
    ensures Divides(n, x - x % n)
  {
    assert x - x % n == Times(n, x / n);
  }

  lemma WordOf(key: int)
    ensures 0 <= key < KEY_LIMIT ==> key % KEY_LIMIT == key
    ensures -0x1_0000_0000_0000_0000 <= key < 0 ==> key % KEY_LIMIT == key + KEY_LIMIT
  {
  }

  lemma BucketIsRight(key: int, n: nat)
    requires n > 0
    ensures IsBucket(key, BucketOf(key, n), n)
  {
    WordOf(key);
    RemainderLeaves(key % KEY_LIMIT, n);
  }

  /** The index of the first pair with the key, or the length of the chain. */
  function IndexOf<V>(chain: seq<KeyValue<V>>, key: int): (i: nat)
    ensures i <= |chain|
    ensures i < |chain| ==> chain[i].key == key
    ensures forall j :: 0 <= j < i ==> chain[j].key != key
  {
    if chain == [] || chain[0].key == key then 0 else 1 + IndexOf(chain[1..], key)
  }

  predicate HasKey<V>(chain: seq<KeyValue<V>>, key: int) {
    IndexOf(chain, key) < |chain|
  }

  ghost predicate UniqueKeys<V>(chain: seq<KeyValue<V>>) {
    forall i, j :: 0 <= i < j < |chain| ==> chain[i].key != chain[j].key
  }

  /** A chain for bucket b: each key at most once, and in its own bucket. */
  ghost predicate ChainOk<V>(chain: seq<KeyValue<V>>, b: nat, n: nat)
    requires n > 0
  {
    UniqueKeys(chain) && forall i :: 0 <= i < |chain| ==> BucketOf(chain[i].key, n) == b
  }

  ghost predicate ChainsOk<V>(chains: seq<seq<KeyValue<V>>>) {
    forall b :: 0 <= b < |chains| ==> ChainOk(chains[b], b, |chains|)
  }

  /** Chain and map agree on a key. */
  ghost predicate Agree<V>(chain: seq<KeyValue<V>>, m: map<int, V>, key: int) {
    && (key in m <==> HasKey(chain, key))
    && (key in m ==> m[key] == chain[IndexOf(chain, key)].value)
  }

  /** The chains hold exactly the pairs of the map. */
  ghost predicate Represents<V>(chains: seq<seq<KeyValue<V>>>, m: map<int, V>)
    requires chains != []
  {
    forall key: int :: Agree(chains[BucketOf(key, |chains|)], m, key)
  }

  ghost function TotalLength<V>(chains: seq<seq<KeyValue<V>>>): nat {
    if chains == [] then 0 else |chains[0]| + TotalLength(chains[1..])
  }

  lemma {:induction false} TotalLengthUpdate<V>(chains: seq<seq<KeyValue<V>>>, b: nat, chain: seq<KeyValue<V>>)
    requires b < |chains|
    ensures TotalLength(chains[b := chain]) == TotalLength(chains) - |chains[b]| + |chain|
  {
    if b == 0 {
      assert chains[b := chain][1..] == chains[1..];
    } else {
      TotalLengthUpdate(chains[1..], b - 1, chain);
      assert chains[b := chain][1..] == chains[1..][b - 1 := chain];
    }
  }

  lemma {:induction false} IndexIsUnique<V>(chain: seq<KeyValue<V>>, i: nat)
    requires UniqueKeys(chain) && i < |chain|
    ensures IndexOf(chain, chain[i].key) == i
  {
  }

  /** Replacing one chain so that it agrees with the new map, which changes at keys of its bucket only. */
  lemma ReplaceChain<V>(chains: seq<seq<KeyValue<V>>>, m: map<int, V>, b: nat, chain: seq<KeyValue<V>>, m': map<int, V>)
    requires chains != [] && ChainsOk(chains) && Represents(chains, m) && b < |chains|
    requires ChainOk(chain, b, |chains|)
    requires forall key: int :: BucketOf(key, |chains|) == b ==> Agree(chain, m', key)
    requires forall key: int :: BucketOf(key, |chains|) != b ==>
               (key in m <==> key in m') && (key in m ==> m[key] == m'[key])
    ensures ChainsOk(chains[b := chain]) && Represents(chains[b := chain], m')
  {
    var after := chains[b := chain];
    forall key: int
      ensures Agree(after[BucketOf(key, |after|)], m', key)
    {
      assert Agree(chains[BucketOf(key, |chains|)], m, key);
    }
  }

  /** Pushing a pair with a new key. */
  lemma InsertNew<V>(chains: seq<seq<KeyValue<V>>>, m: map<int, V>, kv: KeyValue<V>)
    requires chains != [] && ChainsOk(chains) && Represents(chains, m) && kv.key !in m
    ensures var b := BucketOf(kv.key, |chains|);
            var after := chains[b := [kv] + chains[b]];
            && ChainsOk(after) && Represents(after, m[kv.key := kv.value])
            && TotalLength(after) == TotalLength(chains) + 1
  {
    var b := BucketOf(kv.key, |chains|);
    var chain := chains[b];
    TotalLengthUpdate(chains, b, [kv] + chain);
    assert Agree(chain, m, kv.key) && ChainOk(chain, b, |chains|);
    assert ChainOk([kv] + chain, b, |chains|);
    forall key: int | BucketOf(key, |chains|) == b
      ensures Agree([kv] + chain, m[kv.key := kv.value], key)
    {
      assert Agree(chain, m, key) && ([kv] + chain)[1..] == chain;
    }
    ReplaceChain(chains, m, b, [kv] + chain, m[kv.key := kv.value]);
  }

  /** Replacing the value of a key that is present. */
  lemma InsertOld<V>(chains: seq<seq<KeyValue<V>>>, m: map<int, V>, kv: KeyValue<V>)
    requires chains != [] && ChainsOk(chains) && Represents(chains, m) && kv.key in m
    ensures var b := BucketOf(kv.key, |chains|);
            var i := IndexOf(chains[b], kv.key);
            i < |chains[b]| &&
            var after := chains[b := chains[b][i := kv]];
            && ChainsOk(after) && Represents(after, m[kv.key := kv.value])
            && TotalLength(after) == TotalLength(chains)
  {
    var b := BucketOf(kv.key, |chains|);
    var chain := chains[b];
    assert Agree(chain, m, kv.key) && ChainOk(chain, b, |chains|);
    var i := IndexOf(chain, kv.key);
    TotalLengthUpdate(chains, b, chain[i := kv]);
    forall key: int | BucketOf(key, |chains|) == b
      ensures Agree(chain[i := kv], m[kv.key := kv.value], key)
    {
      assert Agree(chain, m, key);
      SameKeysSameIndex(chain, chain[i := kv], key);
    }
    ReplaceChain(chains, m, b, chain[i := kv], m[kv.key := kv.value]);
  }

  lemma SameKeysSameIndex<V>(c: seq<KeyValue<V>>, d: seq<KeyValue<V>>, key: int)
    requires |c| == |d| && forall i :: 0 <= i < |c| ==> c[i].key == d[i].key
    ensures IndexOf(c, key) == IndexOf(d, key)
  {
  }

  /** Dropping the pair of a key that is present. */
  lemma RemoveOld<V>(chains: seq<seq<KeyValue<V>>>, m: map<int, V>, key: int)
    requires chains != [] && ChainsOk(chains) && Represents(chains, m) && key in m
    ensures var b := BucketOf(key, |chains|);
            var i := IndexOf(chains[b], key);
            i < |chains[b]| &&
            var after := chains[b := Without(chains[b], i)];
            && ChainsOk(after) && Represents(after, m - {key})
            && TotalLength(after) == TotalLength(chains) - 1
  {
    var b := BucketOf(key, |chains|);
    var chain := chains[b];
    assert Agree(chain, m, key) && ChainOk(chain, b, |chains|);
    var i := IndexOf(chain, key);
    TotalLengthUpdate(chains, b, Without(chain, i));
    DropKeepsChain(chain, i, b, |chains|);
    forall k: int | BucketOf(k, |chains|) == b
      ensures Agree(Without(chain, i), m - {key}, k)
    {
      assert Agree(chain, m, k);
      DropIndex(chain, i, k);
    }
    ReplaceChain(chains, m, b, Without(chain, i), m - {key});
  }

  lemma DropKeepsChain<V>(chain: seq<KeyValue<V>>, i: nat, b: nat, n: nat)
    requires n > 0 && ChainOk(chain, b, n) && i < |chain|
    ensures ChainOk(Without(chain, i), b, n)
  {
    var d := Without(chain, i);
    assert forall j :: 0 <= j < |d| ==> d[j] == chain[if j < i then j else j + 1];
  }

  lemma DropIndex<V>(chain: seq<KeyValue<V>>, i: nat, key: int)
    requires UniqueKeys(chain) && i < |chain|
    ensures var d := Without(chain, i);
            && (HasKey(d, key) <==> HasKey(chain, key) && key != chain[i].key)
            && (HasKey(d, key) ==> d[IndexOf(d, key)] == chain[IndexOf(chain, key)])
  {
    var d := Without(chain, i);
    assert forall j :: 0 <= j < |d| ==> d[j] == chain[if j < i then j else j + 1];
    if HasKey(chain, key) && key != chain[i].key {
      var j := IndexOf(chain, key);
      assert d[if j < i then j else j - 1] == chain[j];
    }
    if HasKey(d, key) {
      var j := IndexOf(d, key);
      IndexIsUnique(chain, if j < i then j else j + 1);
    }
  }

  /** The pairs of a list of chains, bucket after bucket. */
  ghost function Flatten<V>(chains: seq<seq<KeyValue<V>>>): seq<KeyValue<V>> {
    if chains == [] then [] else chains[0] + Flatten(chains[1..])
  }

  lemma FlattenFrom<V>(chains: seq<seq<KeyValue<V>>>, b: nat)
    requires b < |chains|
    ensures Flatten(chains[b..]) == chains[b] + Flatten(chains[b + 1..])
  {
    assert chains[b..][1..] == chains[b + 1..];
  }

  lemma {:induction false} FlattenLength<V>(chains: seq<seq<KeyValue<V>>>)
    ensures |Flatten(chains)| == TotalLength(chains)
  {
    if chains != [] {
      FlattenLength(chains[1..]);
    }
  }

  lemma {:induction false} ChainInTotal<V>(chains: seq<seq<KeyValue<V>>>, b: nat)
    requires b < |chains|
    ensures |chains[b]| <= TotalLength(chains)
  {
    if b > 0 {
      ChainInTotal(chains[1..], b - 1);
    }
  }

  lemma {:induction false} FlattenMembers<V>(chains: seq<seq<KeyValue<V>>>, kv: KeyValue<V>)
    ensures kv in Flatten(chains) <==> exists b :: 0 <= b < |chains| && kv in chains[b]
  {
    if chains != [] {
      FlattenMembers(chains[1..], kv);
      if b :| 0 <= b < |chains| && kv in chains[b] {
        assert b > 0 ==> chains[1..][b - 1] == chains[b];
      }
      if c :| 0 <= c < |chains[1..]| && kv in chains[1..][c] {
        assert chains[c + 1] == chains[1..][c];
      }
    }
  }

  /** Walking the buckets meets exactly the pairs of the map. */
  lemma FlattenIsMap<V>(chains: seq<seq<KeyValue<V>>>, m: map<int, V>, kv: KeyValue<V>)
    requires chains != [] && ChainsOk(chains) && Represents(chains, m)
    ensures kv in Flatten(chains) <==> kv.key in m && m[kv.key] == kv.value
  {
    FlattenMembers(chains, kv);
    var b := BucketOf(kv.key, |chains|);
    assert Agree(chains[b], m, kv.key) && ChainOk(chains[b], b, |chains|);
    if c :| 0 <= c < |chains| && kv in chains[c] {
      assert ChainOk(chains[c], c, |chains|);
      var i :| 0 <= i < |chains[c]| && chains[c][i] == kv;
      IndexIsUnique(chains[c], i);
    }
  }

  /** ... and each of them once. */
  lemma {:induction false} FlattenUnique<V>(chains: seq<seq<KeyValue<V>>>, from: nat, n: nat)
    requires n > 0 && forall b :: 0 <= b < |chains| ==> ChainOk(chains[b], from + b, n)
    ensures UniqueKeys(Flatten(chains))
    ensures forall i :: 0 <= i < |Flatten(chains)| ==> BucketOf(Flatten(chains)[i].key, n) >= from
  {
    if chains != [] {
      var rest := chains[1..];
      assert forall b :: 0 <= b < |rest| ==> ChainOk(chains[b + 1], from + 1 + b, n) && rest[b] == chains[b + 1];
      FlattenUnique(rest, from + 1, n);
      assert ChainOk(chains[0], from, n);
    }
  }

  /** Walking the buckets goes up in the bucket numbers. */
  ghost predicate InBucketOrder<V>(pairs: seq<KeyValue<V>>, n: nat)
    requires n > 0
  {
    forall i, j :: 0 <= i < j < |pairs| ==> BucketOf(pairs[i].key, n) <= BucketOf(pairs[j].key, n)
  }

  lemma {:induction false} FlattenInOrder<V>(chains: seq<seq<KeyValue<V>>>, from: nat, n: nat)
    requires n > 0 && forall b :: 0 <= b < |chains| ==> ChainOk(chains[b], from + b, n)
    ensures InBucketOrder(Flatten(chains), n)
  {
    if chains != [] {
      var rest := chains[1..];
      assert forall b :: 0 <= b < |rest| ==> ChainOk(chains[b + 1], from + 1 + b, n) && rest[b] == chains[b + 1];
      FlattenInOrder(rest, from + 1, n);
      FlattenUnique(rest, from + 1, n);
      assert ChainOk(chains[0], from, n);
    }
  }

  /** Keys that are themselves numbers of buckets. */
  ghost predicate SmallKeys<V>(pairs: seq<KeyValue<V>>, n: nat) {
    forall i :: 0 <= i < |pairs| ==> 0 <= pairs[i].key < n && pairs[i].key < KEY_LIMIT
  }

  /** Such keys come in increasing order. */
  lemma SmallKeysIncrease<V>(pairs: seq<KeyValue<V>>, n: nat, i: nat, j: nat)
    requires n > 0 && InBucketOrder(pairs, n) && UniqueKeys(pairs) && SmallKeys(pairs, n) && i < j < |pairs|
    ensures pairs[i].key < pairs[j].key
  {
    SmallIsOwnBucket(pairs[i].key, n);
    SmallIsOwnBucket(pairs[j].key, n);
  }

  lemma SmallIsOwnBucket(key: int, n: nat)
    requires 0 <= key < n && key < KEY_LIMIT
    ensures BucketOf(key, n) == key
  {
  }
}
