/**
 * The value-level view of a `CHash` table: how a key picks its bucket, the
 * chains of node ids that the buckets hold, the counters the table keeps about
 * them, the order in which a resize redistributes nodes, and the key/value map
 * that the whole structure stands for.
 *
 * A node id is the index of a `Hash_t` record in the table's node store (see
 * the `IdentityHash` module); a chain is the sequence of ids met when walking a
 * bucket's linked list from its head through the `Next` pointers.
 */
module Buckets {

  datatype Option<T> = None | Some(value: T)

  /** A key is the raw 64-bit value of an identity pointer; it is never dereferenced. */
  type Key = k: int | 0 <= k < 0x1_0000_0000_0000_0000

  type NodeId = nat

  type Chain = seq<NodeId>

  /**
   * The Jenkins-style mix of `CHash::HashPointer`: three 64-bit words seeded
   * with the golden-ratio constant, the key added to the first, then three
   * subtract/shift/xor rounds. The result goes through `(long)` into an
   * `unsigned long`, which keeps the low 32 bits on the LLP64 target the
   * profiler is built for.
   */
  function HashPointer(p: Key): (h: nat)
    ensures h < 0x1_0000_0000
  {
    var a0: bv64 := 0x9e3779b9 + p as bv64;
    var b0: bv64 := 0x9e3779b9;
    var c0: bv64 := 0;
    var a1 := (a0 - b0 - c0) ^ (c0 >> 13);
    var b1 := (b0 - c0 - a1) ^ (a1 << 8);
    var c1 := (c0 - a1 - b1) ^ (b1 >> 13);
    var a2 := (a1 - b1 - c1) ^ (c1 >> 12);
    var b2 := (b1 - c1 - a2) ^ (a2 << 16);
    var c2 := (c1 - a2 - b2) ^ (b2 >> 5);
    var a3 := (a2 - b2 - c2) ^ (c2 >> 3);
    var b3 := (b2 - c2 - a3) ^ (a3 << 10);
    var c3 := (c2 - a3 - b3) ^ (b3 >> 15);
    ((c3 & 0xFFFF_FFFF) as bv32) as int
  }

  /**
   * A hash function on keys. The table is always built with `HashPointer`; the
   * proofs about chains hold for any hash, so they take it as a parameter.
   */
  type Hasher = Key -> nat

  /** The bucket of `key` in a table of `n` buckets: its hash reduced modulo `n`. */
  function Bucket(hash: Hasher, key: Key, n: nat): (b: nat)
    requires n > 0
    ensures b < n
  {
    hash(key) % n
  }

  /**
   * The integer form of the growth test made after every insertion: more than
   * 80% of the buckets in use, more than five records per used bucket on
   * average, or a walk that met more than ten nodes.
   */
  predicate ShouldGrow(usedSlots: nat, totalRecords: nat, maxListLength: nat, size: nat)
  {
    usedSlots > (size * 4) / 5 || totalRecords > 5 * usedSlots || maxListLength > 10
  }

  /**
   * The integer test is the source's test in exact arithmetic: used slots
   * above 0.8 of the size, a probe average above 5 (for no used slot, an
   * infinite average when there are records and no average when there are
   * none), or a walk longer than ten nodes.
   */
  lemma ShouldGrowExact(usedSlots: nat, totalRecords: nat, maxListLength: nat, size: nat)
    ensures ShouldGrow(usedSlots, totalRecords, maxListLength, size) <==>
              || usedSlots as real > size as real * 0.8
              || (if usedSlots == 0 then totalRecords > 0 else totalRecords as real / usedSlots as real > 5.0)
              || maxListLength > 10
  {
    var q, rest := (size * 4) / 5, (size * 4) % 5;
    assert size * 4 == 5 * q + rest && 0 <= rest < 5;
    assert usedSlots > q <==> 5 * usedSlots > 4 * size;
    assert (5 * usedSlots) as real == 5.0 * usedSlots as real && (4 * size) as real == 4.0 * size as real;
    assert usedSlots as real > size as real * 0.8 <==> 5.0 * usedSlots as real > 4.0 * size as real;
    if usedSlots > 0 {
      var avg, u := totalRecords as real / usedSlots as real, usedSlots as real;
      assert avg * u == totalRecords as real;
      assert (5 * usedSlots) as real == 5.0 * u;
      assert totalRecords > 5 * usedSlots <==> avg * u > 5.0 * u;
      assert avg * u - 5.0 * u == (avg - 5.0) * u;
      assert avg > 5.0 <==> (avg - 5.0) * u > 0.0;
    }
  }

  function Max(a: nat, b: nat): nat
  {
    if a < b then b else a
  }

  /** Every chain in bucket order, each in chain order: the order of every full sweep of the table. */
  function Flatten(cs: seq<Chain>): seq<NodeId>
  {
    if cs == [] then [] else Flatten(cs[..|cs| - 1]) + cs[|cs| - 1]
  }

  /** The number of buckets whose chain is not empty (`NumUsedSlots`). */
  function CountNonEmpty(cs: seq<Chain>): nat
  {
    if cs == [] then 0
    else CountNonEmpty(cs[..|cs| - 1]) + (if cs[|cs| - 1] == [] then 0 else 1)
  }

  /** The length of the longest chain. */
  function Longest(cs: seq<Chain>): nat
  {
    if cs == [] then 0 else Max(Longest(cs[..|cs| - 1]), |cs[|cs| - 1]|)
  }

  /** `n` empty buckets: a freshly allocated (zeroed) bucket array. */
  function NoChains(n: nat): (cs: seq<Chain>)
    ensures |cs| == n && forall k :: 0 <= k < n ==> cs[k] == []
  {
    seq(n, _ => [])
  }

  lemma {:induction false} NoChainsAreEmpty(n: nat)
    ensures Flatten(NoChains(n)) == []
    ensures CountNonEmpty(NoChains(n)) == 0
    ensures Longest(NoChains(n)) == 0
  {
    if n > 0 {
      assert NoChains(n)[..n - 1] == NoChains(n - 1);
      NoChainsAreEmpty(n - 1);
    }
  }

  /** Changing one chain changes the sweep by exactly the nodes taken out and put in. */
  lemma {:induction false} FlattenUpdate(cs: seq<Chain>, b: nat, c: Chain)
    requires b < |cs|
    ensures multiset(Flatten(cs[b := c])) + multiset(cs[b]) == multiset(Flatten(cs)) + multiset(c)
  {
    var n := |cs|;
    var init, last := cs[..n - 1], cs[n - 1];
    FlattenUpdateSplit(cs, b, c);
    if b < n - 1 {
      FlattenUpdate(init, b, c);
      var fi, fic := Flatten(init), Flatten(init[b := c]);
      assert multiset(Flatten(cs[b := c])) == multiset(fic) + multiset(last);
      assert multiset(Flatten(cs)) == multiset(fi) + multiset(last);
      MultisetShuffle(multiset(fic), multiset(cs[b]), multiset(fi), multiset(c), multiset(last));
    }
  }

  /** Adding the same multiset to both sides of a balance keeps it balanced. */
  lemma MultisetShuffle<T>(a: multiset<T>, b: multiset<T>, c: multiset<T>, d: multiset<T>, e: multiset<T>)
    requires a + b == c + d
    ensures (a + e) + b == (c + e) + d
  {
    calc {
      (a + e) + b;
      (a + b) + e;
      (c + d) + e;
      (c + e) + d;
    }
  }

  /** The sweep of `cs` with chain `b` replaced, split at its last bucket. */
  lemma FlattenUpdateSplit(cs: seq<Chain>, b: nat, c: Chain)
    requires b < |cs|
    ensures Flatten(cs) == Flatten(cs[..|cs| - 1]) + cs[|cs| - 1]
    ensures b == |cs| - 1 ==> Flatten(cs[b := c]) == Flatten(cs[..|cs| - 1]) + c
    ensures b < |cs| - 1 ==> cs[..|cs| - 1][b] == cs[b] && Flatten(cs[b := c]) == Flatten(cs[..|cs| - 1][b := c]) + cs[|cs| - 1]
  {
    var n := |cs|;
    if b == n - 1 {
      assert cs[b := c][..n - 1] == cs[..n - 1];
    } else {
      assert cs[b := c][..n - 1] == cs[..n - 1][b := c];
    }
  }

  /** Appending `x` to one chain adds exactly `x` to the sweep. */
  lemma FlattenAppend(cs: seq<Chain>, b: nat, x: NodeId)
    requires b < |cs|
    ensures multiset(Flatten(cs[b := cs[b] + [x]])) == multiset(Flatten(cs)) + multiset{x}
    ensures |Flatten(cs[b := cs[b] + [x]])| == |Flatten(cs)| + 1
  {
    var c := cs[b] + [x];
    var after := Flatten(cs[b := c]);
    FlattenUpdate(cs, b, c);
    assert multiset(c) == multiset(cs[b]) + multiset{x};
    var lhs, rhs := multiset(after) + multiset(cs[b]), multiset(Flatten(cs)) + multiset(c);
    forall y
      ensures multiset(after)[y] == (multiset(Flatten(cs)) + multiset{x})[y]
    {
      assert lhs[y] == rhs[y];
      assert lhs[y] == multiset(after)[y] + multiset(cs[b])[y];
      assert rhs[y] == multiset(Flatten(cs))[y] + multiset(cs[b])[y] + multiset{x}[y];
    }
    assert multiset(after) == multiset(Flatten(cs)) + multiset{x};
    calc {
      |after|;
      |multiset(after)|;
      |multiset(Flatten(cs)) + multiset{x}|;
      |multiset(Flatten(cs))| + 1;
      |Flatten(cs)| + 1;
    }
  }

  /** The sweep of the first `i + 1` buckets extends the sweep of the first `i` by bucket `i`. */
  lemma FlattenPrefix(cs: seq<Chain>, i: nat)
    requires i < |cs|
    ensures Flatten(cs[..i + 1]) == Flatten(cs[..i]) + cs[i]
  {
    assert cs[..i + 1][..i] == cs[..i];
  }

  /** The sweep of the first `i` buckets is a prefix of the sweep of the whole table. */
  lemma {:induction false} FlattenGrows(cs: seq<Chain>, i: nat)
    requires i <= |cs|
    ensures Flatten(cs[..i]) <= Flatten(cs)
  {
    if i < |cs| {
      var init := cs[..|cs| - 1];
      assert init[..i] == cs[..i];
      FlattenGrows(init, i);
    } else {
      assert cs[..i] == cs;
    }
  }

  /** One more node of chain `c` met after the sweep `done`: still a prefix of the whole sweep `all`. */
  lemma PrefixStep(done: seq<NodeId>, c: Chain, j: nat, all: seq<NodeId>)
    requires done + c <= all && j < |c|
    ensures done + c[..j + 1] == done + c[..j] + [c[j]]
    ensures done + c[..j + 1] <= all
  {
    assert c[..j + 1] == c[..j] + [c[j]];
    assert done + c[..j + 1] <= done + c;
  }

  /** `NumUsedSlots` grows by one exactly when the chain appended to was empty. */
  lemma {:induction false} CountNonEmptyAppend(cs: seq<Chain>, b: nat, x: NodeId)
    requires b < |cs|
    ensures CountNonEmpty(cs[b := cs[b] + [x]]) == CountNonEmpty(cs) + (if cs[b] == [] then 1 else 0)
  {
    var n := |cs|;
    if b == n - 1 {
      assert cs[b := cs[b] + [x]][..n - 1] == cs[..n - 1];
    } else {
      assert cs[b := cs[b] + [x]][..n - 1] == cs[..n - 1][b := cs[b] + [x]];
      CountNonEmptyAppend(cs[..n - 1], b, x);
    }
  }

  /** No more buckets are used than exist, and every used bucket holds at least one record. */
  lemma {:induction false} CountNonEmptyBounds(cs: seq<Chain>)
    ensures CountNonEmpty(cs) <= |cs|
    ensures CountNonEmpty(cs) <= |Flatten(cs)|
  {
    if cs != [] {
      CountNonEmptyBounds(cs[..|cs| - 1]);
    }
  }

  /** Every chain is at most as long as the longest one. */
  lemma {:induction false} LongestBounds(cs: seq<Chain>, k: nat)
    requires k < |cs|
    ensures |cs[k]| <= Longest(cs)
  {
    if k < |cs| - 1 {
      assert cs[..|cs| - 1][k] == cs[k];
      LongestBounds(cs[..|cs| - 1], k);
    }
  }

  /** Lengthening a chain never shortens the longest chain. */
  lemma {:induction false} LongestGrows(cs: seq<Chain>, b: nat, c: Chain)
    requires b < |cs| && |cs[b]| <= |c|
    ensures Longest(cs) <= Longest(cs[b := c])
  {
    var n := |cs|;
    if b == n - 1 {
      assert cs[b := c][..n - 1] == cs[..n - 1];
    } else {
      assert cs[b := c][..n - 1] == cs[..n - 1][b := c];
      LongestGrows(cs[..n - 1], b, c);
    }
  }

  /**
   * The longest walk a tail insertion into `cs` met: one less than the
   * longest chain, or 0 when every chain is empty (`MaxListLength` after a
   * resize).
   */
  function LongestWalk(cs: seq<Chain>): nat
  {
    if Longest(cs) == 0 then 0 else Longest(cs) - 1
  }

  /** Appending to chain `b` makes the longest chain the longer of the old longest and the new chain. */
  lemma {:induction false} LongestAppend(cs: seq<Chain>, b: nat, x: NodeId)
    requires b < |cs|
    ensures Longest(cs[b := cs[b] + [x]]) == Max(Longest(cs), |cs[b]| + 1)
  {
    var n, c := |cs|, cs[b] + [x];
    if b == n - 1 {
      assert cs[b := c][..n - 1] == cs[..n - 1];
    } else {
      assert cs[b := c][..n - 1] == cs[..n - 1][b := c];
      LongestAppend(cs[..n - 1], b, x);
    }
  }

  /**
   * A tail insertion into chain `b` walks its `|cs[b]|` nodes: the longest
   * walk becomes the larger of that walk and the longest one before.
   */
  lemma LongestWalkAppend(cs: seq<Chain>, b: nat, x: NodeId)
    requires b < |cs|
    ensures LongestWalk(cs[b := cs[b] + [x]]) == Max(LongestWalk(cs), |cs[b]|)
  {
    LongestAppend(cs, b, x);
    LongestBounds(cs, b);
  }

  /** Every id of `order` names a record of a store holding `keys`. */
  predicate IdsIn(order: seq<NodeId>, keys: seq<Key>)
  {
    forall m :: 0 <= m < |order| ==> order[m] < |keys|
  }

  /** Every chain of `cs` holds only ids of a store holding `keys`. */
  predicate ChainsIn(cs: seq<Chain>, keys: seq<Key>)
  {
    forall k, m :: 0 <= k < |cs| && 0 <= m < |cs[k]| ==> cs[k][m] < |keys|
  }

  /** A sweep meets only ids that the chains hold. */
  lemma {:induction false} FlattenIdsIn(cs: seq<Chain>, keys: seq<Key>)
    requires ChainsIn(cs, keys)
    ensures IdsIn(Flatten(cs), keys)
  {
    if cs != [] {
      var init := cs[..|cs| - 1];
      assert ChainsIn(init, keys) by {
        forall k, m | 0 <= k < |init| && 0 <= m < |init[k]| ensures init[k][m] < |keys| {
          assert init[k] == cs[k];
        }
      }
      FlattenIdsIn(init, keys);
    }
  }

  /**
   * The ids of `order` whose key falls in bucket `k` of `n`, in the order they
   * appear in `order`: the chain a resize builds for bucket `k` when it moves
   * the nodes of `order` one by one to the tail of their new bucket.
   */
  function FilterBucket(order: seq<NodeId>, keys: seq<Key>, hash: Hasher, n: nat, k: nat): (c: Chain)
    requires n > 0 && IdsIn(order, keys)
  {
    if order == [] then []
    else
      var last := order[|order| - 1];
      FilterBucket(order[..|order| - 1], keys, hash, n, k) + (if Bucket(hash, keys[last], n) == k then [last] else [])
  }

  /** The `n` chains a resize builds from the nodes of `order`. */
  function Rehash(order: seq<NodeId>, keys: seq<Key>, hash: Hasher, n: nat): (cs: seq<Chain>)
    requires n > 0 && IdsIn(order, keys)
    ensures |cs| == n
  {
    seq(n, k requires 0 <= k < n => FilterBucket(order, keys, hash, n, k))
  }

  /** Moving one more node appends it to the tail of its own bucket and leaves every other chain alone. */
  lemma RehashAppend(order: seq<NodeId>, x: NodeId, keys: seq<Key>, hash: Hasher, n: nat)
    requires n > 0 && IdsIn(order, keys) && x < |keys|
    ensures IdsIn(order + [x], keys)
    ensures Rehash(order + [x], keys, hash, n)
         == Rehash(order, keys, hash, n)[Bucket(hash, keys[x], n) := Rehash(order, keys, hash, n)[Bucket(hash, keys[x], n)] + [x]]
  {
    var b := Bucket(hash, keys[x], n);
    var before, after := Rehash(order, keys, hash, n), Rehash(order + [x], keys, hash, n);
    assert (order + [x])[..|order|] == order;
    forall k | 0 <= k < n
      ensures after[k] == before[b := before[b] + [x]][k]
    {
      assert after[k] == FilterBucket(order + [x], keys, hash, n, k);
      assert before[k] == FilterBucket(order, keys, hash, n, k);
    }
  }

  lemma RehashEmpty(keys: seq<Key>, hash: Hasher, n: nat)
    requires n > 0
    ensures Rehash([], keys, hash, n) == NoChains(n)
  {
  }

  /** A resize neither loses, duplicates nor invents a node: its chains hold exactly the nodes moved. */
  lemma {:induction false} RehashPermutes(order: seq<NodeId>, keys: seq<Key>, hash: Hasher, n: nat)
    requires n > 0 && IdsIn(order, keys)
    ensures multiset(Flatten(Rehash(order, keys, hash, n))) == multiset(order)
    ensures |Flatten(Rehash(order, keys, hash, n))| == |order|
  {
    if order == [] {
      RehashEmpty(keys, hash, n);
      NoChainsAreEmpty(n);
    } else {
      var init, x := order[..|order| - 1], order[|order| - 1];
      assert order == init + [x];
      RehashPermutes(init, keys, hash, n);
      RehashAppend(init, x, keys, hash, n);
      FlattenAppend(Rehash(init, keys, hash, n), Bucket(hash, keys[x], n), x);
    }
  }

  /** After a resize every node sits in the bucket its key hashes to under the new size. */
  lemma {:induction false} RehashPlacesByBucket(order: seq<NodeId>, keys: seq<Key>, hash: Hasher, n: nat, k: nat, m: nat)
    requires n > 0 && IdsIn(order, keys) && k < n
    requires m < |Rehash(order, keys, hash, n)[k]|
    ensures Rehash(order, keys, hash, n)[k][m] < |keys|
    ensures Bucket(hash, keys[Rehash(order, keys, hash, n)[k][m]], n) == k
  {
    var init, x := order[..|order| - 1], order[|order| - 1];
    assert IdsIn(init, keys);
    if m < |FilterBucket(init, keys, hash, n, k)| {
      RehashPlacesByBucket(init, keys, hash, n, k, m);
    }
  }

  /** The chain built from a prefix of `order` is a prefix of the chain built from all of it. */
  lemma {:induction false} FilterBucketPrefix(order: seq<NodeId>, keys: seq<Key>, hash: Hasher, n: nat, k: nat, i: nat)
    requires n > 0 && IdsIn(order, keys) && i <= |order|
    ensures IdsIn(order[..i], keys)
    ensures FilterBucket(order[..i], keys, hash, n, k) <= FilterBucket(order, keys, hash, n, k)
    decreases |order|
  {
    if i < |order| {
      var init := order[..|order| - 1];
      assert order[..i] == init[..i];
      FilterBucketPrefix(init, keys, hash, n, k, i);
    } else {
      assert order[..i] == order;
    }
  }

  /**
   * A resize keeps the relative order of the nodes that land in the same
   * bucket: of two such nodes, the one moved first comes first in the chain.
   */
  lemma RehashKeepsOrder(order: seq<NodeId>, keys: seq<Key>, hash: Hasher, n: nat, a: nat, b: nat)
    requires n > 0 && IdsIn(order, keys) && a < b < |order|
    requires Bucket(hash, keys[order[a]], n) == Bucket(hash, keys[order[b]], n)
    ensures var c := Rehash(order, keys, hash, n)[Bucket(hash, keys[order[a]], n)];
            exists p, q :: 0 <= p < q < |c| && c[p] == order[a] && c[q] == order[b]
  {
    var k := Bucket(hash, keys[order[a]], n);
    var c := Rehash(order, keys, hash, n)[k];
    FilterBucketPrefix(order, keys, hash, n, k, a + 1);
    FilterBucketPrefix(order, keys, hash, n, k, b);
    FilterBucketPrefix(order, keys, hash, n, k, b + 1);
    FilterBucketPrefix(order[..b], keys, hash, n, k, a + 1);
    assert order[..b][..a + 1] == order[..a + 1];
    assert order[..a + 1][..a] == order[..a] && order[..b + 1][..b] == order[..b];
    var fa := FilterBucket(order[..a + 1], keys, hash, n, k);
    var fb := FilterBucket(order[..b + 1], keys, hash, n, k);
    assert fa == FilterBucket(order[..a], keys, hash, n, k) + [order[a]];
    assert fb == FilterBucket(order[..b], keys, hash, n, k) + [order[b]];
    var p, q := |fa| - 1, |fb| - 1;
    assert c[p] == fa[p] && c[q] == fb[q];
  }

  /** None of the nodes `keys` holds `key`; checked from the last node back. */
  predicate Absent(key: Key, keys: seq<Key>)
  {
    keys == [] || (keys[|keys| - 1] != key && Absent(key, keys[..|keys| - 1]))
  }

  /** `Absent` is non-membership. */
  lemma {:induction false} AbsentIsNotIn(key: Key, keys: seq<Key>)
    ensures Absent(key, keys) <==> key !in keys
  {
    if keys != [] {
      var init := keys[..|keys| - 1];
      AbsentIsNotIn(key, init);
      assert keys == init + [keys[|keys| - 1]];
    }
  }

  /**
   * Keys are unique across the store: at most one node per identity pointer.
   * Stated node by node, each key absent from the nodes before it;
   * `KeysDiffer` gives the pairwise form.
   */
  predicate UniqueKeys(keys: seq<Key>)
  {
    keys == [] || (UniqueKeys(keys[..|keys| - 1]) && Absent(keys[|keys| - 1], keys[..|keys| - 1]))
  }

  /** Two nodes of a store with unique keys hold the same key exactly when they are the same node. */
  lemma {:induction false} KeysDiffer(keys: seq<Key>, a: nat, b: nat)
    requires UniqueKeys(keys) && a < |keys| && b < |keys|
    ensures keys[a] == keys[b] <==> a == b
  {
    var init := keys[..|keys| - 1];
    AbsentIsNotIn(keys[|keys| - 1], init);
    if a < |keys| - 1 && b < |keys| - 1 {
      KeysDiffer(init, a, b);
      assert init[a] == keys[a] && init[b] == keys[b];
    } else if a < |keys| - 1 {
      assert keys[a] == init[a];
    } else if b < |keys| - 1 {
      assert keys[b] == init[b];
    }
  }

  /** A store with unique keys stays so when a node with a key it lacks is added. */
  lemma UniqueKeysAppend(keys: seq<Key>, key: Key)
    requires UniqueKeys(keys) && key !in keys
    ensures UniqueKeys(keys + [key])
  {
    AbsentIsNotIn(key, keys);
    assert (keys + [key])[..|keys|] == keys;
  }

  /** The key/value map that a node store stands for. */
  function ToMap<V>(keys: seq<Key>, values: seq<Option<V>>): map<Key, Option<V>>
    requires |keys| == |values|
  {
    if keys == [] then map[]
    else ToMap(keys[..|keys| - 1], values[..|values| - 1])[keys[|keys| - 1] := values[|values| - 1]]
  }

  /** The map holds exactly the stored keys, and with unique keys each maps to its own node's value. */
  lemma {:induction false} ToMapLookup<V>(keys: seq<Key>, values: seq<Option<V>>)
    requires |keys| == |values| && UniqueKeys(keys)
    ensures ToMap(keys, values).Keys == set k | k in keys
    ensures forall i :: 0 <= i < |keys| ==> ToMap(keys, values)[keys[i]] == values[i]
  {
    if keys != [] {
      var n := |keys|;
      var m := ToMap(keys[..n - 1], values[..n - 1]);
      assert UniqueKeys(keys[..n - 1]);
      ToMapLookup(keys[..n - 1], values[..n - 1]);
      assert ToMap(keys, values) == m[keys[n - 1] := values[n - 1]];
      forall i | 0 <= i < n
        ensures ToMap(keys, values)[keys[i]] == values[i]
      {
        if i < n - 1 {
          assert keys[..n - 1][i] == keys[i];
          assert values[..n - 1][i] == values[i];
          KeysDiffer(keys, i, n - 1);
          assert keys[i] in keys[..n - 1];
          assert m[keys[i]] == values[i];
          assert m[keys[n - 1] := values[n - 1]][keys[i]] == m[keys[i]];
          assert ToMap(keys, values)[keys[i]] == values[i];
        } else {
          assert keys[i] == keys[n - 1] && values[i] == values[n - 1];
          assert ToMap(keys, values)[keys[i]] == values[i];
        }
      }
      assert keys == keys[..n - 1] + [keys[n - 1]];
    }
  }

  /** Writing through the value slot of node `i` rebinds its key and nothing else. */
  lemma {:induction false} ToMapStore<V>(keys: seq<Key>, values: seq<Option<V>>, i: nat, v: Option<V>)
    requires |keys| == |values| && UniqueKeys(keys) && i < |keys|
    ensures ToMap(keys, values[i := v]) == ToMap(keys, values)[keys[i] := v]
  {
    var n := |keys|;
    if i == n - 1 {
      assert values[i := v][..n - 1] == values[..n - 1];
    } else {
      assert values[i := v][..n - 1] == values[..n - 1][i := v];
      assert keys[..n - 1][i] == keys[i];
      KeysDiffer(keys, i, n - 1);
      ToMapStore(keys[..n - 1], values[..n - 1], i, v);
    }
  }

  /** Storing a new node with key `k` and an empty value binds `k` to the empty value. */
  lemma ToMapAppend<V>(keys: seq<Key>, values: seq<Option<V>>, k: Key, v: Option<V>)
    requires |keys| == |values|
    ensures ToMap(keys + [k], values + [v]) == ToMap(keys, values)[k := v]
  {
    assert (keys + [k])[..|keys|] == keys;
    assert (values + [v])[..|values|] == values;
  }
}
