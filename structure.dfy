/**
 * The linked structure of a `CHash` as values, and what each step of the
 * table does to it. A node is an id into a store of parallel sequences; a
 * `Hash_t*` is a `Ptr`; `heads` is the contents of the bucket array, `next`
 * the `Next` field of every node, `keys` their keys. Ghost bookkeeping ties
 * the links to a value: `cs[b]` lists the ids of bucket `b` in link order and
 * `loc[id]` is the (bucket, position) of node `id`.
 */
module Structure {
  import opened Buckets
  import opened Recycling

  /** A `Hash_t*`: `None` is nullptr, `Some(id)` the node with that id. */
  type Ptr = Option<NodeId>

  /** The head `head` and the `Next` links `next` spell out exactly the chain `c`. */
  ghost predicate Linked(next: seq<Ptr>, c: Chain, head: Ptr)
  {
    && (if c == [] then head == None else head == Some(c[0]))
    && (forall j :: 0 <= j < |c| ==> c[j] < |next|)
    && forall j {:trigger next[c[j]]} :: 0 <= j < |c| ==> next[c[j]] == (if j + 1 < |c| then Some(c[j + 1]) else None)
  }

  /** A bucket array of `n` null heads. */
  function NoHeads(n: nat): (h: seq<Ptr>)
    ensures |h| == n && forall k :: 0 <= k < n ==> h[k] == None
  {
    seq(n, _ => None)
  }

  /** Every bucket of the array leads to its chain. */
  ghost predicate Wired(heads: seq<Ptr>, cs: seq<Chain>, next: seq<Ptr>)
  {
    |heads| == |cs| && forall k :: 0 <= k < |cs| ==> Linked(next, cs[k], heads[k])
  }

  /** The last node of a chain: where a walk to its end stops (`pPrevHashRecord`). */
  function Tail(c: Chain): Ptr
  {
    if c == [] then None else Some(c[|c| - 1])
  }

  /** Each node of the chains knows its own position. */
  ghost predicate Tagged(cs: seq<Chain>, loc: seq<(nat, nat)>)
  {
    forall k, m {:trigger cs[k][m]} :: 0 <= k < |cs| && 0 <= m < |cs[k]| ==> cs[k][m] < |loc| && loc[cs[k][m]] == (k, m)
  }

  /** The last node of a chain is a node the positions know. */
  lemma TailPlaced(cs: seq<Chain>, loc: seq<(nat, nat)>, b: nat)
    requires Tagged(cs, loc) && b < |cs|
    ensures Tail(cs[b]).Some? ==> Tail(cs[b]).value < |loc|
  {
    if cs[b] != [] {
      assert cs[b][|cs[b]| - 1] < |loc|;
    }
  }

  /** Each of the nodes `0 .. n-1` is found in the chains at the position it knows. */
  ghost predicate Covered(cs: seq<Chain>, loc: seq<(nat, nat)>, n: nat)
  {
    forall id :: 0 <= id < n ==>
      id < |loc| && loc[id].0 < |cs| && loc[id].1 < |cs[loc[id].0]| && cs[loc[id].0][loc[id].1] == id
  }

  /** Each node sits in the bucket its key hashes to. */
  ghost predicate InBuckets(cs: seq<Chain>, keys: seq<Key>, hash: Hasher)
  {
    forall k, m :: 0 <= k < |cs| && 0 <= m < |cs[k]| ==> cs[k][m] < |keys| && Bucket(hash, keys[cs[k][m]], |cs|) == k
  }

  /**
   * The structural invariant of the table: the bucket array and the links
   * spell out the chains, every stored node is in exactly one chain at one
   * position, in the bucket of its key, and no key is stored twice.
   */
  ghost predicate WellFormed(heads: seq<Ptr>, cs: seq<Chain>, loc: seq<(nat, nat)>, next: seq<Ptr>, keys: seq<Key>, hash: Hasher)
  {
    && |next| == |keys| == |loc|
    && Wired(heads, cs, next)
    && Tagged(cs, loc)
    && Covered(cs, loc, |keys|)
    && InBuckets(cs, keys, hash)
    && UniqueKeys(keys)
  }

  /**
   * The statistics agree with the chains: `total` records, `used` non-empty
   * buckets, and a `longest` walk no longer than the longest chain.
   */
  ghost predicate Tally(cs: seq<Chain>, total: nat, used: nat, longest: nat)
  {
    total == |Flatten(cs)| && used == CountNonEmpty(cs) && longest <= Longest(cs)
  }

  /** Linking a node into bucket `b` counts one more record, and one more used bucket when `b` was empty. */
  lemma TallyAfterLink(cs: seq<Chain>, total: nat, used: nat, longest: nat, b: nat, x: NodeId)
    requires Tally(cs, total, used, longest) && b < |cs|
    ensures Tally(cs[b := cs[b] + [x]], total + 1, used + (if cs[b] == [] then 1 else 0), longest)
  {
    FlattenAppend(cs, b, x);
    CountNonEmptyAppend(cs, b, x);
    LongestGrows(cs, b, cs[b] + [x]);
  }

  /** The bucket array after linking node `x` at the tail of bucket `b`, whose last node is `prev`. */
  function LinkHead(heads: seq<Ptr>, b: nat, prev: Ptr, x: NodeId): seq<Ptr>
    requires b < |heads|
  {
    if prev.None? then heads[b := Some(x)] else heads
  }

  /** The links after the same step: `prev`'s `Next` now points to `x`. */
  function LinkNext(next: seq<Ptr>, prev: Ptr, x: NodeId): seq<Ptr>
    requires prev.Some? ==> prev.value < |next|
  {
    if prev.None? then next else next[prev.value := Some(x)]
  }

  /** A chain ending in a node without successor, linked at the tail of bucket `b`, extends that chain. */
  lemma LinkWired(heads: seq<Ptr>, cs: seq<Chain>, loc: seq<(nat, nat)>, next: seq<Ptr>, b: nat, prev: Ptr, x: NodeId)
    requires Wired(heads, cs, next) && Tagged(cs, loc) && b < |cs| && prev == Tail(cs[b]) && x < |next| && next[x] == None
    requires forall k, m :: 0 <= k < |cs| && 0 <= m < |cs[k]| ==> cs[k][m] != x
    ensures prev.Some? ==> prev.value < |next|
    ensures Wired(LinkHead(heads, b, prev, x), cs[b := cs[b] + [x]], LinkNext(next, prev, x))
  {
    assert Linked(next, cs[b], heads[b]);
    var heads', cs', next' := LinkHead(heads, b, prev, x), cs[b := cs[b] + [x]], LinkNext(next, prev, x);
    forall k | 0 <= k < |cs'|
      ensures Linked(next', cs'[k], heads'[k])
    {
      assert Linked(next, cs[k], heads[k]);
      var c := cs'[k];
      forall j | 0 <= j < |c|
        ensures c[j] < |next'| && next'[c[j]] == (if j + 1 < |c| then Some(c[j + 1]) else None)
      {
        if k != b || j < |cs[b]| {
          assert c[j] == cs[k][j];
          assert next[c[j]] == (if j + 1 < |cs[k]| then Some(cs[k][j + 1]) else None);
          if prev.Some? && c[j] == prev.value {
            assert loc[cs[b][|cs[b]| - 1]] == (b, |cs[b]| - 1);
          }
        }
      }
    }
  }

  /** Clearing the link of a node that is in no chain leaves every chain as it was. */
  lemma DetachWired(heads: seq<Ptr>, cs: seq<Chain>, next: seq<Ptr>, x: NodeId)
    requires Wired(heads, cs, next) && x < |next|
    requires forall k, m :: 0 <= k < |cs| && 0 <= m < |cs[k]| ==> cs[k][m] != x
    ensures Wired(heads, cs, next[x := None])
  {
    forall k | 0 <= k < |cs|
      ensures Linked(next[x := None], cs[k], heads[k])
    {
      assert Linked(next, cs[k], heads[k]);
    }
  }

  /** A new node, with no successor, at the end of the store changes no chain. */
  lemma ExtendWired(heads: seq<Ptr>, cs: seq<Chain>, next: seq<Ptr>)
    requires Wired(heads, cs, next)
    ensures Wired(heads, cs, next + [None]) && (next + [None])[|next|] == None
  {
    forall k | 0 <= k < |cs|
      ensures Linked(next + [None], cs[k], heads[k])
    {
      assert Linked(next, cs[k], heads[k]);
    }
  }

  /** Node `x`, in no chain so far, appended to bucket `b` knows its new position. */
  lemma LinkTagged(cs: seq<Chain>, loc: seq<(nat, nat)>, b: nat, x: NodeId)
    requires Tagged(cs, loc) && b < |cs| && x < |loc|
    requires forall k, m :: 0 <= k < |cs| && 0 <= m < |cs[k]| ==> cs[k][m] != x
    ensures Tagged(cs[b := cs[b] + [x]], loc[x := (b, |cs[b]|)])
  {
    var cs', loc' := cs[b := cs[b] + [x]], loc[x := (b, |cs[b]|)];
    forall k, m | 0 <= k < |cs'| && 0 <= m < |cs'[k]|
      ensures cs'[k][m] < |loc'| && loc'[cs'[k][m]] == (k, m)
    {
      if k != b || m < |cs[b]| {
        assert cs'[k][m] == cs[k][m];
      }
    }
  }

  /** A node appended to the store and linked at the tail of bucket `b` is found where it was put. */
  lemma CoveredAfterLink(cs: seq<Chain>, loc: seq<(nat, nat)>, loc': seq<(nat, nat)>, n: nat, b: nat)
    requires Covered(cs, loc, n) && b < |cs| && |loc| == n
    requires |loc'| == n + 1 && loc'[n] == (b, |cs[b]|)
    requires forall id :: 0 <= id < n ==> loc'[id] == loc[id]
    ensures Covered(cs[b := cs[b] + [n]], loc', n + 1)
  {
    var cs' := cs[b := cs[b] + [n]];
    forall id | 0 <= id < n + 1
      ensures loc'[id].0 < |cs'| && loc'[id].1 < |cs'[loc'[id].0]| && cs'[loc'[id].0][loc'[id].1] == id
    {
      if id < n {
        assert loc'[id] == loc[id];
      }
    }
  }

  /** A node whose key hashes to bucket `b` may be appended to that bucket. */
  lemma InBucketsAfterLink(cs: seq<Chain>, keys: seq<Key>, hash: Hasher, b: nat, key: Key)
    requires InBuckets(cs, keys, hash) && b < |cs| && Bucket(hash, key, |cs|) == b
    ensures InBuckets(cs[b := cs[b] + [|keys|]], keys + [key], hash)
  {
    var cs', keys' := cs[b := cs[b] + [|keys|]], keys + [key];
    forall k, m | 0 <= k < |cs'| && 0 <= m < |cs'[k]|
      ensures cs'[k][m] < |keys'| && Bucket(hash, keys'[cs'[k][m]], |cs'|) == k
    {
      if k != b || m < |cs[b]| {
        assert cs'[k][m] == cs[k][m];
      }
    }
  }

  /** A stored node is in none of the chains, so in particular the next id is in none. */
  lemma FreshIdNowhere(cs: seq<Chain>, loc: seq<(nat, nat)>, keys: seq<Key>, hash: Hasher)
    requires InBuckets(cs, keys, hash)
    ensures forall k, m :: 0 <= k < |cs| && 0 <= m < |cs[k]| ==> cs[k][m] != |keys|
  {
  }

  /**
   * The insertion step of `LookupPointer` keeps the structural invariant: a
   * key not yet stored, put in a new node at the end of the store with no
   * successor and linked at the tail of its own bucket.
   */
  lemma InsertWellFormed(heads: seq<Ptr>, cs: seq<Chain>, loc: seq<(nat, nat)>, next: seq<Ptr>, keys: seq<Key>, hash: Hasher,
                         b: nat, prev: Ptr, key: Key)
    requires WellFormed(heads, cs, loc, next, keys, hash) && |cs| > 0
    requires b == Bucket(hash, key, |cs|) && key !in keys && prev == Tail(cs[b])
    ensures prev.Some? ==> prev.value < |next| + 1
    ensures WellFormed(LinkHead(heads, b, prev, |keys|), cs[b := cs[b] + [|keys|]],
                       (loc + [(0, 0)])[|keys| := (b, |cs[b]|)], LinkNext(next + [None], prev, |keys|),
                       keys + [key], hash)
  {
    var x := |keys|;
    FreshIdNowhere(cs, loc, keys, hash);
    ExtendWired(heads, cs, next);
    LinkWired(heads, cs, loc, next + [None], b, prev, x);
    assert Tagged(cs, loc + [(0, 0)]);
    LinkTagged(cs, loc + [(0, 0)], b, x);
    CoveredAfterLink(cs, loc, (loc + [(0, 0)])[x := (b, |cs[b]|)], x, b);
    InBucketsAfterLink(cs, keys, hash, b, key);
    UniqueKeysAppend(keys, key);
  }

  /** A bucket array of `n` empty buckets and no nodes is well formed, with every statistic zero. */
  lemma EmptyWellFormed(n: nat, hash: Hasher)
    ensures WellFormed(NoHeads(n), NoChains(n), [], [], [], hash)
    ensures Tally(NoChains(n), 0, 0, 0)
  {
    NoChainsAreEmpty(n);
  }

  /** With the structural invariant, a stored key is in the chain of its own bucket. */
  lemma StoredInOwnBucket(heads: seq<Ptr>, cs: seq<Chain>, loc: seq<(nat, nat)>, next: seq<Ptr>, keys: seq<Key>, hash: Hasher,
                          key: Key)
    requires WellFormed(heads, cs, loc, next, keys, hash) && |cs| > 0
    ensures key in keys <==> exists m :: 0 <= m < |cs[Bucket(hash, key, |cs|)]| && keys[cs[Bucket(hash, key, |cs|)][m]] == key
  {
    var b := Bucket(hash, key, |cs|);
    if key in keys {
      var id :| 0 <= id < |keys| && keys[id] == key;
      assert cs[loc[id].0][loc[id].1] == id;
      assert keys[cs[b][loc[id].1]] == key;
    }
  }

  /** Position `pos` of the old bucket array comes before position `(i, j)` in sweep order. */
  predicate Before(pos: (nat, nat), i: nat, j: nat)
  {
    pos.0 < i || (pos.0 == i && pos.1 < j)
  }

  /** The nodes a resize has moved once it stands at position `(i, j)` of the old chains `oc`. */
  function Swept(oc: seq<Chain>, i: nat, j: nat): seq<NodeId>
    requires i <= |oc| && (i < |oc| ==> j <= |oc[i]|)
  {
    Flatten(oc[..i]) + (if i < |oc| then oc[i][..j] else [])
  }

  /**
   * The links of a resize standing at position `(i, j)` of the old chains
   * `oc`: the new bucket array `heads` and links `next` spell out the chains
   * `cs`, which hold only nodes swept so far, and every node not yet swept
   * keeps its old link from `next0`.
   */
  ghost predicate NewLinks(oc: seq<Chain>, oldLoc: seq<(nat, nat)>, next0: seq<Ptr>,
                           heads: seq<Ptr>, cs: seq<Chain>, loc: seq<(nat, nat)>, next: seq<Ptr>, i: nat, j: nat)
  {
    && |cs| > 0 && |next| == |loc| == |oldLoc| == |next0|
    && Wired(heads, cs, next)
    && Tagged(cs, loc)
    && (forall k, m :: 0 <= k < |cs| && 0 <= m < |cs[k]| ==> Before(oldLoc[cs[k][m]], i, j))
    && (forall k, m {:trigger oc[k][m]} :: 0 <= k < |oc| && 0 <= m < |oc[k]| && !Before((k, m), i, j) ==>
          oc[k][m] < |next| && next[oc[k][m]] == next0[oc[k][m]])
  }

  /** Every node swept so far is found in `cs` at its new position, in the bucket of its key. */
  ghost predicate NewPlaces(oldLoc: seq<(nat, nat)>, keys: seq<Key>, hash: Hasher, cs: seq<Chain>, loc: seq<(nat, nat)>, i: nat, j: nat)
  {
    && |loc| == |keys| == |oldLoc|
    && (forall id :: 0 <= id < |keys| && Before(oldLoc[id], i, j) ==>
          loc[id].0 < |cs| && loc[id].1 < |cs[loc[id].0]| && cs[loc[id].0][loc[id].1] == id)
    && InBuckets(cs, keys, hash)
  }

  /**
   * The new chains are exactly the nodes swept so far split by new bucket, in
   * sweep order, and the statistics count them.
   */
  ghost predicate NewCounts(oc: seq<Chain>, keys: seq<Key>, hash: Hasher, cs: seq<Chain>, total: nat, used: nat, longest: nat, i: nat, j: nat)
  {
    && i <= |oc| && (if i < |oc| then j <= |oc[i]| else j == 0) && |cs| > 0
    && IdsIn(Swept(oc, i, j), keys)
    && cs == Rehash(Swept(oc, i, j), keys, hash, |cs|)
    && Tally(cs, total, used, longest) && longest == LongestWalk(cs)
  }

  /**
   * A resize standing at position `(i, j)` of the old chains `oc` (old bucket
   * array `oldHeads`, old positions `oldLoc`, old links `next0`), with new
   * bucket array `heads`, links `next`, chains `cs`, positions `loc` and
   * statistics `total`, `used`, `longest`.
   */
  ghost predicate Migrating(oldHeads: seq<Ptr>, oc: seq<Chain>, oldLoc: seq<(nat, nat)>, next0: seq<Ptr>, keys: seq<Key>, hash: Hasher,
                            heads: seq<Ptr>, cs: seq<Chain>, loc: seq<(nat, nat)>, next: seq<Ptr>,
                            total: nat, used: nat, longest: nat, i: nat, j: nat)
  {
    && WellFormed(oldHeads, oc, oldLoc, next0, keys, hash)
    && NewLinks(oc, oldLoc, next0, heads, cs, loc, next, i, j)
    && NewPlaces(oldLoc, keys, hash, cs, loc, i, j)
    && NewCounts(oc, keys, hash, cs, total, used, longest, i, j)
  }

  /** Before the sweep: an empty array of `n` buckets, zeroed statistics, the links untouched. */
  lemma StartMigrating(oldHeads: seq<Ptr>, oc: seq<Chain>, oldLoc: seq<(nat, nat)>, next0: seq<Ptr>, keys: seq<Key>, hash: Hasher,
                       n: nat)
    requires WellFormed(oldHeads, oc, oldLoc, next0, keys, hash) && n > 0
    ensures Migrating(oldHeads, oc, oldLoc, next0, keys, hash, NoHeads(n), NoChains(n), oldLoc, next0, 0, 0, 0, 0, 0)
  {
    NoChainsAreEmpty(n);
    RehashEmpty(keys, hash, n);
    if |oc| > 0 {
      assert Swept(oc, 0, 0) == [];
    }
    assert forall k, m :: 0 <= k < |oc| && 0 <= m < |oc[k]| ==> oc[k][m] < |next0| by {
      assert Tagged(oc, oldLoc);
    }
  }

  /** Moving node `x` at `(i, j)` keeps the links right; `x`'s old link is still the one the sweep follows. */
  lemma MoveLinks(oc: seq<Chain>, oldLoc: seq<(nat, nat)>, next0: seq<Ptr>,
                  heads: seq<Ptr>, cs: seq<Chain>, loc: seq<(nat, nat)>, next: seq<Ptr>, i: nat, j: nat, b: nat, prev: Ptr)
    requires NewLinks(oc, oldLoc, next0, heads, cs, loc, next, i, j) && Tagged(oc, oldLoc)
    requires i < |oc| && j < |oc[i]| && b < |cs| && prev == Tail(cs[b])
    ensures var x := oc[i][j];
            && x < |next| && next[x] == next0[x]
            && (prev.Some? ==> prev.value < |next|)
            && NewLinks(oc, oldLoc, next0, LinkHead(heads, b, prev, x), cs[b := cs[b] + [x]], loc[x := (b, |cs[b]|)],
                        LinkNext(next[x := None], prev, x), i, j + 1)
  {
    var x := oc[i][j];
    assert oldLoc[x] == (i, j);
    assert notIn: forall k, m :: 0 <= k < |cs| && 0 <= m < |cs[k]| ==> cs[k][m] != x by {
      forall k, m | 0 <= k < |cs| && 0 <= m < |cs[k]|
        ensures cs[k][m] != x
      {
        assert Before(oldLoc[cs[k][m]], i, j);
      }
    }
    DetachWired(heads, cs, next, x);
    LinkWired(heads, cs, loc, next[x := None], b, prev, x);
    LinkTagged(cs, loc, b, x);
    var cs', next' := cs[b := cs[b] + [x]], LinkNext(next[x := None], prev, x);
    forall k, m | 0 <= k < |oc| && 0 <= m < |oc[k]| && !Before((k, m), i, j + 1)
      ensures oc[k][m] < |next'| && next'[oc[k][m]] == next0[oc[k][m]]
    {
      assert oldLoc[oc[k][m]] == (k, m);
      if prev.Some? {
        assert cs[b][|cs[b]| - 1] == prev.value;
        assert Before(oldLoc[prev.value], i, j);
      }
    }
    forall k, m | 0 <= k < |cs'| && 0 <= m < |cs'[k]|
      ensures Before(oldLoc[cs'[k][m]], i, j + 1)
    {
      if k != b || m < |cs[b]| {
        assert cs'[k][m] == cs[k][m];
      }
    }
  }

  /** Moving node `x` at `(i, j)` to bucket `b`, the bucket of its key, keeps every swept node findable. */
  lemma MovePlaces(oc: seq<Chain>, oldLoc: seq<(nat, nat)>, keys: seq<Key>, hash: Hasher, cs: seq<Chain>, loc: seq<(nat, nat)>,
                   i: nat, j: nat, b: nat)
    requires NewPlaces(oldLoc, keys, hash, cs, loc, i, j) && Covered(oc, oldLoc, |keys|) && Tagged(oc, oldLoc)
    requires i < |oc| && j < |oc[i]| && oc[i][j] < |keys| && |cs| > 0 && b == Bucket(hash, keys[oc[i][j]], |cs|)
    ensures NewPlaces(oldLoc, keys, hash, cs[b := cs[b] + [oc[i][j]]], loc[oc[i][j] := (b, |cs[b]|)], i, j + 1)
  {
    var x := oc[i][j];
    var cs', loc' := cs[b := cs[b] + [x]], loc[x := (b, |cs[b]|)];
    assert oldLoc[x] == (i, j);
    forall id | 0 <= id < |keys| && Before(oldLoc[id], i, j + 1)
      ensures loc'[id].0 < |cs'| && loc'[id].1 < |cs'[loc'[id].0]| && cs'[loc'[id].0][loc'[id].1] == id
    {
      if id != x {
        assert Before(oldLoc[id], i, j) by {
          assert oc[oldLoc[id].0][oldLoc[id].1] == id;
        }
      }
    }
    forall k, m | 0 <= k < |cs'| && 0 <= m < |cs'[k]|
      ensures cs'[k][m] < |keys| && Bucket(hash, keys[cs'[k][m]], |cs'|) == k
    {
      if k != b || m < |cs[b]| {
        assert cs'[k][m] == cs[k][m];
      }
    }
  }

  /** Moving node `x` at `(i, j)` extends the rehashed sweep by `x` and counts it. */
  lemma MoveCounts(oc: seq<Chain>, keys: seq<Key>, hash: Hasher, cs: seq<Chain>, total: nat, used: nat, longest: nat,
                   i: nat, j: nat)
    requires NewCounts(oc, keys, hash, cs, total, used, longest, i, j)
    requires i < |oc| && j < |oc[i]| && oc[i][j] < |keys|
    ensures var x := oc[i][j];
            var b := Bucket(hash, keys[x], |cs|);
            NewCounts(oc, keys, hash, cs[b := cs[b] + [x]], total + 1, used + (if cs[b] == [] then 1 else 0), Max(longest, |cs[b]|), i, j + 1)
  {
    var x := oc[i][j];
    var b := Bucket(hash, keys[x], |cs|);
    assert Swept(oc, i, j + 1) == Swept(oc, i, j) + [x] by {
      assert oc[i][..j + 1] == oc[i][..j] + [x];
    }
    RehashAppend(Swept(oc, i, j), x, keys, hash, |cs|);
    FlattenAppend(cs, b, x);
    CountNonEmptyAppend(cs, b, x);
    LongestBounds(cs, b);
    LongestGrows(cs, b, cs[b] + [x]);
    LongestWalkAppend(cs, b, x);
  }

  /**
   * At position `(i, j)` of a resize, the next node to move is a valid node
   * whose link is still its old one, and the new structure is wired.
   */
  lemma MoveReady(oldHeads: seq<Ptr>, oc: seq<Chain>, oldLoc: seq<(nat, nat)>, next0: seq<Ptr>, keys: seq<Key>, hash: Hasher,
                  heads: seq<Ptr>, cs: seq<Chain>, loc: seq<(nat, nat)>, next: seq<Ptr>,
                  total: nat, used: nat, longest: nat, i: nat, j: nat)
    requires Migrating(oldHeads, oc, oldLoc, next0, keys, hash, heads, cs, loc, next, total, used, longest, i, j)
    requires i < |oc| && j < |oc[i]|
    ensures |cs| > 0 && Wired(heads, cs, next)
    ensures oc[i][j] < |keys| && oc[i][j] < |next| && oc[i][j] < |loc|
    ensures next[oc[i][j]] == next0[oc[i][j]]
    ensures next0[oc[i][j]] == if j + 1 < |oc[i]| then Some(oc[i][j + 1]) else None
  {
    assert Linked(next0, oc[i], oldHeads[i]);
    assert Tagged(oc, oldLoc);
  }

  /** Having swept all of chain `i` is having reached the head of chain `i + 1`. */
  lemma ChainDone(oldHeads: seq<Ptr>, oc: seq<Chain>, oldLoc: seq<(nat, nat)>, next0: seq<Ptr>, keys: seq<Key>, hash: Hasher,
                  heads: seq<Ptr>, cs: seq<Chain>, loc: seq<(nat, nat)>, next: seq<Ptr>,
                  total: nat, used: nat, longest: nat, i: nat, i': nat)
    requires i < |oc| && i' == i + 1
    requires Migrating(oldHeads, oc, oldLoc, next0, keys, hash, heads, cs, loc, next, total, used, longest, i, |oc[i]|)
    ensures Migrating(oldHeads, oc, oldLoc, next0, keys, hash, heads, cs, loc, next, total, used, longest, i', 0)
  {
    LinksAtChainEnd(oc, oldLoc, next0, heads, cs, loc, next, i, i');
    PlacesAtChainEnd(oc, oldLoc, keys, hash, cs, loc, i, i');
    CountsAtChainEnd(oc, keys, hash, cs, total, used, longest, i, i');
  }

  /** Every position before the end of chain `i` comes before the head of chain `i'`, and the converse. */
  lemma LinksAtChainEnd(oc: seq<Chain>, oldLoc: seq<(nat, nat)>, next0: seq<Ptr>,
                        heads: seq<Ptr>, cs: seq<Chain>, loc: seq<(nat, nat)>, next: seq<Ptr>, i: nat, i': nat)
    requires i < |oc| && i' == i + 1
    requires NewLinks(oc, oldLoc, next0, heads, cs, loc, next, i, |oc[i]|)
    ensures NewLinks(oc, oldLoc, next0, heads, cs, loc, next, i', 0)
  {
  }

  /** The nodes placed at the end of chain `i` are those placed at the head of chain `i'`. */
  lemma PlacesAtChainEnd(oc: seq<Chain>, oldLoc: seq<(nat, nat)>, keys: seq<Key>, hash: Hasher, cs: seq<Chain>, loc: seq<(nat, nat)>,
                         i: nat, i': nat)
    requires i < |oc| && i' == i + 1 && Covered(oc, oldLoc, |keys|)
    requires NewPlaces(oldLoc, keys, hash, cs, loc, i, |oc[i]|)
    ensures NewPlaces(oldLoc, keys, hash, cs, loc, i', 0)
  {
  }

  /** The end of chain `i` and the head of chain `i'` have swept the same nodes. */
  lemma CountsAtChainEnd(oc: seq<Chain>, keys: seq<Key>, hash: Hasher, cs: seq<Chain>, total: nat, used: nat, longest: nat,
                         i: nat, i': nat)
    requires i < |oc| && i' == i + 1
    requires NewCounts(oc, keys, hash, cs, total, used, longest, i, |oc[i]|)
    ensures NewCounts(oc, keys, hash, cs, total, used, longest, i', 0)
  {
    SweptNext(oc, i);
  }

  /**
   * After the sweep the new array is well formed, its chains are exactly the
   * old sweep order split by new bucket, and every node was moved.
   */
  lemma FinishMigrating(oldHeads: seq<Ptr>, oc: seq<Chain>, oldLoc: seq<(nat, nat)>, next0: seq<Ptr>, keys: seq<Key>, hash: Hasher,
                        heads: seq<Ptr>, cs: seq<Chain>, loc: seq<(nat, nat)>, next: seq<Ptr>,
                        total: nat, used: nat, longest: nat)
    requires Migrating(oldHeads, oc, oldLoc, next0, keys, hash, heads, cs, loc, next, total, used, longest, |oc|, 0)
    requires |Flatten(oc)| == |keys|
    ensures WellFormed(heads, cs, loc, next, keys, hash)
    ensures IdsIn(Flatten(oc), keys) && cs == Rehash(Flatten(oc), keys, hash, |cs|)
    ensures Tally(cs, total, used, longest) && total == |keys| && longest == LongestWalk(cs)
  {
    assert oc[..|oc|] == oc;
    assert Swept(oc, |oc|, 0) == Flatten(oc);
    RehashPermutes(Flatten(oc), keys, hash, |cs|);
    forall id | 0 <= id < |keys|
      ensures Before(oldLoc[id], |oc|, 0)
    {
      assert oc[oldLoc[id].0][oldLoc[id].1] == id;
    }
  }

  /** The linked state of a table: bucket heads, chains, positions, links and statistics. */
  datatype Table = Table(heads: seq<Ptr>, chains: seq<Chain>, loc: seq<(nat, nat)>, next: seq<Ptr>,
                         total: nat, used: nat, longest: nat)

  /** A resize before it moves any node: `n` empty buckets, zeroed statistics, the old positions and links. */
  function EmptyTable(n: nat, oldLoc: seq<(nat, nat)>, next0: seq<Ptr>): Table
  {
    Table(NoHeads(n), NoChains(n), oldLoc, next0, 0, 0, 0)
  }

  /** Node `x` can be moved: the table holds it, and the tail of the bucket of its key is a node it holds. */
  predicate Movable(t: Table, keys: seq<Key>, hash: Hasher, x: NodeId)
  {
    && x < |keys| && x < |t.next| && x < |t.loc| && 0 < |t.chains| == |t.heads|
    && var prev := Tail(t.chains[Bucket(hash, keys[x], |t.chains|)]);
       prev.Some? ==> prev.value < |t.next|
  }

  /**
   * One step of a resize: node `x` loses its successor and is linked at the
   * tail of the bucket of its key, which counts one more record.
   */
  function Moved(t: Table, keys: seq<Key>, hash: Hasher, x: NodeId): Table
    requires Movable(t, keys, hash, x)
  {
    var b := Bucket(hash, keys[x], |t.chains|);
    var prev := Tail(t.chains[b]);
    Table(LinkHead(t.heads, b, prev, x), t.chains[b := t.chains[b] + [x]], t.loc[x := (b, |t.chains[b]|)],
          LinkNext(t.next[x := None], prev, x), t.total + 1, t.used + (if t.chains[b] == [] then 1 else 0),
          Max(t.longest, |t.chains[b]|))
  }

  /** `Moved`, where it applies; a node that cannot be moved leaves the table as it is. */
  function Move(t: Table, keys: seq<Key>, hash: Hasher, x: NodeId): Table
  {
    if Movable(t, keys, hash, x) then Moved(t, keys, hash, x) else t
  }

  /** The table after moving the nodes `xs`, first to last. */
  function MoveAll(t: Table, keys: seq<Key>, hash: Hasher, xs: seq<NodeId>): Table
  {
    if xs == [] then t else Move(MoveAll(t, keys, hash, xs[..|xs| - 1]), keys, hash, xs[|xs| - 1])
  }

  /** Sweeping one node further moves that node. */
  lemma MoveAllStep(t: Table, keys: seq<Key>, hash: Hasher, oc: seq<Chain>, i: nat, j: nat)
    requires i < |oc| && j < |oc[i]|
    ensures MoveAll(t, keys, hash, Swept(oc, i, j + 1)) == Move(MoveAll(t, keys, hash, Swept(oc, i, j)), keys, hash, oc[i][j])
  {
    assert oc[i][..j + 1] == oc[i][..j] + [oc[i][j]];
    assert Swept(oc, i, j + 1)[..|Swept(oc, i, j + 1)| - 1] == Swept(oc, i, j);
  }

  /** Sweeping all of chain `i` is standing at the head of chain `i + 1`. */
  lemma SweptNext(oc: seq<Chain>, i: nat)
    requires i < |oc|
    ensures Swept(oc, i, |oc[i]|) == Swept(oc, i + 1, 0)
  {
    FlattenPrefix(oc, i);
    assert oc[i][..|oc[i]|] == oc[i];
  }

  /**
   * One step of the sweep keeps it going: node `x`, the one at `(i, j)`, moved
   * to the tail of its new bucket `b` (whose last node is `prev`) with its
   * link cleared.
   */
  lemma MoveStepParts(oldHeads: seq<Ptr>, oc: seq<Chain>, oldLoc: seq<(nat, nat)>, next0: seq<Ptr>, keys: seq<Key>, hash: Hasher,
                      heads: seq<Ptr>, cs: seq<Chain>, loc: seq<(nat, nat)>, next: seq<Ptr>,
                      total: nat, used: nat, longest: nat, i: nat, j: nat, x: NodeId, b: nat, prev: Ptr)
    requires Migrating(oldHeads, oc, oldLoc, next0, keys, hash, heads, cs, loc, next, total, used, longest, i, j)
    requires i < |oc| && j < |oc[i]| && x == oc[i][j] && x < |keys|
    requires b == Bucket(hash, keys[x], |cs|) && prev == Tail(cs[b])
    ensures prev.Some? ==> prev.value < |next|
    ensures Migrating(oldHeads, oc, oldLoc, next0, keys, hash,
                      LinkHead(heads, b, prev, x), cs[b := cs[b] + [x]], loc[x := (b, |cs[b]|)], LinkNext(next[x := None], prev, x),
                      total + 1, used + (if cs[b] == [] then 1 else 0), Max(longest, |cs[b]|), i, j + 1)
  {
    MoveLinks(oc, oldLoc, next0, heads, cs, loc, next, i, j, b, prev);
    MovePlaces(oc, oldLoc, keys, hash, cs, loc, i, j, b);
    MoveCounts(oc, keys, hash, cs, total, used, longest, i, j);
  }

  /** The same step, stated on the table as one value. */
  lemma MoveStep(oldHeads: seq<Ptr>, oc: seq<Chain>, oldLoc: seq<(nat, nat)>, next0: seq<Ptr>, keys: seq<Key>, hash: Hasher,
                 heads: seq<Ptr>, cs: seq<Chain>, loc: seq<(nat, nat)>, next: seq<Ptr>,
                 total: nat, used: nat, longest: nat, i: nat, j: nat)
    requires Migrating(oldHeads, oc, oldLoc, next0, keys, hash, heads, cs, loc, next, total, used, longest, i, j)
    requires i < |oc| && j < |oc[i]|
    ensures var t' := Move(Table(heads, cs, loc, next, total, used, longest), keys, hash, oc[i][j]);
            Migrating(oldHeads, oc, oldLoc, next0, keys, hash, t'.heads, t'.chains, t'.loc, t'.next, t'.total, t'.used, t'.longest, i, j + 1)
  {
    MoveReady(oldHeads, oc, oldLoc, next0, keys, hash, heads, cs, loc, next, total, used, longest, i, j);
    var x := oc[i][j];
    var b := Bucket(hash, keys[x], |cs|);
    var prev := Tail(cs[b]);
    MoveStepParts(oldHeads, oc, oldLoc, next0, keys, hash, heads, cs, loc, next, total, used, longest, i, j, x, b, prev);
    assert Movable(Table(heads, cs, loc, next, total, used, longest), keys, hash, x);
  }

  /** Moving the node at `(i, j)` keeps the resize invariant of the nodes moved so far, at `(i, j')`, one further. */
  lemma MigratedStep(oldHeads: seq<Ptr>, oc: seq<Chain>, oldLoc: seq<(nat, nat)>, next0: seq<Ptr>, keys: seq<Key>,
                     hash: Hasher, t0: Table, i: nat, j: nat, j': nat)
    requires i < |oc| && j < |oc[i]| && j' == j + 1
    requires var t := MoveAll(t0, keys, hash, Swept(oc, i, j));
             Migrating(oldHeads, oc, oldLoc, next0, keys, hash, t.heads, t.chains, t.loc, t.next, t.total, t.used, t.longest, i, j)
    ensures var t := MoveAll(t0, keys, hash, Swept(oc, i, j'));
            Migrating(oldHeads, oc, oldLoc, next0, keys, hash, t.heads, t.chains, t.loc, t.next, t.total, t.used, t.longest, i, j')
  {
    var t := MoveAll(t0, keys, hash, Swept(oc, i, j));
    MoveStep(oldHeads, oc, oldLoc, next0, keys, hash, t.heads, t.chains, t.loc, t.next, t.total, t.used, t.longest, i, j);
    assert t == Table(t.heads, t.chains, t.loc, t.next, t.total, t.used, t.longest);
    MoveAllStep(t0, keys, hash, oc, i, j);
  }

  /** Having moved all of chain `i` is standing at the head of chain `i' = i + 1`. */
  lemma MigratedChain(oldHeads: seq<Ptr>, oc: seq<Chain>, oldLoc: seq<(nat, nat)>, next0: seq<Ptr>, keys: seq<Key>,
                      hash: Hasher, t0: Table, i: nat, i': nat)
    requires i < |oc| && i' == i + 1
    requires var t := MoveAll(t0, keys, hash, Swept(oc, i, |oc[i]|));
             Migrating(oldHeads, oc, oldLoc, next0, keys, hash, t.heads, t.chains, t.loc, t.next, t.total, t.used, t.longest, i, |oc[i]|)
    ensures var t := MoveAll(t0, keys, hash, Swept(oc, i', 0));
            Migrating(oldHeads, oc, oldLoc, next0, keys, hash, t.heads, t.chains, t.loc, t.next, t.total, t.used, t.longest, i', 0)
  {
    var t := MoveAll(t0, keys, hash, Swept(oc, i, |oc[i]|));
    ChainDone(oldHeads, oc, oldLoc, next0, keys, hash, t.heads, t.chains, t.loc, t.next, t.total, t.used, t.longest, i, i');
    SweptNext(oc, i);
  }

  /** Moving nothing leaves the empty table, where the resize invariant starts. */
  lemma MigratedStart(oldHeads: seq<Ptr>, oc: seq<Chain>, oldLoc: seq<(nat, nat)>, next0: seq<Ptr>, keys: seq<Key>,
                      hash: Hasher, n: nat)
    requires WellFormed(oldHeads, oc, oldLoc, next0, keys, hash) && n > 0
    ensures var t := MoveAll(EmptyTable(n, oldLoc, next0), keys, hash, Swept(oc, 0, 0));
            Migrating(oldHeads, oc, oldLoc, next0, keys, hash, t.heads, t.chains, t.loc, t.next, t.total, t.used, t.longest, 0, 0)
  {
    StartMigrating(oldHeads, oc, oldLoc, next0, keys, hash, n);
    assert Swept(oc, 0, 0) == [];
  }

  /**
   * Moving the nodes of the old chains in sweep order, starting from the empty
   * table, keeps the resize invariant at every position `(i, j)`.
   */
  lemma {:induction false} Migrated(oldHeads: seq<Ptr>, oc: seq<Chain>, oldLoc: seq<(nat, nat)>, next0: seq<Ptr>, keys: seq<Key>,
                                    hash: Hasher, n: nat, i: nat, j: nat)
    requires WellFormed(oldHeads, oc, oldLoc, next0, keys, hash) && n > 0
    requires i <= |oc| && (if i < |oc| then j <= |oc[i]| else j == 0)
    ensures var t := MoveAll(EmptyTable(n, oldLoc, next0), keys, hash, Swept(oc, i, j));
            Migrating(oldHeads, oc, oldLoc, next0, keys, hash, t.heads, t.chains, t.loc, t.next, t.total, t.used, t.longest, i, j)
    decreases i, j
  {
    if j > 0 {
      var k := j - 1;
      Migrated(oldHeads, oc, oldLoc, next0, keys, hash, n, i, k);
      MigratedStep(oldHeads, oc, oldLoc, next0, keys, hash, EmptyTable(n, oldLoc, next0), i, k, j);
    } else if i > 0 {
      var k := i - 1;
      Migrated(oldHeads, oc, oldLoc, next0, keys, hash, n, k, |oc[k]|);
      MigratedChain(oldHeads, oc, oldLoc, next0, keys, hash, EmptyTable(n, oldLoc, next0), k, i);
    } else {
      MigratedStart(oldHeads, oc, oldLoc, next0, keys, hash, n);
    }
  }

  /**
   * A table that is the result of moving every node of the old chains into
   * `n` empty buckets is well formed, holds the old nodes rehashed, and its
   * statistics count them; the longest walk is one less than the longest chain.
   */
  lemma MigratedAll(oldHeads: seq<Ptr>, oc: seq<Chain>, oldLoc: seq<(nat, nat)>, next0: seq<Ptr>, keys: seq<Key>, hash: Hasher, n: nat,
                    heads: seq<Ptr>, cs: seq<Chain>, loc: seq<(nat, nat)>, next: seq<Ptr>, total: nat, used: nat, longest: nat)
    requires WellFormed(oldHeads, oc, oldLoc, next0, keys, hash) && n > 0 && |Flatten(oc)| == |keys|
    requires Table(heads, cs, loc, next, total, used, longest) == MoveAll(EmptyTable(n, oldLoc, next0), keys, hash, Swept(oc, |oc|, 0))
    ensures WellFormed(heads, cs, loc, next, keys, hash)
    ensures IdsIn(Flatten(oc), keys) && 0 < |cs| && cs == Rehash(Flatten(oc), keys, hash, |cs|)
    ensures Tally(cs, total, used, longest) && total == |keys| && longest == LongestWalk(cs)
  {
    Migrated(oldHeads, oc, oldLoc, next0, keys, hash, n, |oc|, 0);
    FinishMigrating(oldHeads, oc, oldLoc, next0, keys, hash, heads, cs, loc, next, total, used, longest);
  }

  /**
   * At position `(i, j)` of a resize, the node to move is held by the table,
   * still has its old successor, and the table moved so far is wired.
   */
  lemma ReadyToMove(oldHeads: seq<Ptr>, oc: seq<Chain>, oldLoc: seq<(nat, nat)>, next0: seq<Ptr>, keys: seq<Key>,
                    hash: Hasher, n: nat, i: nat, j: nat)
    requires WellFormed(oldHeads, oc, oldLoc, next0, keys, hash) && n > 0
    requires i < |oc| && j < |oc[i]|
    ensures var t := MoveAll(EmptyTable(n, oldLoc, next0), keys, hash, Swept(oc, i, j));
            var x := oc[i][j];
            && Wired(t.heads, t.chains, t.next)
            && x < |keys| && x < |t.next| && x < |t.loc|
            && t.next[x] == if j + 1 < |oc[i]| then Some(oc[i][j + 1]) else None
  {
    Migrated(oldHeads, oc, oldLoc, next0, keys, hash, n, i, j);
    var t := MoveAll(EmptyTable(n, oldLoc, next0), keys, hash, Swept(oc, i, j));
    MoveReady(oldHeads, oc, oldLoc, next0, keys, hash, t.heads, t.chains, t.loc, t.next, t.total, t.used, t.longest, i, j);
  }

  /** The byte ranges `[a, a + alen)` and `[b, b + blen)` do not meet. */
  predicate Disjoint(a: int, alen: int, b: int, blen: int)
  {
    a + alen <= b || b + blen <= a
  }

  /**
   * Where things live in memory: the bucket array, every node and the free
   * window of the recycling cursor are pairwise disjoint and all lie below the
   * allocator's high-water mark `top`.
   */
  ghost predicate Layout(addr: seq<int>, tableAddr: int, tableBytes: int, cursor: Cursor, top: int)
  {
    && 0 <= tableAddr && tableAddr + tableBytes <= top
    && (tableBytes > 0 ==> tableAddr > 0 && tableAddr % PointerBytes == 0)
    && (forall id :: 0 <= id < |addr| ==> addr[id] + NodeBytes <= top && Disjoint(addr[id], NodeBytes, tableAddr, tableBytes))
    && (forall a, b :: 0 <= a < b < |addr| ==> Disjoint(addr[a], NodeBytes, addr[b], NodeBytes))
    && (cursor == Retired ||
         (&& Active(cursor) && cursor.free + cursor.remaining <= top
          && Disjoint(cursor.free, cursor.remaining, tableAddr, tableBytes)
          && forall id :: 0 <= id < |addr| ==> Disjoint(addr[id], NodeBytes, cursor.free, cursor.remaining)))
  }

  /** Before any node is placed, a bucket array below the allocator's mark is all there is. */
  lemma EmptyLayout(tableAddr: int, tableBytes: int, top: int)
    requires 0 <= tableAddr && tableAddr + tableBytes <= top
    requires tableBytes > 0 ==> tableAddr > 0 && tableAddr % PointerBytes == 0
    ensures Layout([], tableAddr, tableBytes, Retired, top)
  {
  }

  /** A block carved from an active window is disjoint from everything placed before it. */
  lemma LayoutAfterCarve(addr: seq<int>, tableAddr: int, tableBytes: int, c: Cursor, top: int)
    requires Layout(addr, tableAddr, tableBytes, c, top) && c != Retired
    ensures Layout(addr + [Carve(c).0], tableAddr, tableBytes, Carve(c).1, top)
  {
    CarveStaysInWindow(c);
    var addr' := addr + [Carve(c).0];
    forall a, b | 0 <= a < b < |addr'|
      ensures Disjoint(addr'[a], NodeBytes, addr'[b], NodeBytes)
    {
      assert addr'[a] == addr[a];
    }
    forall id | 0 <= id < |addr'|
      ensures addr'[id] + NodeBytes <= top && Disjoint(addr'[id], NodeBytes, tableAddr, tableBytes)
    {
      if id < |addr| {
        assert addr'[id] == addr[id];
      }
    }
    if Carve(c).1 != Retired {
      forall id | 0 <= id < |addr'|
        ensures Disjoint(addr'[id], NodeBytes, Carve(c).1.free, Carve(c).1.remaining)
      {
        if id < |addr| {
          assert addr'[id] == addr[id];
        }
      }
    }
  }

  /** A block taken from the allocator above everything placed so far is disjoint from all of it. */
  lemma LayoutAfterBump(addr: seq<int>, tableAddr: int, tableBytes: int, top: int, p: int)
    requires Layout(addr, tableAddr, tableBytes, Retired, top) && top <= p
    ensures Layout(addr + [p], tableAddr, tableBytes, Retired, p + NodeBytes)
  {
    var addr' := addr + [p];
    forall a, b | 0 <= a < b < |addr'|
      ensures Disjoint(addr'[a], NodeBytes, addr'[b], NodeBytes)
    {
      assert addr'[a] == addr[a];
    }
    forall id | 0 <= id < |addr'|
      ensures addr'[id] + NodeBytes <= p + NodeBytes && Disjoint(addr'[id], NodeBytes, tableAddr, tableBytes)
    {
      if id < |addr| {
        assert addr'[id] == addr[id];
      }
    }
  }

  /**
   * A resize places the new bucket array above everything, and the old array
   * (of `slots` buckets) becomes the recycling window; the old window, if any,
   * is abandoned.
   */
  lemma LayoutAfterGrow(addr: seq<int>, oldAddr: int, slots: nat, c: Cursor, top: int, newAddr: int, newBytes: nat)
    requires Layout(addr, oldAddr, slots * PointerBytes, c, top) && slots > 0 && slots * PointerBytes < SizeLimit
    requires top <= newAddr && newAddr % PointerBytes == 0
    ensures Layout(addr, newAddr, newBytes, OpenWindow(oldAddr, slots), newAddr + newBytes)
  {
    OpenWindowActive(oldAddr, slots);
  }
}
