/**
 * `CHash<T>`: a separately chained hash table keyed by identity pointers, with
 * nodes that are never freed, growth by doubling, and reuse of a superseded
 * bucket array as storage for later nodes.
 *
 * Nodes (`Hash_t`) live in a store of parallel sequences indexed by a node id:
 * `keys[id]`, `values[id]` (the `T*` slot, `None` for nullptr), `next[id]` (the
 * `Next` link) and `addr[id]` (where the node's 24 bytes were placed). The
 * bucket array is a real array of `Ptr`, updated in place, and so are the
 * `Next` links. The ghost fields `chains` and `loc` tie the links to a value
 * (see `Structure`).
 */
module IdentityHash {
  import opened Buckets
  import opened Recycling
  import opened Allocator
  import opened Structure
  import opened Export

  /** `HashTableSize` is an `int`: the largest bucket count it can hold. */
  const MaxTableSize := 0x7FFF_FFFF

  class Hash<V> {
    /** `HashAllocator`: where the bucket arrays and the nodes come from. */
    const allocator: Arena
    /** The hash the table is built with (`HashPointer`). */
    const hashPointer: Hasher

    var tableSize: nat            // HashTableSize
    var table: array<Ptr>         // HashTable
    var tableAddr: int            // the address of the bucket array
    var keys: seq<Key>            // Hash_t::key of each node
    var values: seq<Option<V>>    // Hash_t::value of each node
    var next: seq<Ptr>            // Hash_t::Next of each node
    var addr: seq<int>            // the address of each node
    var oldTable: int             // OldHashTable (0 when nullptr)
    var oldRemaining: int         // OldHashTableFreeRemaining
    var numUsedSlots: nat         // NumUsedSlots
    var maxListLength: nat        // MaxListLength
    var numTotalRecords: nat      // NumTotalRecords

    /** The contents of the bucket array. */
    ghost var heads: seq<Ptr>
    /** The ids of each bucket's chain, head first. */
    ghost var chains: seq<Chain>
    /** The (bucket, position) of each node. */
    ghost var loc: seq<(nat, nat)>

    /** The linked structure is well formed (see `WellFormed`). */
    ghost predicate Shape()
      reads this`tableSize, this`table, table, this`heads, this`chains, this`loc, this`next, this`keys, this`values, this`addr
    {
      && table.Length == tableSize == |chains| && tableSize <= MaxTableSize && table[..] == heads
      && |values| == |addr| == |keys|
      && WellFormed(heads, chains, loc, next, keys, hashPointer)
    }

    /** The statistics agree with the chains (`MaxListLength` is a lower bound on the longest chain). */
    ghost predicate Counted()
      reads this`chains, this`keys, this`numTotalRecords, this`numUsedSlots, this`maxListLength
    {
      numTotalRecords == |keys| && Tally(chains, numTotalRecords, numUsedSlots, maxListLength)
    }

    /** The memory picture is sound (see `Layout`). */
    ghost predicate Placed()
      reads this`addr, this`tableAddr, this`tableSize, this`oldTable, this`oldRemaining, allocator
    {
      && allocator.Valid()
      && Layout(addr, tableAddr, tableSize * PointerBytes, Cursor(oldTable, oldRemaining), allocator.top)
    }

    ghost predicate Valid()
      reads this, table, allocator
    {
      Shape() && Counted() && Placed()
    }

    /**
     * Between calls no more buckets are in use than exist or than there are
     * records, and no walk was longer than the longest chain.
     */
    lemma CounterBounds()
      requires Valid()
      ensures numUsedSlots <= tableSize && numUsedSlots <= numTotalRecords
      ensures maxListLength <= Longest(chains)
    {
      CountNonEmptyBounds(chains);
    }

    /** The key/value map the table stands for. */
    ghost function Contents(): map<Key, Option<V>>
      reads this
      requires |keys| == |values|
    {
      ToMap(keys, values)
    }

    /**
     * A table of `initialSize` empty buckets (no bucket array when the size is
     * 0), with zeroed statistics and no recycling window.
     */
    constructor (allocator: Arena, initialSize: nat)
      requires allocator.Valid() && initialSize <= MaxTableSize
      modifies allocator
      ensures Valid() && fresh(table)
      ensures this.allocator == allocator && hashPointer == HashPointer
      ensures tableSize == initialSize && chains == NoChains(initialSize)
      ensures keys == [] && values == [] && Contents() == map[]
      ensures numUsedSlots == 0 && maxListLength == 0 && numTotalRecords == 0
      ensures Cursor(oldTable, oldRemaining) == Retired
    {
      this.allocator := allocator;
      hashPointer := HashPointer;
      tableSize := initialSize;
      numUsedSlots, maxListLength, numTotalRecords := 0, 0, 0;
      var at := 0;
      if initialSize > 0 {
        at := allocator.AllocateBytes(initialSize * PointerBytes);
      }
      tableAddr := at;
      table := new Ptr[initialSize](_ => None);
      keys, values, next, addr := [], [], [], [];
      oldTable, oldRemaining := 0, 0;
      heads := NoHeads(initialSize);
      chains := NoChains(initialSize);
      loc := [];
      new;
      assert table[..] == heads;
      EmptyWellFormed(initialSize, hashPointer);
      EmptyLayout(at, initialSize * PointerBytes, allocator.top);
    }

    /**
     * The first walk of `LookupPointer`: follows bucket `b` until it meets
     * `key`, raising `MaxListLength` to the number of nodes visited. On a miss
     * it ends at the chain's tail, having seen every node of the bucket.
     */
    method FindInChain(b: nat, key: Key) returns (found: Ptr, prev: Ptr, ghost j: nat)
      requires b < table.Length == |chains| && table[..] == heads && |next| == |keys| && Wired(heads, chains, next)
      modifies this`maxListLength
      ensures j <= |chains[b]|
      ensures found.Some? ==> j < |chains[b]| && found == Some(chains[b][j]) && keys[chains[b][j]] == key
      ensures found.None? ==>
                j == |chains[b]| && prev == Tail(chains[b]) && forall m :: 0 <= m < |chains[b]| ==> keys[chains[b][m]] != key
      ensures maxListLength == Max(old(maxListLength), if found.Some? then j + 1 else j)
    {
      assert Linked(next, chains[b], heads[b]);
      found, prev, j := table[b], None, 0;
      var length := 0;
      while found.Some?
        invariant j <= |chains[b]| && length == j
        invariant found == (if j < |chains[b]| then Some(chains[b][j]) else None)
        invariant prev == (if j == 0 then None else Some(chains[b][j - 1]))
        invariant forall m :: 0 <= m < j ==> keys[chains[b][m]] != key
        invariant maxListLength == Max(old(maxListLength), j)
        decreases |chains[b]| - j
      {
        length := length + 1;
        if length > maxListLength {
          maxListLength := length;
        }
        var id := found.value;
        if keys[id] == key {
          return;
        }
        prev := found;
        found := next[id];
        j := j + 1;
      }
    }

    /**
     * `AllocateFromOldHashTable`: hands out the cursor's position as a new
     * node's block and moves the cursor past it (see `Carve`). From an active
     * cursor the block lies inside the window and the new window is the rest of
     * the old one.
     */
    method AllocateFromOldHashTable() returns (block: int)
      modifies this`oldTable, this`oldRemaining
      ensures (block, Cursor(oldTable, oldRemaining)) == Carve(old(Cursor(oldTable, oldRemaining)))
      ensures old(Active(Cursor(oldTable, oldRemaining))) ==>
                && block == old(oldTable) && block + NodeBytes <= old(oldTable + oldRemaining)
                && (Cursor(oldTable, oldRemaining) == Retired ||
                     (Active(Cursor(oldTable, oldRemaining)) && oldTable == block + NodeBytes
                      && oldTable + oldRemaining == old(oldTable + oldRemaining)))
    {
      ghost var c := Cursor(oldTable, oldRemaining);
      var free := oldTable;
      var aligned := ((free + NodeBytes + PointerBytes - 1) / PointerBytes) * PointerBytes;
      oldRemaining := (oldRemaining - (aligned - free)) % SizeLimit;
      if oldRemaining >= NodeBytes {
        oldTable := aligned;
      } else {
        oldTable, oldRemaining := 0, 0;
      }
      block := free;
      if Active(c) {
        CarveStaysInWindow(c);
      }
    }

    /**
     * The block for a new node in `LookupPointer`: from the recycling window
     * while it is open, else from the allocator. Either way the block is
     * disjoint from the bucket array, every other node and what is left of the
     * window.
     */
    method AllocateNode() returns (block: int)
      requires Placed()
      modifies this`oldTable, this`oldRemaining, allocator
      ensures allocator.Valid()
      ensures Layout(addr + [block], tableAddr, tableSize * PointerBytes, Cursor(oldTable, oldRemaining), allocator.top)
      ensures old(oldTable) != 0 ==> (block, Cursor(oldTable, oldRemaining)) == Carve(old(Cursor(oldTable, oldRemaining)))
      ensures old(oldTable) == 0 ==> Cursor(oldTable, oldRemaining) == Retired && old(allocator.top) <= block
    {
      if oldTable != 0 {
        ghost var c := Cursor(oldTable, oldRemaining);
        block := AllocateFromOldHashTable();
        LayoutAfterCarve(addr, tableAddr, tableSize * PointerBytes, c, allocator.top);
      } else {
        ghost var top := allocator.top;
        block := allocator.AllocateBytes(NodeBytes);
        LayoutAfterBump(addr, tableAddr, tableSize * PointerBytes, top, block);
      }
    }

    /**
     * Links node `x` at the tail of bucket `b`, whose last node is `prev`:
     * into the bucket array when the bucket is empty (one more used slot),
     * else into `prev`'s `Next`.
     */
    method LinkAtTail(b: nat, prev: Ptr, x: NodeId)
      requires b < table.Length == |chains| && table[..] == heads && x < |loc|
      requires prev == Tail(chains[b]) && (prev.Some? ==> prev.value < |next|)
      modifies this`heads, this`next, this`chains, this`loc, this`numUsedSlots, this`numTotalRecords, table
      ensures heads == LinkHead(old(heads), b, prev, x) && table[..] == heads
      ensures next == LinkNext(old(next), prev, x)
      ensures chains == old(chains)[b := old(chains)[b] + [x]]
      ensures loc == old(loc)[x := (b, |old(chains)[b]|)]
      ensures numUsedSlots == old(numUsedSlots) + (if old(chains)[b] == [] then 1 else 0)
      ensures numTotalRecords == old(numTotalRecords) + 1
    {
      if prev.None? {
        table[b] := Some(x);
        heads := heads[b := Some(x)];
        numUsedSlots := numUsedSlots + 1;
      } else {
        next := next[prev.value := Some(x)];
      }
      numTotalRecords := numTotalRecords + 1;
      loc := loc[x := (b, |chains[b]|)];
      chains := chains[b := chains[b] + [x]];
    }

    /**
     * The insertion half of `LookupPointer` after a miss in bucket `b`, whose
     * tail is `prev`: a new node holding `key`, an empty value and no successor,
     * linked at the tail of the bucket.
     */
    method AddNode(b: nat, prev: Ptr, key: Key) returns (x: NodeId)
      requires Valid() && tableSize > 0 && b == Bucket(hashPointer, key, tableSize)
      requires key !in keys && prev == Tail(chains[b])
      modifies this`keys, this`values, this`next, this`addr, this`heads, this`loc, this`chains, this`numUsedSlots,
               this`numTotalRecords, this`oldTable, this`oldRemaining, table, allocator
      ensures Valid()
      ensures x == old(|keys|) && keys == old(keys) + [key] && values == old(values) + [None]
      ensures chains == old(chains)[b := old(chains)[b] + [x]]
      ensures numUsedSlots == old(numUsedSlots) + (if old(chains)[b] == [] then 1 else 0)
      ensures numTotalRecords == old(numTotalRecords) + 1 && table == old(table) && tableAddr == old(tableAddr)
    {
      var block := AllocateNode();
      x := AttachNode(b, prev, key, block);
    }

    /**
     * The half of `AddNode` after the allocation: the node placed at `block`
     * fits the memory picture, and linking it keeps the table valid.
     */
    method AttachNode(b: nat, prev: Ptr, key: Key, block: int) returns (x: NodeId)
      requires Shape() && Counted() && tableSize > 0 && b == Bucket(hashPointer, key, tableSize)
      requires key !in keys && prev == Tail(chains[b])
      requires allocator.Valid() && Layout(addr + [block], tableAddr, tableSize * PointerBytes, Cursor(oldTable, oldRemaining), allocator.top)
      modifies this`keys, this`values, this`next, this`addr, this`heads, this`loc, this`chains, this`numUsedSlots,
               this`numTotalRecords, table
      ensures Valid()
      ensures x == old(|keys|) && keys == old(keys) + [key] && values == old(values) + [None]
      ensures chains == old(chains)[b := old(chains)[b] + [x]]
      ensures numUsedSlots == old(numUsedSlots) + (if old(chains)[b] == [] then 1 else 0)
      ensures numTotalRecords == old(numTotalRecords) + 1
    {
      TallyAfterLink(chains, numTotalRecords, numUsedSlots, maxListLength, b, |keys|);
      x := InsertNode(b, prev, key, block);
    }

    /**
     * Stores a new node holding `key`, an empty value and no successor at
     * `block`, and links it at the tail of bucket `b`, whose last node is
     * `prev`.
     */
    method InsertNode(b: nat, prev: Ptr, key: Key, block: int) returns (x: NodeId)
      requires Shape() && tableSize > 0 && b == Bucket(hashPointer, key, tableSize)
      requires key !in keys && prev == Tail(chains[b])
      modifies this`keys, this`values, this`next, this`addr, this`heads, this`loc, this`chains, this`numUsedSlots,
               this`numTotalRecords, table
      ensures Shape()
      ensures x == old(|keys|) && keys == old(keys) + [key] && values == old(values) + [None] && addr == old(addr) + [block]
      ensures chains == old(chains)[b := old(chains)[b] + [x]]
      ensures numUsedSlots == old(numUsedSlots) + (if old(chains)[b] == [] then 1 else 0)
      ensures numTotalRecords == old(numTotalRecords) + 1 && maxListLength == old(maxListLength)
    {
      x := |keys|;
      ghost var h0, c0, l0, n0, k0 := heads, chains, loc, next, keys;
      TailPlaced(chains, loc, b);
      StoreNode(key, block);
      LinkAtTail(b, prev, x);
      ShapedAfterInsert(h0, c0, l0, n0, k0, b, prev, key);
    }

    /** A new node at `block` holding `key`, an empty value and no successor, not yet in any bucket. */
    method StoreNode(key: Key, block: int)
      modifies this`keys, this`values, this`next, this`addr, this`loc
      ensures keys == old(keys) + [key] && values == old(values) + [None] && next == old(next) + [None]
      ensures addr == old(addr) + [block] && loc == old(loc) + [(0, 0)]
    {
      keys, values, next, addr, loc := keys + [key], values + [None], next + [None], addr + [block], loc + [(0, 0)];
    }

    /** The table holds its shape once a node for the fresh `key` is linked at the tail `prev` of its bucket `b`. */
    lemma ShapedAfterInsert(h0: seq<Ptr>, c0: seq<Chain>, l0: seq<(nat, nat)>, n0: seq<Ptr>, k0: seq<Key>, b: nat, prev: Ptr, key: Key)
      requires WellFormed(h0, c0, l0, n0, k0, hashPointer) && |c0| > 0
      requires b == Bucket(hashPointer, key, |c0|) && key !in k0 && prev == Tail(c0[b])
      requires table.Length == tableSize == |c0| <= MaxTableSize && table[..] == heads && |values| == |addr| == |keys| == |k0| + 1
      requires Links() == Table(LinkHead(h0, b, prev, |k0|), c0[b := c0[b] + [|k0|]], (l0 + [(0, 0)])[|k0| := (b, |c0[b]|)],
                                LinkNext(n0 + [None], prev, |k0|), numTotalRecords, numUsedSlots, maxListLength)
      requires keys == k0 + [key]
      ensures Shape()
    {
      InsertWellFormed(h0, c0, l0, n0, k0, hashPointer, b, prev, key);
    }

    /**
     * The second walk of `LookupPointer`, after a resize: follows the bucket of
     * `key` to its end without counting. It finds a node exactly when `key` is
     * stored, and then the node holding it.
     */
    method FindAgain(key: Key) returns (found: Ptr)
      requires Shape() && tableSize > 0
      ensures found.Some? <==> key in keys
      ensures found.Some? ==> found.value < |keys| && keys[found.value] == key
    {
      var rb := hashPointer(key) % tableSize;
      ghost var c := chains[rb];
      assert Linked(next, c, heads[rb]);
      StoredInOwnBucket(heads, chains, loc, next, keys, hashPointer, key);
      var p := table[rb];
      ghost var m := 0;
      while p.Some?
        invariant m <= |c| && p == (if m < |c| then Some(c[m]) else None)
        invariant forall m' :: 0 <= m' < m ==> keys[c[m']] != key
        decreases |c| - m
      {
        if keys[p.value] == key {
          return p;
        }
        p := next[p.value];
        m := m + 1;
      }
      found := None;
    }

    /**
     * `LookupPointer`: returns the node holding `key` (the caller reaches its
     * value slot through it), adding a node with an empty value at the tail of
     * the key's bucket on a miss. After an insertion that fills more than 80%
     * of the buckets, averages more than five nodes per used bucket or
     * follows a walk of more than ten nodes, the table doubles and the node is
     * found again in the new table; that second search cannot fail.
     */
    method LookupPointer(key: Key) returns (slot: NodeId)
      requires Valid() && tableSize > 0 && 2 * tableSize <= MaxTableSize
      modifies this, table, allocator
      ensures Valid()
      ensures slot < |keys| && keys[slot] == key
      ensures key in Contents() && Contents()[key] == values[slot]
      ensures Contents() == if key in old(keys) then old(Contents()) else old(Contents())[key := None]
      ensures key in old(keys) ==>
                && slot < old(|keys|) && keys == old(keys) && values == old(values) && next == old(next)
                && addr == old(addr) && chains == old(chains) && tableSize == old(tableSize)
                && numUsedSlots == old(numUsedSlots) && numTotalRecords == old(numTotalRecords)
                && Cursor(oldTable, oldRemaining) == old(Cursor(oldTable, oldRemaining))
                && maxListLength == Max(old(maxListLength), old(loc)[slot].1 + 1)
                && table == old(table) && table[..] == old(table[..]) && tableAddr == old(tableAddr)
                && allocator.top == old(allocator.top)
      ensures key !in old(keys) ==>
                && slot == old(|keys|) && keys == old(keys) + [key] && values == old(values) + [None]
                && numTotalRecords == old(numTotalRecords) + 1
                && var b := Bucket(hashPointer, key, old(tableSize));
                   var linked := old(chains)[b := old(chains)[b] + [slot]];
                   var used := old(numUsedSlots) + (if old(chains)[b] == [] then 1 else 0);
                   var longest := Max(old(maxListLength), |old(chains)[b]|);
                   if ShouldGrow(used, numTotalRecords, longest, old(tableSize)) then
                     && tableSize == 2 * old(tableSize) && IdsIn(Flatten(linked), keys)
                     && chains == Rehash(Flatten(linked), keys, hashPointer, tableSize)
                     && numUsedSlots == CountNonEmpty(chains) && maxListLength == LongestWalk(chains)
                   else
                     && tableSize == old(tableSize) && chains == linked
                     && numUsedSlots == used && maxListLength == longest
      ensures tableSize == old(tableSize) ==> table == old(table) && tableAddr == old(tableAddr)
    {
      var hash := hashPointer(key);
      var b := hash % tableSize;
      LongestBounds(chains, b);
      var found, prev, j := FindInChain(b, key);
      if found.Some? {
        slot := found.value;
        ToMapLookup(keys, values);
        return;
      }
      StoredInOwnBucket(heads, chains, loc, next, keys, hashPointer, key);
      slot := Insert(b, prev, key);
    }

    /**
     * The miss path of `LookupPointer`: a node for `key` with an empty value
     * is linked at the tail `prev` of bucket `b`, and the table doubles when
     * the statistics call for it.
     */
    method Insert(b: nat, prev: Ptr, key: Key) returns (slot: NodeId)
      requires Valid() && tableSize > 0 && 2 * tableSize <= MaxTableSize && b == Bucket(hashPointer, key, tableSize)
      requires key !in keys && prev == Tail(chains[b])
      modifies this, table, allocator
      ensures Valid()
      ensures slot == old(|keys|) && keys == old(keys) + [key] && values == old(values) + [None]
      ensures Contents() == old(Contents())[key := None]
      ensures numTotalRecords == old(numTotalRecords) + 1
      ensures var linked := old(chains)[b := old(chains)[b] + [slot]];
              var used := old(numUsedSlots) + (if old(chains)[b] == [] then 1 else 0);
              if ShouldGrow(used, numTotalRecords, old(maxListLength), old(tableSize)) then
                && tableSize == 2 * old(tableSize) && IdsIn(Flatten(linked), keys)
                && chains == Rehash(Flatten(linked), keys, hashPointer, tableSize)
                && numUsedSlots == CountNonEmpty(chains) && maxListLength == LongestWalk(chains)
              else
                && tableSize == old(tableSize) && chains == linked
                && numUsedSlots == used && maxListLength == old(maxListLength)
      ensures tableSize == old(tableSize) ==> table == old(table) && tableAddr == old(tableAddr)
    {
      slot := AddNode(b, prev, key);
      ToMapAppend(old(keys), old(values), key, None);
      if ShouldGrow(numUsedSlots, numTotalRecords, maxListLength, tableSize) {
        slot := GrowAndFind(key, slot);
      }
    }

    /**
     * The growth step of `LookupPointer`: the table doubles and the node of
     * `key` is searched for again in the new array. The search cannot fail: it
     * finds node `x`, the node that holds `key` before the resize.
     */
    method GrowAndFind(key: Key, ghost x: NodeId) returns (slot: NodeId)
      requires Valid() && tableSize > 0 && 2 * tableSize <= MaxTableSize && x < |keys| && keys[x] == key
      modifies this`tableSize, this`table, this`tableAddr, this`heads, this`next, this`loc, this`chains, this`oldTable, this`oldRemaining,
               this`numUsedSlots, this`maxListLength, this`numTotalRecords, allocator
      ensures Valid() && tableSize == 2 * old(tableSize)
      ensures IdsIn(Flatten(old(chains)), keys) && chains == Rehash(Flatten(old(chains)), keys, hashPointer, tableSize)
      ensures keys == old(keys) && values == old(values) && numTotalRecords == old(numTotalRecords)
      ensures numUsedSlots == CountNonEmpty(chains) && maxListLength == LongestWalk(chains)
      ensures slot == x
    {
      IncreaseHashTableSize();
      var again := FindAgain(key);
      match again
      case Some(p) =>
        KeysDiffer(keys, p, x);
        slot := p;
      case None =>
        assert false;
    }

    /** Writes `v` through the value slot of node `slot`, as the caller of `LookupPointer` does. */
    method Store(slot: NodeId, v: Option<V>)
      requires Valid() && slot < |values|
      modifies this`values
      ensures Valid() && values == old(values)[slot := v]
      ensures Contents() == old(Contents())[keys[slot] := v]
    {
      values := values[slot := v];
      ToMapStore(keys, old(values), slot, v);
    }

    /**
     * The inner walk of `IncreaseHashTableSize`: follows bucket `b` of the new
     * array to its tail, raising `MaxListLength` to the number of nodes met.
     */
    method WalkToTail(b: nat) returns (prev: Ptr)
      requires b < table.Length == |chains| && table[..] == heads && Wired(heads, chains, next)
      modifies this`maxListLength
      ensures prev == Tail(chains[b])
      ensures maxListLength == Max(old(maxListLength), |chains[b]|)
    {
      assert Linked(next, chains[b], heads[b]);
      var p := table[b];
      prev := None;
      var length := 0;
      while p.Some?
        invariant length <= |chains[b]| && p == (if length < |chains[b]| then Some(chains[b][length]) else None)
        invariant prev == (if length == 0 then None else Some(chains[b][length - 1]))
        invariant maxListLength == Max(old(maxListLength), length)
        decreases |chains[b]| - length
      {
        length := length + 1;
        if length > maxListLength {
          maxListLength := length;
        }
        prev := p;
        p := next[p.value];
      }
    }

    /** The linked state of the table as one value. */
    ghost function Links(): Table
      reads this`heads, this`chains, this`loc, this`next, this`numTotalRecords, this`numUsedSlots, this`maxListLength
    {
      Table(heads, chains, loc, next, numTotalRecords, numUsedSlots, maxListLength)
    }

    /**
     * Moves every node of old chain `i`, head first, to the tail of its bucket
     * in the new array. `oldHeads` is the old bucket array, holding `oh`; `oc`,
     * `oldLoc` and `next0` are the old chains, positions and links.
     */
    method MigrateChain(oldHeads: array<Ptr>, i: nat, ghost oh: seq<Ptr>, ghost oc: seq<Chain>,
                        ghost oldLoc: seq<(nat, nat)>, ghost next0: seq<Ptr>)
      requires oldHeads != table && oldHeads[..] == oh && i < |oc| && 0 < tableSize == table.Length == |chains| && table[..] == heads
      requires WellFormed(oh, oc, oldLoc, next0, keys, hashPointer)
      requires Links() == MoveAll(EmptyTable(tableSize, oldLoc, next0), keys, hashPointer, Swept(oc, i, 0))
      modifies this`heads, this`next, this`chains, this`loc, this`numUsedSlots, this`numTotalRecords, this`maxListLength, table
      ensures |chains| == tableSize && table[..] == heads
      ensures Links() == MoveAll(EmptyTable(tableSize, oldLoc, next0), keys, hashPointer, Swept(oc, i + 1, 0))
    {
      assert Linked(next0, oc[i], oh[i]);
      var p := oldHeads[i];
      ghost var j := 0;
      while p.Some?
        invariant |chains| == tableSize && table[..] == heads && j <= |oc[i]|
        invariant Links() == MoveAll(EmptyTable(tableSize, oldLoc, next0), keys, hashPointer, Swept(oc, i, j))
        invariant p == (if j < |oc[i]| then Some(oc[i][j]) else None)
        decreases |oc[i]| - j
      {
        ReadyToMove(oh, oc, oldLoc, next0, keys, hashPointer, tableSize, i, j);
        MoveAllStep(EmptyTable(tableSize, oldLoc, next0), keys, hashPointer, oc, i, j);
        p := MoveNode(p.value);
        j := j + 1;
      }
      SweptNext(oc, i);
    }

    /**
     * One step of `IncreaseHashTableSize`: node `x` is unlinked and linked at
     * the tail of its bucket in the new array, after a walk of that bucket.
     * Returns the node's old successor, where the walk of the old chain goes
     * on.
     */
    method MoveNode(x: NodeId) returns (p: Ptr)
      requires tableSize == table.Length == |chains| > 0 && table[..] == heads && Wired(heads, chains, next)
      requires x < |keys| && x < |next| && x < |loc|
      modifies this`heads, this`next, this`chains, this`loc, this`numUsedSlots, this`numTotalRecords, this`maxListLength, table
      ensures p == old(next)[x] && |chains| == tableSize && table[..] == heads
      ensures Links() == Move(old(Links()), keys, hashPointer, x)
    {
      var b := hashPointer(keys[x]) % tableSize;
      var prev := WalkToTail(b);
      assert Linked(next, chains[b], heads[b]);
      p := next[x];
      next := next[x := None];
      LinkAtTail(b, prev, x);
    }

    /**
     * `IncreaseHashTableSize`: doubles the bucket array and relinks every node,
     * old bucket by old bucket and head first, at the tail of its bucket in
     * the new array, recomputing the statistics on the way. No node is copied
     * or freed. The old array becomes the recycling window for later nodes,
     * unless it is too small to hold one (see `OpenWindow`).
     */
    method IncreaseHashTableSize()
      requires Valid() && tableSize > 0 && 2 * tableSize <= MaxTableSize
      modifies this`tableSize, this`table, this`tableAddr, this`heads, this`next, this`loc, this`chains, this`oldTable, this`oldRemaining,
               this`numUsedSlots, this`maxListLength, this`numTotalRecords, allocator
      ensures Valid() && fresh(table)
      ensures tableSize == 2 * old(tableSize)
      ensures IdsIn(Flatten(old(chains)), keys) && chains == Rehash(Flatten(old(chains)), keys, hashPointer, tableSize)
      ensures numTotalRecords == old(numTotalRecords) && numUsedSlots == CountNonEmpty(chains)
      ensures maxListLength == LongestWalk(chains)
      ensures Cursor(oldTable, oldRemaining) == OpenWindow(old(tableAddr), old(tableSize))
    {
      var oldHeads := table;
      ghost var oh, oc, oldLoc, next0 := heads, chains, loc, next;
      assert WellFormed(oh, oc, oldLoc, next0, keys, hashPointer) && |Flatten(oc)| == |keys|;
      Regrow();
      Rehome(oldHeads, oh, oc, oldLoc, next0);
    }

    /** The second half of `IncreaseHashTableSize`: the sweep over the old buckets leaves the table valid. */
    method Rehome(oldHeads: array<Ptr>, ghost oh: seq<Ptr>, ghost oc: seq<Chain>, ghost oldLoc: seq<(nat, nat)>, ghost next0: seq<Ptr>)
      requires oldHeads != table && oldHeads[..] == oh && oldHeads.Length == |oc|
      requires 0 < tableSize == table.Length == |chains| && table[..] == heads
      requires WellFormed(oh, oc, oldLoc, next0, keys, hashPointer) && |Flatten(oc)| == |keys|
      requires Links() == EmptyTable(tableSize, oldLoc, next0)
      requires tableSize <= MaxTableSize && |values| == |addr| == |keys| && Placed()
      modifies this`heads, this`next, this`chains, this`loc, this`numUsedSlots, this`numTotalRecords, this`maxListLength, table
      ensures Valid() && numTotalRecords == |keys| && maxListLength == LongestWalk(chains)
      ensures IdsIn(Flatten(oc), keys) && chains == Rehash(Flatten(oc), keys, hashPointer, tableSize)
    {
      MigrateAll(oldHeads, oh, oc, oldLoc, next0);
    }

    /**
     * Once every old node is moved, the object is back in shape, with the
     * statistics recomputed for the new array.
     */
    lemma Settled(oh: seq<Ptr>, oc: seq<Chain>, oldLoc: seq<(nat, nat)>, next0: seq<Ptr>)
      requires WellFormed(oh, oc, oldLoc, next0, keys, hashPointer) && |Flatten(oc)| == |keys|
      requires 0 < tableSize == table.Length == |chains| <= MaxTableSize && table[..] == heads && |values| == |addr| == |keys|
      requires Links() == MoveAll(EmptyTable(tableSize, oldLoc, next0), keys, hashPointer, Swept(oc, |oc|, 0))
      ensures Shape() && Counted() && maxListLength == LongestWalk(chains)
      ensures IdsIn(Flatten(oc), keys) && chains == Rehash(Flatten(oc), keys, hashPointer, tableSize)
    {
      MigratedAll(oh, oc, oldLoc, next0, keys, hashPointer, tableSize, heads, chains, loc, next,
                  numTotalRecords, numUsedSlots, maxListLength);
    }

    /**
     * The first half of `IncreaseHashTableSize`: the old bucket array becomes
     * the recycling window, and a new, empty array of twice as many buckets
     * is allocated, with the statistics reset.
     */
    method Regrow()
      requires Placed() && tableSize > 0 && 2 * tableSize <= MaxTableSize
      modifies this`tableSize, this`table, this`tableAddr, this`heads, this`chains, this`oldTable, this`oldRemaining,
               this`numUsedSlots, this`maxListLength, this`numTotalRecords, allocator
      ensures Placed() && fresh(table)
      ensures tableSize == 2 * old(tableSize) == table.Length == |chains| && table[..] == heads
      ensures Links() == EmptyTable(tableSize, loc, next)
      ensures Cursor(oldTable, oldRemaining) == OpenWindow(old(tableAddr), old(tableSize))
    {
      var oldSize, oldAddr := tableSize, tableAddr;
      ghost var c0, top0 := Cursor(oldTable, oldRemaining), allocator.top;
      OpenOldWindow();
      tableSize := tableSize * 2;
      tableAddr := allocator.AllocateBytes(tableSize * PointerBytes);
      LayoutAfterGrow(addr, oldAddr, oldSize, c0, top0, tableAddr, tableSize * PointerBytes);
      ResetBuckets();
    }

    /** The old bucket array becomes the recycling window, unless it cannot hold one node. */
    method OpenOldWindow()
      requires tableSize * PointerBytes < SizeLimit
      modifies this`oldTable, this`oldRemaining
      ensures Cursor(oldTable, oldRemaining) == OpenWindow(tableAddr, tableSize)
    {
      oldRemaining := tableSize * PointerBytes;
      oldTable := tableAddr;
      if oldRemaining < NodeBytes {
        oldTable, oldRemaining := 0, 0;
      }
    }

    /** A new, empty bucket array of `tableSize` buckets, with the statistics reset. */
    method ResetBuckets()
      modifies this`table, this`heads, this`chains, this`numUsedSlots, this`maxListLength, this`numTotalRecords
      ensures fresh(table) && table.Length == tableSize == |chains| && table[..] == heads
      ensures Links() == EmptyTable(tableSize, loc, next)
    {
      table := new Ptr[tableSize](_ => None);
      numUsedSlots, maxListLength, numTotalRecords := 0, 0, 0;
      heads := NoHeads(tableSize);
      chains := NoChains(tableSize);
      assert table[..] == heads;
    }

    /**
     * The second half of `IncreaseHashTableSize`: every node of the old
     * chains `oc` (old bucket array `oldHeads` holding `oh`, old positions
     * `oldLoc`, old links `next0`) is moved into the new, empty array.
     */
    method MigrateAll(oldHeads: array<Ptr>, ghost oh: seq<Ptr>, ghost oc: seq<Chain>, ghost oldLoc: seq<(nat, nat)>, ghost next0: seq<Ptr>)
      requires oldHeads != table && oldHeads[..] == oh && oldHeads.Length == |oc|
      requires 0 < tableSize == table.Length == |chains| && table[..] == heads
      requires WellFormed(oh, oc, oldLoc, next0, keys, hashPointer) && |Flatten(oc)| == |keys|
      requires Links() == EmptyTable(tableSize, oldLoc, next0)
      requires tableSize <= MaxTableSize && |values| == |addr| == |keys|
      modifies this`heads, this`next, this`chains, this`loc, this`numUsedSlots, this`numTotalRecords, this`maxListLength, table
      ensures Shape() && Counted() && maxListLength == LongestWalk(chains)
      ensures IdsIn(Flatten(oc), keys) && chains == Rehash(Flatten(oc), keys, hashPointer, tableSize)
    {
      assert Swept(oc, 0, 0) == [];
      for i := 0 to oldHeads.Length
        invariant |chains| == tableSize && table[..] == heads
        invariant Links() == MoveAll(EmptyTable(tableSize, oldLoc, next0), keys, hashPointer, Swept(oc, i, 0))
      {
        MigrateChain(oldHeads, i, oh, oc, oldLoc, next0);
      }
      Settled(oh, oc, oldLoc, next0);
    }

    /** The first sweep of `CopyHashToArray`: the sum of the counts of every value, in sweep order. */
    method CountRecords(count: V -> nat) returns (total: nat)
      requires table.Length == |chains| && table[..] == heads && Wired(heads, chains, next) && Filled(Flatten(chains), values)
      ensures total == RecordsToCopy(Flatten(chains), values, count)
    {
      total := 0;
      assert chains[..0] == [];
      for i := 0 to table.Length
        invariant Filled(Flatten(chains[..i]), values) && total == RecordsToCopy(Flatten(chains[..i]), values, count)
      {
        FlattenPrefix(chains, i);
        FlattenGrows(chains, i + 1);
        RecordsToCopyGrows(Flatten(chains[..i + 1]), Flatten(chains), values, count);
        RecordsToCopyConcat(Flatten(chains[..i]), chains[i], values, count);
        assert Linked(next, chains[i], heads[i]);
        total := CountBucket(count, i, total);
      }
      assert chains[..table.Length] == chains;
    }

    /** The part of the first sweep that walks bucket `i`, adding each count to the running total `start`. */
    method CountBucket(count: V -> nat, i: nat, start: nat) returns (total: nat)
      requires i < table.Length == |chains| && table[..] == heads && Linked(next, chains[i], heads[i]) && Filled(chains[i], values)
      ensures total == start + RecordsToCopy(chains[i], values, count)
    {
      ghost var c := chains[i];
      total := start;
      var p := table[i];
      ghost var j := 0;
      while p.Some?
        invariant j <= |c| && p == (if j < |c| then Some(c[j]) else None)
        invariant Filled(c[..j], values) && total == start + RecordsToCopy(c[..j], values, count)
        decreases |c| - j
      {
        var x := p.value;
        assert c[..j + 1][..j] == c[..j];
        total := total + count(values[x].value);
        p := next[x];
        j := j + 1;
      }
      assert c[..j] == c;
    }

    /**
     * The second sweep of `CopyHashToArray`: writes, in sweep order, one cell
     * per value with a nonzero count into `arr`, which was allocated with room
     * for the total count.
     */
    method ExportRecords(arr: array<Entry<V>>, deep: bool, count: V -> nat)
      requires table.Length == |chains| && table[..] == heads && Wired(heads, chains, next) && Filled(Flatten(chains), values)
      requires arr.Length == RecordsToCopy(Flatten(chains), values, count)
      requires forall k :: 0 <= k < arr.Length ==> arr[k] == Unwritten
      modifies arr
      ensures Written(arr[..], |Exported(Flatten(chains), values, count, deep)|, Flatten(chains), values, count, deep)
    {
      var index := 0;
      assert chains[..0] == [];
      for i := 0 to table.Length
        invariant Flatten(chains[..i]) <= Flatten(chains)
        invariant Written(arr[..], index, Flatten(chains[..i]), values, count, deep)
      {
        FlattenPrefix(chains, i);
        FlattenGrows(chains, i + 1);
        assert Linked(next, chains[i], heads[i]);
        index := ExportBucket(arr, deep, count, i, index, Flatten(chains[..i]), Flatten(chains));
      }
      assert chains[..table.Length] == chains;
    }

    /**
     * The part of the second sweep that walks bucket `i`, entered once the
     * sweep `done` of the buckets before it has been written.
     */
    method ExportBucket(arr: array<Entry<V>>, deep: bool, count: V -> nat, i: nat, start: nat,
                        ghost done: seq<NodeId>, ghost all: seq<NodeId>) returns (index: nat)
      requires i < table.Length == |chains| && table[..] == heads && Linked(next, chains[i], heads[i])
      requires done + chains[i] <= all && Filled(all, values) && arr.Length == RecordsToCopy(all, values, count)
      requires Written(arr[..], start, done, values, count, deep)
      modifies arr
      ensures Written(arr[..], index, done + chains[i], values, count, deep)
    {
      ghost var c := chains[i];
      index := start;
      var p := table[i];
      ghost var j, swept := 0, done;
      assert done + c[..0] == done;
      while p.Some?
        invariant j <= |c| && p == (if j < |c| then Some(c[j]) else None)
        invariant swept == done + c[..j] && swept <= all
        invariant Written(arr[..], index, swept, values, count, deep)
        decreases |c| - j
      {
        var x := p.value;
        PrefixStep(done, c, j, all);
        WriteStep(arr[..], index, swept, x, all, values, count, deep);
        var v := values[x].value;
        if count(v) != 0 {
          arr[index] := EntryFor(v, deep);
          index := index + 1;
        }
        p := next[x];
        j, swept := j + 1, swept + [x];
      }
      assert c[..j] == c;
    }

    /**
     * `CopyHashToArray`: with a copy allocator and a non-empty table, a fresh
     * array sized by the total count of the values, holding, in sweep order,
     * one cell per value with a nonzero count (the value itself, or its copy in
     * a deep export); the cells past those stay zero. The size reported is the
     * total count. Without a copy allocator, or with nothing to copy, no array.
     */
    method CopyHashToArray(hasCopyAllocator: bool, deep: bool, count: V -> nat) returns (arr: array?<Entry<V>>, outSize: nat)
      requires Valid()
      requires hasCopyAllocator ==> forall id :: 0 <= id < |values| ==> values[id].Some?
      ensures hasCopyAllocator ==> Filled(Flatten(chains), values)
      ensures outSize == if hasCopyAllocator && numTotalRecords > 0 then RecordsToCopy(Flatten(chains), values, count) else 0
      ensures arr == null <==> outSize == 0
      ensures arr != null ==>
                && fresh(arr) && arr.Length == outSize
                && var e := Exported(Flatten(chains), values, count, deep);
                   && |e| <= arr.Length && arr[..|e|] == e
                   && forall k :: |e| <= k < arr.Length ==> arr[k] == Unwritten
    {
      arr, outSize := null, 0;
      if hasCopyAllocator {
        assert ChainsIn(chains, keys);
        FlattenIdsIn(chains, keys);
      }
      if hasCopyAllocator && numTotalRecords > 0 {
        arr, outSize := ExportAll(deep, count);
      }
    }

    /**
     * The two sweeps of `CopyHashToArray` over a table whose nodes all hold a
     * value: the total count, and an array of that size holding the exported
     * cells, or no array when the total is zero.
     */
    method ExportAll(deep: bool, count: V -> nat) returns (arr: array?<Entry<V>>, outSize: nat)
      requires table.Length == |chains| && table[..] == heads && Wired(heads, chains, next) && Filled(Flatten(chains), values)
      ensures outSize == RecordsToCopy(Flatten(chains), values, count)
      ensures arr == null <==> outSize == 0
      ensures arr != null ==>
                && fresh(arr) && arr.Length == outSize
                && var e := Exported(Flatten(chains), values, count, deep);
                   && |e| <= arr.Length && arr[..|e|] == e
                   && forall k :: |e| <= k < arr.Length ==> arr[k] == Unwritten
    {
      arr := null;
      var total := CountRecords(count);
      if total > 0 {
        arr := new Entry<V>[total](_ => Unwritten);
        ExportRecords(arr, deep, count);
      }
      outSize := total;
    }
  }
}
