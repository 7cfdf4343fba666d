# CHash: an identity-pointer hash table, modelled in Dafny

`CHash<T>` (Inc/Hash.h) is the hash table the profiler uses to find its
per-pointer records. It has these parts:

- **Keys.** A key is a raw pointer, compared by identity and never
  dereferenced. `HashPointer` mixes it into a bucket number.
- **Chains.** Each bucket of `HashTable` heads a singly linked chain of
  `Hash_t` nodes (key, value, `Next`). A lookup walks the chain of its key.
  On a miss it appends a node with an empty value at the tail of that chain.
- **Statistics.** The table keeps `NumUsedSlots`, `NumTotalRecords` and
  `MaxListLength`.
- **Growth.** After an insertion that makes the table too full or its chains
  too long, `IncreaseHashTableSize` allocates a bucket array twice as large.
  It relinks every node, without copying it, at the tail of its new bucket,
  and recomputes the statistics on the way. The node just inserted is then
  searched for again.
- **Recycling.** Nodes are never freed. The superseded bucket array becomes a
  window from which `AllocateFromOldHashTable` carves later nodes, one
  pointer-aligned `Hash_t` at a time.
- **Export.** `CopyHashToArray` exports the values into a flat pointer array
  in two sweeps, bucket by bucket and chain by chain.

The model has six modules:

- **`Buckets`** (buckets.dfy), the value-level view:
  - `HashPointer`, the hash, as 64-bit bit-vector arithmetic;
  - `Bucket`, the bucket of a key;
  - the growth test in integer form;
  - chains as sequences of node ids;
  - `Rehash`, the chains a resize builds from the nodes it moves in sweep order;
  - `UniqueKeys`;
  - the key/value map the table stands for.
- **`Structure`** (structure.dfy):
  - the linked structure as values: bucket heads, `Next` links, chains, positions;
  - the structural invariant `WellFormed`;
  - the statistics invariant `Tally`;
  - the proofs that insertion and the resize sweep keep them;
  - the memory picture `Layout`: the bucket array, nodes and recycling window are pairwise disjoint.
- **`Recycling`** (recycling.dfy): the recycling cursor
  (`OldHashTable`, `OldHashTableFreeRemaining`) and `Carve`, which is
  `AllocateFromOldHashTable` on values, with the unsigned wrap of `size_t`
  written out.
- **`Allocator`** (allocator.dfy): a bump arena standing in for `CAllocator`.
  It hands out fresh, pointer-aligned blocks above everything handed out before.
- **`Export`** (export.dfy): what the two sweeps of `CopyHashToArray` compute.
- **`IdentityHash`** (hash.dfy): the class `Hash<V>`, with fields that mirror
  `CHash`'s:
  - the bucket array is a Dafny `array`, updated in place;
  - the nodes live in a store of parallel sequences indexed by node id, and
    their `Next` links are reassigned in place;
  - every loop of the modelled functions is a loop here, proved against the
    functions and lemmas above.

The target is a 64-bit LLP64 build: a pointer and a bucket slot take 8
bytes, a `Hash_t` takes 24, and `unsigned long` is 32 bits. So
`HashPointer` keeps the low 32 bits of its last word.

## Model

| member | source | states |
|---|---|---|
| IdentityHash.Hash.constructor | Inc/Hash.h:30-42 | `HashTableSize` empty buckets in a bucket array from the allocator, hashing with `HashPointer`, zeroed statistics, no nodes, an empty map, no recycling window; the invariant holds |
| IdentityHash.Hash.CounterBounds | Inc/Hash.h:26-28 | between calls `NumUsedSlots` is at most `HashTableSize` and at most `NumTotalRecords`, and `MaxListLength` is at most the longest chain |
| IdentityHash.Hash.FindInChain | Inc/Hash.h:204-228 | walks the key's bucket: on a hit, returns the node holding the key at chain position j; on a miss, no node of the bucket holds the key and `pPrevHashRecord` is the chain's tail; `MaxListLength` rises to the number of nodes visited |
| IdentityHash.Hash.LookupPointer | Inc/Hash.h:201-296 | returns the node holding the key, keeps the invariant, and the map gains the key with an empty value exactly when it was absent; on a hit nothing but `MaxListLength` changes (same bucket array at the same address, nothing allocated); on a miss one node is added at the tail of the key's bucket, `NumTotalRecords` + 1, `NumUsedSlots` + 1 iff the bucket was empty; when the growth test fires, the table has doubled, its chains are the old ones rehashed in sweep order, `NumUsedSlots` counts the non-empty buckets and `MaxListLength` is one less than the longest new chain; whenever the size is unchanged, the bucket array and its address are kept |
| IdentityHash.Hash.Insert | Inc/Hash.h:230-295 | the miss path: appends the node, updates the map and statistics, and either leaves the chains as extended or doubles the table (chains rehashed, `NumUsedSlots` recounted, `MaxListLength` one less than the longest new chain), as the growth test decides; without growth the bucket array and its address are kept |
| IdentityHash.Hash.AddNode | Inc/Hash.h:232-263 | a new node with the key and an empty value is added at the tail of bucket b; `NumTotalRecords` + 1, `NumUsedSlots` + 1 iff the bucket was empty; the invariant holds |
| IdentityHash.Hash.AttachNode | Inc/Hash.h:243-263 | once the block is placed soundly, linking the new node at the tail of bucket b keeps the whole invariant (shape, statistics, memory picture), with the same counter changes as `AddNode` |
| IdentityHash.Hash.AllocateNode | Inc/Hash.h:232-241 | the node's block comes from the recycling window when one is open (exactly `Carve`), else from the allocator above every earlier block; either way it is disjoint from the bucket array, every node and the rest of the window |
| IdentityHash.Hash.InsertNode | Inc/Hash.h:243-263 | the node stored at the block is linked at the chain's tail; the structural invariant still holds and only the extended chain and the counters change |
| IdentityHash.Hash.StoreNode | Inc/Hash.h:243-250 | the new node has the key, a null value and a null `Next` |
| IdentityHash.Hash.ShapedAfterInsert | Inc/Hash.h:243-263 | a fresh key linked at the tail of its own bucket leaves the table well formed |
| IdentityHash.Hash.LinkAtTail | Inc/Hash.h:252-263 | into the bucket array when the bucket is empty (`NumUsedSlots` + 1), else into the tail's `Next`; `NumTotalRecords` + 1 |
| IdentityHash.Hash.GrowAndFind | Inc/Hash.h:265-293 | after the resize the second walk finds the node inserted just before, so the failure path at the end of the walk cannot be reached |
| IdentityHash.Hash.FindAgain | Inc/Hash.h:274-290 | the walk of the key's new bucket finds a node iff the key is stored, and then the node holding it |
| IdentityHash.Hash.Store | Inc/Hash.h:245-249 | the caller writing the value slot returned sets that key's value in the map and keeps the invariant |
| IdentityHash.Hash.IncreaseHashTableSize | Inc/Hash.h:298-356 | `HashTableSize` doubles; the chains are exactly the old nodes (keys and values untouched, none copied), each in the bucket of its key, in old-bucket-then-chain order; `NumTotalRecords` is unchanged, `NumUsedSlots` counts the non-empty buckets and `MaxListLength` is one less than the longest new chain (0 for none); the old array becomes the recycling window (`OpenWindow`) |
| IdentityHash.Hash.Regrow | Inc/Hash.h:300-309 | the old array becomes the window, and a fresh array of twice as many empty buckets is allocated, with the statistics zeroed |
| IdentityHash.Hash.OpenOldWindow | Inc/Hash.h:300-302 | the cursor covers the old array's bytes, and is retired when they cannot hold one node |
| IdentityHash.Hash.ResetBuckets | Inc/Hash.h:304-309 | an array of empty buckets with zeroed statistics |
| IdentityHash.Hash.MigrateAll | Inc/Hash.h:311-355 | after the sweep over all old buckets, the table is well formed, its record and used-bucket counts count its chains, `MaxListLength` is one less than the longest chain, and the chains are the old sweep order rehashed |
| IdentityHash.Hash.Rehome | Inc/Hash.h:311-355 | the sweep over the old buckets, started on the new empty array, leaves the table valid, `MaxListLength` one less than the longest chain, and its chains the old sweep order rehashed |
| IdentityHash.Hash.MigrateChain | Inc/Hash.h:313-354 | sweeping old bucket i moves its nodes, head first, one `Move` each |
| IdentityHash.Hash.MoveNode | Inc/Hash.h:316-353 | one node is unlinked and linked at the tail of its new bucket; the old successor, where the sweep goes on, is returned |
| IdentityHash.Hash.WalkToTail | Inc/Hash.h:320-335 | the walk stops at the tail of the new bucket, raising `MaxListLength` to the bucket's length |
| IdentityHash.Hash.Settled | Inc/Hash.h:307-355 | once every old node is moved, the table is well formed and counted, with `MaxListLength` one less than the longest chain |
| IdentityHash.Hash.CopyHashToArray | Inc/Hash.h:75-134 | no array and size 0 without a copy allocator or records, or when nothing has a nonzero count; otherwise a fresh array sized by the total count, holding in sweep order one cell per value with a nonzero count (the value, or its copy when deep), the rest still zero |
| IdentityHash.Hash.ExportAll | Inc/Hash.h:83-129 | with every node holding a value, the size is the total count of the values, no array iff it is zero, else a fresh array of that size holding the exported cells in order and zeros after them |
| IdentityHash.Hash.CountRecords | Inc/Hash.h:83-95 | the first sweep sums `GetNumRecordsToCopy` over every value |
| IdentityHash.Hash.CountBucket | Inc/Hash.h:88-94 | walking one bucket adds the counts of exactly that chain's values to the running total |
| IdentityHash.Hash.ExportRecords | Inc/Hash.h:99-127 | the second sweep writes exactly the exported cells, in order, and nothing past them |
| IdentityHash.Hash.ExportBucket | Inc/Hash.h:105-125 | walking bucket i after the sweep `done` of the earlier buckets writes exactly the cells of `done` followed by that bucket's chain, and leaves the rest of the array zero |
| IdentityHash.Hash.AllocateFromOldHashTable | Inc/Hash.h:176-199 | returns the cursor's position and moves the cursor as `Carve` does; from an active cursor the block lies in the window, and the new window is the rest of it or retired |
| Allocator.Arena.AllocateBytes | Inc/Hash.h:240 | a pointer-aligned block above every block handed out before |
| Buckets.HashPointer | Inc/Hash.h:152-174 | the mix result fits the 32-bit `unsigned long` |
| Buckets.Bucket | Inc/Hash.h:204-206 | the hash reduced modulo the table size is a valid bucket |
| Buckets.ShouldGrowExact | Inc/Hash.h:265-270 | the integer growth test holds iff, in exact arithmetic, more than 0.8 of the buckets are used, the probe average exceeds 5 (infinite with records and no used bucket), or a walk met more than ten nodes |
| Buckets.KeysDiffer | Inc/Hash.h:221-228 | in a store with unique keys two nodes hold the same key iff they are the same node |
| Buckets.UniqueKeysAppend | Inc/Hash.h:230-243 | storing a key found in no node keeps the keys unique |
| Buckets.ToMapLookup | Inc/Hash.h:221-223 | the map's keys are the stored keys, and each maps to its node's value |
| Buckets.ToMapStore | Inc/Hash.h:245-249 | writing a node's value slot updates that key's entry of the map |
| Buckets.ToMapAppend | Inc/Hash.h:243-250 | a new node adds its key with its value to the map |
| Buckets.RehashAppend | Inc/Hash.h:337-353 | moving one more node appends it to its own bucket and changes no other |
| Buckets.RehashPermutes | Inc/Hash.h:311-355 | the chains of a resize hold exactly the moved nodes: a permutation of the sweep |
| Buckets.RehashPlacesByBucket | Inc/Hash.h:316-318 | every node the resize places sits in the bucket of its key under the new size |
| Buckets.RehashKeepsOrder | Inc/Hash.h:311-314 | two nodes that land in one bucket keep their sweep order |
| Buckets.CountNonEmptyBounds | Inc/Hash.h:256 | used buckets number at most the buckets and at most the records |
| Buckets.LongestBounds | Inc/Hash.h:215-219 | every chain is at most as long as the longest |
| Buckets.LongestWalkAppend | Inc/Hash.h:323-331 | a tail insertion walks the whole chain it extends, so the longest walk becomes the larger of that chain's length and the longest walk before |
| Structure.TallyAfterLink | Inc/Hash.h:253-263 | linking a node counts one more record, and one more used bucket iff the bucket was empty |
| Structure.InsertWellFormed | Inc/Hash.h:243-263 | a fresh key in a new node at the tail of its bucket keeps the structural invariant: wiring, positions, buckets by hash, unique keys |
| Structure.StoredInOwnBucket | Inc/Hash.h:204-228 | in a well-formed table a key is stored iff some node of its own bucket holds it, so one bucket walk decides a lookup |
| Structure.EmptyWellFormed | Inc/Hash.h:30-42 | empty buckets and no nodes are well formed, with zero statistics |
| Structure.MoveStep | Inc/Hash.h:316-353 | one move of the sweep keeps the resize invariant one position further |
| Structure.Migrated | Inc/Hash.h:311-355 | moving the old nodes in sweep order keeps the resize invariant at every position of the sweep |
| Structure.MigratedAll | Inc/Hash.h:311-355 | the fully swept table is well formed, holds the old nodes rehashed, counts them, and its longest walk is one less than its longest chain |
| Structure.ReadyToMove | Inc/Hash.h:313-338 | during the sweep the next old node is stored, and its `Next` is still its old successor |
| Structure.LayoutAfterCarve | Inc/Hash.h:176-199 | a block carved from an active window is disjoint from the table, every node and the rest of the window |
| Structure.LayoutAfterGrow | Inc/Hash.h:300-305 | the new array lies above everything, and the old array becomes the window |
| Recycling.AlignUp | Inc/Hash.h:184 | rounding up to the pointer size gives the first aligned address at or after the given one |
| Recycling.Carve | Inc/Hash.h:176-199 | the block handed out is the cursor's position; the cursor either retires or moves to an aligned address past the whole block with room, in `size_t` range, for another node |
| Recycling.OpenWindow | Inc/Hash.h:300-302 | the window is the old array's bytes, or retired (corrected, see Findings) |
| Recycling.CarveStaysInWindow | Inc/Hash.h:176-199 | from an active window: the block handed out is the cursor, lies in the window, and the cursor moves exactly past it or retires |
| Recycling.OpenWindowActive | Inc/Hash.h:300-302 | the window of an array of three or more buckets is active and equal to the source's; smaller ones are retired |
| Recycling.TwoSlotWindowOverruns | Inc/Hash.h:184-190 | as written, the first node carved from a two-bucket array runs past it, and the cursor stays active with a wrapped remaining count |
| Export.ExportStep | Inc/Hash.h:91 | one more node adds its count to the total and its cell, if any, to the export |
| Export.RecordsToCopyGrows | Inc/Hash.h:86-95 | a longer sweep never has fewer records to copy |
| Export.RecordsToCopyConcat | Inc/Hash.h:86-95 | the count over two consecutive stretches of the sweep is the sum of their counts |
| Export.ExportFits | Inc/Hash.h:97-121 | the cells written never outnumber the array allocated, and there are none iff the total count is zero |
| Export.WriteStep | Inc/Hash.h:110-121 | writing a cell at `ArrayIndex` stays in the array and extends the export |
| Export.ExportedExactly | Inc/Hash.h:103-127 | the export holds a cell for a node iff its value has a nonzero count, and nothing else |
| Export.DeepMirrorsShallow | Inc/Hash.h:112-119 | a deep export is, cell for cell, the copies of what a shallow export points to |

## Left out

- `PrintStats` (Inc/Hash.h:46-73): diagnostic text and a float average, delegated to the values' own `PrintStats`.
- `ResetCounters` (Inc/Hash.h:136-150): it only calls the values' own `ResetCounters`, and keeps no state of its own.
- The private copy constructor and assignment (Inc/Hash.h:358-368): they only assert; the class offers no copying.
- Growth thresholds: the float test is stated in integer form, so float rounding of `HashTableSize * 0.8f` and of the probe average is not modelled. The form is: used > size·4/5, total > 5·used, walk > 10.
- 32-bit counters: `NumUsedSlots`, `MaxListLength` and `NumTotalRecords` are unbounded naturals, so wrap-around past 2^32 records is not modelled.
- IdentityHash.Hash.LookupPointer: requires the doubled size to fit in an `int`, where the source would overflow `HashTableSize * 2` on a resize. `IncreaseHashTableSize` requires the same.
- IdentityHash.Hash.LookupPointer: requires a non-empty bucket array. The source reduces the hash modulo `HashTableSize`, which is undefined for 0.
- `volatile` qualifiers and concurrent use: the model is single-threaded.
- `CAllocator` is not part of this model (Allocator.h). `Arena` stands in for it:
  - it never fails;
  - it returns a fresh, aligned block above all earlier ones.
- Zero-filling by `CAllocator`: the bucket arrays allocated by the constructor (Inc/Hash.h:40) and by the resize (line 305) are modelled as all-null, since the source never writes nulls into them; the export array's unwritten cells are modelled as zero.
- The null allocator and null table cases of the constructor are not modelled: an allocator is always present, and a size of 0 gives an empty array.
- `OldHashTable` and `OldHashTableFreeRemaining` start out as a retired cursor. The constructor (Inc/Hash.h:30-42) never initializes them, yet every miss tests `OldHashTable` (line 234), before any resize too. So the model assumes the object's storage reads as zero. In storage that is not zeroed, the first miss would carve its node from whatever address the field holds.
- IdentityHash.Hash.CopyHashToArray: `NumTotalRecordsToCopy` and `OutArraySize` are `unsigned int` (lines 83, 91, 129) and wrap past 2^32; the total count is an unbounded natural, so that wrap is not modelled.
- IdentityHash.Hash.constructor: takes the size as a natural, where `InHashTableSize` is an `int`; a negative size is not modelled.
- The value type's `GetNumRecordsToCopy` is a function parameter `count`. Its `GetArrayCopy` is the `ArrayCopy` cell. Side effects of either on other tables are not modelled.
- Callers allocating the value record after a miss are modelled only as `Store` writing the slot.
- IdentityHash.Hash.AddNode: does not restate where the node was placed. `AllocateNode` states the block's address and the window's new state, and `Valid` keeps the layout sound.
- IdentityHash.Hash.CopyHashToArray: requires every stored node to hold a value when a copy allocator is given. The source dereferences every value pointer in the sweep.

## Findings

| source | as written | input that shows it | evidently intended | confidence | as-written member | corrected member |
|---|---|---|---|---|---|---|
| Inc/Hash.h:300-302, 184-190 | `IncreaseHashTableSize` opens the old array as a recycling window whatever its size. `AllocateFromOldHashTable` then hands out a 24-byte `Hash_t` from a 16-byte window, and the unsigned subtraction of the offset wraps `OldHashTableFreeRemaining` to 2^64 - 8, so the cursor stays active past the window | a table created with 2 buckets (or 1) grows, then a new key is inserted: the node overlaps the 8 bytes after the old array, and later nodes go on past it | when the old array cannot hold one `Hash_t`, leave the recycling cursor retired (no window), while the sweep still reads the old buckets through a saved pointer to the old array, so every block carved lies inside the old array | not executed | Recycling.TwoSlotWindowOverruns | Recycling.OpenWindow |
