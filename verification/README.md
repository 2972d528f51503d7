# A verified model of the storage engine kernel

This project models the data structures and protocols at the core of a LevelDB-style storage engine, and proves what
they promise: the skip list under one writer and many lock-free readers, the LRU cache, the merging iterator, the
strided CRC32C, the in-memory file system, two small concurrent protocols, the key format with its codecs and orders,
the arena allocator and the Bloom filter.

Verify it with `dafny verify dfyconfig.toml` (Dafny 4.11).

## How it is organised

| file | what it models |
|---|---|
| `SkipListSteps.dfy` | the stores of `Insert` and the loads of searching and walking readers as a step system, with an invariant kept by every interleaving |
| `SkipListRuns.dfy` | whole operations in any interleaving: what an insert has done and a search answers when it returns |
| `SkipList.dfy` | the skip list as a heap of nodes changed in place; each store is a step of that system |
| `Memtable.dfy` | snapshot lookup: internal keys in the skip list, for any user comparator |
| `HandleTable.dfy` | the chained hash table with in-place rehashing, and the cache entry |
| `LruModel.dfy` | one cache shard as a reference model: who is cached, in what order, who holds handles, which deleters ran |
| `LruLaws.dfy` | what each operation of a shard does, said of the state after it |
| `LruCache.dfy` | one cache shard as it is: table, two circular lists, reference counts, charges, deleter calls, all kept in step with the model |
| `LruSession.dfy` | a client of a cache shard: any sequence of requests, with the handles it holds, and the whole life of a cache |
| `ShardedLru.dfy`, `ShardedCache.dfy` | sixteen shards behind one interface, as model states and as sixteen cache objects that share nothing |
| `Merger.dfy` | the merging iterator, its cached wrappers, and the order it is measured against |
| `Crc32c.dfy` | the strided table algorithm against a bit-serial register |
| `Crc32cRemainder.dfy`, `Crc32cValues.dfy` | that register as the division of polynomials in section 12.1 of RFC 3720; known values |
| `Limiter.dfy`, `WorkQueue.dfy` | the resource counter and the background work queue as step systems |
| `MemFile.dfy`, `MemFs.dfy`, `MemEnv.dfy` | block files, the file system as a reference model, and the environment that implements it |
| `Bytes.dfy`, `Coding.dfy` | machine arithmetic on bytes; varints (unsigned LEB128, section 7.6 of DWARF 5), fixed-width integers, length-prefixed slices |
| `Comparator.dfy`, `DbFormat.dfy` | lexicographic order and key shortening; internal keys, their order, snapshots, lookup keys |
| `Arena.dfy`, `Bloom.dfy` | the allocator; the filter, over user keys and over internal keys |
| `Options.dfy`, `Sets.dfy` | a value that may be missing; the size of a subset |

Code that changes state is a class with methods, each proved against a function of the old state; step systems have
one step for each statement that touches shared memory (in the skip list, a store of the only writer is one step with
the loads that feed it, from memory nobody else stores to); the rest is functions and lemmas. Atomics are sequentially
consistent, a method that holds a mutex throughout is one atomic operation, nodes and cache entries are objects, and a
random height, a hash value, or the address `new[]` returns is an arbitrary value in the range the code allows.
Deleter calls and file deletions are recorded where the code makes them. A skip list key is a real number, its
position in the comparator's order; `Memtable.CountingRanks` gives the internal keys in use theirs. Merge keys are
integers, standing for any total order; cache keys are only compared for equality.

## Where the code and its promises part

Each of these has a lemma with the exact condition:

- `RenameFile` to the same name removes the file: the target is removed before the source is read
  (`MemFs.RenameKeepsFileIff`, `MemFs.RenameToItselfRemoves`).
- `PutLengthPrefixedSlice` passes the length as a 32-bit number, so a slice comes back exactly when it is shorter than
  2^32 bytes (`Coding.SliceRoundTripIff`); a failing `GetLengthPrefixedSlice` may already have consumed the length.
- `Limiter::Acquire` can fail although nobody holds a unit, because an earlier failing call has not yet put its unit
  back (`Limiter.AcquireSucceedsIff`, `Limiter.AcquireMayFailWhileFree`).
- A merging iterator that changes direction skips entries of other children with an equal key
  (`MergeOrder.TurnForwardIff`, `MergeOrder.TurnBackwardIff`; `Merger.TurnLosesEntry` is such a case), so it is a plain
  cursor on every sequence of moves exactly when no key is shared (`MergeOrder.PlainIffDisjoint`).
- `AllocateAligned` adds padding in `size_t`, and a request within 7 bytes of its end can wrap to a small one
  (`Arenas.AlignedFitsIff`; `Arenas.WrappingRequest` is such a request).
- Rehashing for more than 2^31 entries never ends: the doubled length wraps to zero (`HandleTables.LoopEndsIff`). An
  `Insert` that needs one more entry in a table of 2^31 therefore does not return; `LruSessions.Session` answers every
  request before the first such one, and every other call is proved to return.
- The rounding of the per-shard capacity wraps for the 15 largest capacities and turns caching off
  (`ShardedLru.CapacityIsSplit`).
- The 32-bit varint decoder drops bits beyond the thirty-second and accepts needlessly long encodings
  (`Coding.Reencodes32`).

## Model

| member | source | states |
|---|---|---|
| `SkipListSteps.StepKept` | memtable/skiplist.h:181-342 | every store of the writer and every load of a searching or walking reader, in any state of the invariant, leads to a state of the invariant |
| `SkipListSteps.RunKeepsInv` | memtable/skiplist.h:181-342 | the invariant holds at every point of every interleaving of inserts with any number of readers |
| `SkipListSteps.LevelsStaySorted` | memtable/skiplist.h:311-342 | at every point of every interleaving each level is a null-terminated chain of strictly increasing keys whose nodes are among those of the level below |
| `SkipListSteps.NoUnsetLinkFollowed` | memtable/skiplist.h:236-341 | no searching reader, no iterator and not the writer ever loads a link that was never stored, even from a stale or freshly raised height |
| `SkipListSteps.SearchesAreExact` | memtable/skiplist.h:236-296 | a search that ends returns the exact answer (least key at or after, greatest before, greatest) over the level-0 keys at its last load |
| `SkipListSteps.ContentsChangeAtPublish` | memtable/skiplist.h:336-341 | the set of keys changes at one step only, the level-0 publication of the new node, and gains exactly its key |
| `SkipListSteps.ContentsGrow` | memtable/skiplist.h:311-342 | over a run, keys are never lost |
| `SkipListSteps.SearchesMissNothing` | memtable/skiplist.h:236-255 | a search finds a node at or before any qualifying key that was present at any earlier point of the run |
| `SkipListSteps.SearchesEnd` | memtable/skiplist.h:236-296 | while a search still runs, the loads it has made are at most the levels plus the nodes there are, whatever is inserted meanwhile: with finitely many inserts it returns |
| `SkipListSteps.WalksAreComplete` | memtable/skiplist.h:181-205 | an iterator that walks from the first node while the writer inserts lists keys in strictly increasing order, misses none that was there when it started, and lists only keys that are there when it ends |
| `SkipListSteps.SeekWalksAreComplete` | memtable/skiplist.h:181-200 | a walk that goes on from the node a `Seek` returned, however much later, lists keys from the target on in strictly increasing order, misses none that was there when the search returned, and lists only keys that are there when it ends |
| `SkipListSteps.BackwardSearchesMissNothing` | memtable/skiplist.h:187-213 | under concurrent inserts `Prev` and `SeekToLast` end at a key, at or after every key they may return that was present at any earlier point of the run |
| `SkipListSteps.OnlyTheWriterStores` | memtable/skiplist.h:110-112 | no reader step changes a link or the height |
| `SkipListSteps.PublishSplices` | memtable/skiplist.h:336-341 | the publishing store puts the node into its level at the right place, and into no other |
| `SkipListRuns.WriterCanStep` | memtable/skiplist.h:311-342 | in every state of a run an idle writer can insert any absent key at any height, and one inside an insert can take its next step |
| `SkipListRuns.ReaderCanStep` | memtable/skiplist.h:236-296 | in every state of a run a reader can begin any search or walk when it is in none, and go on when it is in one |
| `SkipListRuns.InsertAddsItsKey` | memtable/skiplist.h:311-342 | when an insert has returned, the list has exactly the keys it had at the call and the new one, whose node has the chosen height and is linked at exactly the levels below it |
| `SkipListRuns.InsertsEnd` | memtable/skiplist.h:311-342 | an insert returns within a number of the writer's own steps bounded by the levels, the nodes and twice the height, whatever readers do |
| `SkipListRuns.SearchAnswersItsGoal` | memtable/skiplist.h:236-296 | in any interleaving, a search returns the exact answer to the goal it was called with, over the keys linked when it returns |
| `SkipListRuns.SeekMissesNothing` | memtable/skiplist.h:236-255 | `FindGreaterOrEqual` called for a target finds a node, at or after the target and at or before any such key present at any earlier point |
| `SkipListRuns.PrevMissesNothing` | memtable/skiplist.h:259-276 | `FindLessThan` called for a key ends before it, and at or after any smaller key present at any earlier point |
| `SkipListRuns.LastMissesNothing` | memtable/skiplist.h:279-296 | `FindLast` ends at or after any key present at any earlier point |
| `SkipListRuns.ReadYourInsert` | memtable/skiplist.h:311-352 | a search for a key whose insert returned before the search began finds exactly that key |
| `SkipListRuns.SeekThenWalk` | memtable/skiplist.h:181-200 | a `Seek` for a target, and later a walk from its answer: sorted, from the target on, nothing missed that was there when the search returned, nothing listed that is not there |
| `SkipListRuns.WalksEnd` | memtable/skiplist.h:181-184 | a walk that still goes on has made fewer loads than there are nodes |
| `SkipList.SkipListImpl.constructor` | memtable/skiplist.h:299-308 | a new list is valid and stands for the empty set |
| `SkipList.SkipListImpl.FindGreaterOrEqual` | memtable/skiplist.h:236-255 | the node with the least key at or after the target, or null, and for each level where the search left it, with the entries above the tallest level untouched |
| `SkipList.SkipListImpl.FindLessThan` | memtable/skiplist.h:259-276 | the node with the greatest key before the target, or the head if there is none |
| `SkipList.SkipListImpl.FindLast` | memtable/skiplist.h:279-296 | the node with the greatest key, or the head exactly when the set is empty |
| `SkipList.SkipListImpl.Contains` | memtable/skiplist.h:345-352 | true exactly for members of the set |
| `SkipList.SkipListImpl.RaiseHeight` | memtable/skiplist.h:320-333 | raising the height, with the head as predecessor on new levels, is a step of the protocol and keeps the set |
| `SkipList.SkipListImpl.LinkLevel` | memtable/skiplist.h:336-341 | one round of the linking loop is two steps of the protocol and adds the key exactly at level 0 |
| `SkipList.SkipListImpl.Insert` | memtable/skiplist.h:311-342 | for a key not present and any height from 1 to 12 the set gains exactly the key and the list stays valid |
| `SkipList.Iterator.Next` | memtable/skiplist.h:181-184 | moves to the least key above the current one, or becomes invalid if there is none |
| `SkipList.Iterator.Prev` | memtable/skiplist.h:187-195 | moves to the greatest key below the current one, or becomes invalid if there is none |
| `SkipList.Iterator.Seek` | memtable/skiplist.h:198-200 | moves to the least key at or after the target |
| `SkipList.Iterator.SeekToFirst` | memtable/skiplist.h:203-205 | moves to the minimum; valid exactly when the set is not empty |
| `SkipList.Iterator.SeekToLast` | memtable/skiplist.h:208-213 | moves to the maximum; valid exactly when the set is not empty |
| `SkipList.Walk` | memtable/skiplist.h:181-205 | a walk with `SeekToFirst` and `Next` ends and lists exactly the set in strictly increasing order |
| `SkipList.InsertAll` | memtable/skiplist.h:311-342 | inserting distinct keys in any order at any heights gives a list of exactly those keys, and a walk sorts them |
| `Memtable.CountingRanks` | db/dbformat.cpp:44-60 | for every total user order, counting the keys before a key gives positions in the internal order, with equal positions exactly for keys that compare equal |
| `Memtable.RankOrder` | db/dbformat.cpp:44-60 | over the bytewise order there are positions for all internal keys at once, and no two keys share one |
| `Memtable.Add` | memtable/skiplist.h:311-342 | for any user order, adding a version that compares equal to none there gives a list of exactly the versions before and this one |
| `Memtable.Get` | memtable/skiplist.h:236-255 | for any user order, searching the skip list for the lookup key ends at the newest version of the user key the snapshot sees if it sees any, and otherwise at another user key or nowhere |
| `Memtable.AddAllAndGet` | memtable/skiplist.h:236-342 | for any user comparator that is a total order, any versions of which no two compare equal, inserted in any order at any heights, and a lookup at any snapshot: the newest version it sees, or none exactly when it sees none |
| `CacheHandle.MaskIsRemainder` | util/cache.cpp:57-57 | for a power of two, masking the hash with length - 1 is the remainder |
| `HandleTables.LengthFor` | util/cache.cpp:64-68 | in 32-bit arithmetic, the smallest power of two from four up that is at least the number of entries |
| `HandleTables.LoopEndsIff` | util/cache.cpp:64-68 | in 32-bit arithmetic the doubling loop ends exactly when there are at most 2^31 entries |
| `HandleTables.HandleTable.FindPointer` | util/cache.cpp:56-62 | the slot of the first entry with the key and hash in the right chain, or the slot at the end of that chain when there is none |
| `HandleTables.HandleTable.Lookup` | util/cache.cpp:26-28 | the entry with the key and hash, or null exactly when the table has none |
| `HandleTables.HandleTable.Insert` | util/cache.cpp:30-44 | the table gains the entry and hands back exactly the entry with its key and hash it displaced, also when it is full; the invariant (chains partition the entries, power-of-two length, element count at most the length) stays |
| `HandleTables.HandleTable.Remove` | util/cache.cpp:46-54 | the table loses exactly the entry with the key and hash, or nothing if there is none |
| `HandleTables.HandleTable.MoveBucket` | util/cache.cpp:72-83 | moving one bucket keeps every entry in exactly one chain, old or new |
| `HandleTables.HandleTable.Resize` | util/cache.cpp:64-88 | rehashing loses, duplicates and cycles nothing, counts every entry, and leaves room for all of them |
| `LruModel.StepKept` | util/cache.cpp:154-233 | every cache operation keeps the invariant (no entry on two lists, unique keys, held entries on the used list only, deleters once, eviction order by time of becoming unreferenced) and accounts for every entry ever inserted |
| `LruModel.EvictIsShortestPrefix` | util/cache.cpp:195-202 | the eviction loop takes exactly the shortest oldest-first prefix of the idle list that brings the charge down to the capacity, or all of it, and nothing that is held |
| `LruModel.PruneFreesIdle` | util/cache.cpp:225-232 | the pruning loop runs the deleter of every idle entry, oldest first, and of no other |
| `LruModel.InsertThenLookup` | util/cache.cpp:168-205 | an inserted entry is what its key then finds exactly when the capacity is not zero |
| `LruModel.EraseThenLookup` | util/cache.cpp:218-221 | an erased key finds nothing and every other key finds what it found before |
| `LruModel.RunIsSafe` | util/cache.cpp:119-233 | at every point of every run of operations with properly released handles, each deleter ran at most once, and ran exactly when its entry is neither cached nor held; the idle list is in the order entries became unreferenced |
| `LruModel.FreedForGood` | util/cache.cpp:127-139 | a deleter that ran stays on record for the rest of the run |
| `LruLaws.InsertEvicts` | util/cache.cpp:168-205 | after `Insert` the charge is within the capacity or no idle entry is left; the idle list is a suffix of the earlier one without the displaced entry, the longest that fits; exactly the displaced entry, if nobody holds it, and the evicted ones were deleted, in that order; the new entry is held once, and cached if caching is on |
| `LruLaws.LookupHolds` | util/cache.cpp:154-161 | looking up a cached entry gives out one more handle for it, takes it off the idle list, and changes nothing else |
| `LruLaws.LookupMisses` | util/cache.cpp:154-161 | looking up a key that no cached entry has changes nothing |
| `LruLaws.ReleaseGivesBack` | util/cache.cpp:127-166 | one handle fewer is out; the last one makes a cached entry the newest idle one and deletes one no longer cached; nothing else changes |
| `LruLaws.EraseRemoves` | util/cache.cpp:207-221 | an erased entry is no longer cached, and deleted exactly if nobody holds it; nothing else changes |
| `LruLaws.EraseMisses` | util/cache.cpp:218-221 | erasing a key that no cached entry has changes nothing |
| `LruLaws.PruneEmpties` | util/cache.cpp:223-233 | after `Prune` no idle entry is left, all were deleted oldest first, and nothing else changes |
| `LruLaws.CapacityIsSet` | util/cache_impl.h:67-67 | `SetCapacity` sets the capacity and evicts nothing by itself |
| `LruCaches.Unlink` | util/cache.cpp:141-144 | the circular list loses exactly the entry; a second list that shares no node is untouched |
| `LruCaches.Append` | util/cache.cpp:146-152 | the entry becomes the newest of the circular list; a second list that shares no node is untouched |
| `LruCaches.LRUCache.constructor` | util/cache.cpp:94-100 | a new cache is valid, empty and has capacity zero |
| `LruCaches.LRUCache.Ref` | util/cache.cpp:119-125 | lists, counts and charge agree with the model after a handle is given out |
| `LruCaches.LRUCache.Unref` | util/cache.cpp:127-139 | lists, counts, charge and deleter calls agree with the model after a handle comes back: the deleter is called exactly when the count reaches zero, and an entry with only the cache's reference left becomes idle |
| `LruCaches.LRUCache.FinishErase` | util/cache.cpp:207-216 | lists, counts, charge and deleter calls agree with the model after an entry already out of the table leaves the cache |
| `LruCaches.LRUCache.Lookup` | util/cache.cpp:154-161 | returns the cached entry with the key and hash, with one more reference, or null exactly when there is none; follows the model's step |
| `LruCaches.LRUCache.Release` | util/cache.cpp:163-166 | giving back a handle that is out takes one reference, calls the deleter exactly when that was the last, and follows the model's step |
| `LruCaches.LRUCache.Insert` | util/cache.cpp:168-205 | whenever rehashing ends (caching is off, the table has room, or an entry is displaced): a new entry goes in, the displaced one goes out, and eviction follows, exactly as the model's step says; afterwards the usage is within the capacity or the idle list is empty |
| `LruCaches.LRUCache.Erase` | util/cache.cpp:218-221 | afterwards exactly the entries with another key are in the table; follows the model's step |
| `LruCaches.LRUCache.Prune` | util/cache.cpp:223-233 | the pruning loop ends with the idle list empty, having called the deleters of its entries in order; follows the model's step |
| `LruCaches.LRUCache.SetCapacity` | util/cache_impl.h:67-67 | changes the capacity and nothing else |
| `LruCaches.LRUCache.TotalCharge` | util/cache.cpp:114-117 | the sum of the charges of the cached entries |
| `LruCaches.LRUCache.RepresentationsAgree` | util/cache_impl.h:86-91 | in every valid cache: references are handles out plus one if cached, the idle list has exactly the cached entries with one reference, the used list those with more, the table exactly the cached ones, and the usage is the sum of their charges |
| `LruCaches.LRUCache.Destroy` | util/cache.cpp:102-112 | with no used entry left, the destructor calls the remaining deleters oldest first, so for each entry that nobody holds the deleter was called exactly once |
| `LruSessions.Serve` | util/cache.cpp:154-233 | each request of a client that releases only what it holds is done by the operation it asks for, which the model allows; the client then holds what that operation gives out or leaves, which is exactly the handles that are out |
| `LruSessions.Session` | util/cache.cpp:94-233 | any sequence of requests to a new cache, of any length, is answered in order, each by the operation it asks for, up to the first whose call does not return, if there is one; what was done is a run of the model, at whose end all representations agree with it, and of all entries ever inserted the deleter was called for exactly those neither cached nor held by the client, once each |
| `LruSessions.WholeLife` | util/cache.cpp:94-233 | after any session, all handles given back and the destructor: the deleter was called for exactly the entries that were inserted, once each |
| `ShardedLru.StepKept` | util/cache.cpp:252-291 | every shard keeps its invariant and holds only entries whose hash routes to it |
| `ShardedLru.AllowedLocally` | util/cache.cpp:252-276 | an operation the client may do is allowed by every shard it is routed to: a release reaches the shard that gave the handle out |
| `ShardedLru.ShardsAreIndependent` | util/cache.cpp:256-291 | after any run each shard is in the state a single cache reaches on the operations routed to it |
| `ShardedLru.EntriesStayInOneShard` | util/cache.cpp:252-276 | no entry is ever known to two shards |
| `ShardedLru.ShardIsTopBits` | util/cache.cpp:252-254 | the shard is the number that the top four of the 32 bits of the hash spell |
| `ShardedLru.InsertThenLookup` | util/cache.cpp:256-266 | an inserted entry is what its key then finds exactly when its shard has a capacity |
| `ShardedLru.EraseThenLookup` | util/cache.cpp:263-276 | an erased key finds nothing and every other key, in whichever shard, finds what it found before |
| `ShardedLru.LookupHolds` | util/cache.cpp:263-266 | a lookup that finds an entry gives out one more handle in the shard that has it, and touches no other shard |
| `ShardedLru.ReleaseGivesBack` | util/cache.cpp:268-271 | a handle given back is one fewer in the shard that gave it out, and no other shard is touched |
| `ShardedLru.PruneEmpties` | util/cache.cpp:287-291 | pruning leaves no idle entry in any shard, and takes no other |
| `ShardedLru.CapacityIsSplit` | util/cache.cpp:239-244 | the shards together hold the capacity, with less than one unit each too much, exactly when the rounding does not wrap; else they hold nothing |
| `ShardedCaches.ShardedLRUCache.constructor` | util/cache.cpp:239-244 | sixteen new, empty shards that share no object, each with its part of the capacity |
| `ShardedCaches.ShardedLRUCache.ShardsClear` | util/cache.cpp:239-291 | in every valid sharded cache, nothing that a call on one shard may change belongs to another |
| `ShardedCaches.ShardedLRUCache.Insert` | util/cache.cpp:256-261 | the new entry goes to the shard of its key's hash, as the sharded model's step says; the other shards keep their state |
| `ShardedCaches.ShardedLRUCache.Lookup` | util/cache.cpp:263-266 | the entry that the shard of the key's hash finds, or null exactly when it has none; follows the sharded model's step |
| `ShardedCaches.ShardedLRUCache.Release` | util/cache.cpp:268-271 | a handle that some shard gave out goes back to that shard, found by the hash the handle carries; follows the sharded model's step |
| `ShardedCaches.ShardedLRUCache.Erase` | util/cache.cpp:273-276 | erasing a key, present or not, follows the sharded model's step |
| `ShardedCaches.ShardedLRUCache.Prune` | util/cache.cpp:287-291 | pruning the shards one by one is the one step of the sharded model |
| `ShardedCaches.ShardedLRUCache.TotalCharge` | util/cache.cpp:293-299 | the charges of the cached entries of all shards |
| `Merger.IteratorWrapper.Update` | table/iterator_wrapper.h:72-77 | the cached validity and key agree with the child |
| `Merger.IteratorWrapper.Seek` | table/iterator_wrapper.h:55-59 | the child moves to its first key at or after the target and the cache agrees again |
| `Merger.MergingIterator.FindSmallest` | table/merger.cpp:146-159 | the current child holds the least key, the lowest index among ties, or there is none when no child is valid |
| `Merger.MergingIterator.FindLargest` | table/merger.cpp:161-174 | the current child holds the greatest key, the highest index among ties, or there is none when no child is valid |
| `Merger.MergingIterator.SeekToFirst` | table/merger.cpp:29-35 | the cursor is on the first entry of all children |
| `Merger.MergingIterator.SeekToLast` | table/merger.cpp:37-43 | the cursor is on the last entry of all children |
| `Merger.MergingIterator.Seek` | table/merger.cpp:45-51 | the cursor is on the first entry at or after the target |
| `Merger.MergingIterator.Next` | table/merger.cpp:53-77 | the cursor is on the next entry, or after a change of direction on the first entry with a larger key, even when keys are shared |
| `Merger.MergingIterator.Prev` | table/merger.cpp:79-106 | the cursor is on the previous entry, or after a change of direction on the last entry with a smaller key, even when keys are shared |
| `Merger.MergingIterator.Value` | table/merger.cpp:113-116 | the value stored with the entry the cursor is on |
| `Merger.Execute` | table/merger.cpp:29-106 | with no key shared, any sequence of moves takes the iterator where it takes a plain cursor over the sorted union |
| `Merger.ExecuteAny` | table/merger.cpp:29-106 | any sequence of moves, keys shared or not, takes the iterator where it takes a cursor over the stable merge that, turning around, leaves all entries with the current key behind |
| `Merger.TurnLosesEntry` | table/merger.cpp:61-76 | two children with one key: after SeekToLast, Prev, Next the iterator is past the end although the second child's entry comes next |
| `MergeOrder.TurningRunIsPlain` | table/merger.cpp:53-106 | with no key shared that cursor is the plain one |
| `MergeOrder.PlainIffDisjoint` | table/merger.cpp:53-106 | that cursor is the plain one on every sequence of moves exactly when no key is shared |
| `Merger.ForwardPass` | table/merger.cpp:29-77 | a forward pass ends and yields the stable merge, every entry once, whether keys are shared or not |
| `Merger.BothPasses` | table/merger.cpp:29-106 | a backward pass is the exact mirror of a forward pass |
| `MergeOrder.NextInMerge` | table/merger.cpp:75-76 | going on forward is one step along the merge, shared keys or not |
| `MergeOrder.PrevInMerge` | table/merger.cpp:104-105 | going on backward is one step back along the merge, shared keys or not |
| `MergeOrder.TurnForwardIff` | table/merger.cpp:61-76 | turning forward is one step along the merge exactly when no later child holds the current key |
| `MergeOrder.TurnBackwardIff` | table/merger.cpp:87-105 | turning backward is one step back exactly when no earlier child holds the current key |
| `MergeOrder.MergeIsUnique` | table/merger.cpp:146-159 | there is only one stable merge |
| `Crc32c.RegisterIsClocks` | util/crc32c.cpp:309-316 | feeding up to 32 bits to the bit-serial register is clocking the register xored with them |
| `Crc32c.Step1IsRegister` | util/crc32c.cpp:283-287 | one table step is eight bit-serial steps |
| `Crc32c.Step4WIsClocks` | util/crc32c.cpp:309-316 | folding a word is 32 clocks |
| `Crc32c.Step4IsClocks` | util/crc32c.cpp:290-296 | one stride step through four tables is 128 clocks of the partial sum, xored with the new word |
| `Crc32c.RotateAdvances` | util/crc32c.cpp:346-361 | stepping the leading stride and rotating the four advances the combined register by one word |
| `Crc32c.FirstSwath` | util/crc32c.cpp:330-334 | the four words loaded first, combined, are the register after 16 bytes |
| `Crc32c.ExtendWords` | util/crc32c.cpp:328-362 | the strided part leaves the register of the bytes it consumed |
| `Crc32c.Extend` | util/crc32c.cpp:272-373 | for every buffer, start alignment and initial value the result is that of the complemented bit-serial register, which `Crc32cRemainder.CrcIsRemainder` shows to be the CRC of section 12.1 of RFC 3720 |
| `Crc32cRemainder.CrcIsRemainder` | util/crc32c.cpp:272-373 | a word is the CRC exactly when its complement is the remainder, modulo 2, of the message shifted by 32 with the complemented start added in front, divided by the polynomial with exponents 32, 28, 27, 26, 25, 23, 22, 20, 19, 18, 14, 13, 11, 10, 9, 8, 6, 0 |
| `Crc32cRemainder.PolynomialIsGenerator` | util/crc32c.cpp:38-38 | the bits of 0x82f63b78, reversed, are the coefficients of that polynomial below 32 |
| `Crc32cValues.CheckValue` | util/crc32c.cpp:272-373 | the CRC of "123456789" is 0xe3069283 |
| `Crc32cValues.ZerosValue` | util/crc32c.cpp:272-373 | the CRC of 32 zero bytes is 0x8a9136aa, as section B.4 of RFC 3720 says |
| `Crc32c.CrcOfAppend` | util/crc32c.h:12-15 | extending by one string and then another is extending by both |
| `Crc32c.MaskRoundTrip` | util/crc32c.h:27-36 | masking and unmasking 32-bit words undo each other, in both orders |
| `Crc32c.MaskIs` | util/crc32c.h:27-30 | the number of a masked word: that of the word rotated right by 15 bits, plus 0xa282ead8, modulo 2^32 |
| `Limiter.StepConserves` | util/env_posix.cpp:86-113 | every atomic step keeps counter + holders + failing acquires equal to the maximum, and the internal assertion on it holds |
| `Limiter.RunIsSafe` | util/env_posix.cpp:86-113 | in every interleaving units are conserved, holders never exceed the maximum, and neither assertion can fire |
| `Limiter.AcquireSucceedsIff` | util/env_posix.cpp:84-101 | an acquire succeeds exactly when holders and acquires still to be undone leave room |
| `Limiter.UnitsGoBack` | util/env_posix.cpp:93-113 | the second half of a failing acquire, and a release, each add one unit and end the failing call, or lower that thread's holding by one |
| `Limiter.CountsAreExact` | util/env_posix.cpp:86-113 | throughout a run each thread holds exactly what it acquired and has not released, and the counter has every addition and subtraction made |
| `Limiter.AcquireMayFailWhileFree` | util/env_posix.cpp:84-101 | there is a run in which an acquire fails while nobody holds a unit |
| `WorkQueue.StepKeepsInv` | util/env_posix.cpp:809-847 | every statement of a scheduling thread and of a worker, signals and spurious wakeups included, keeps the invariant |
| `WorkQueue.RunIsSafe` | util/env_posix.cpp:809-847 | in every interleaving items run, in hand and queued are exactly those scheduled in order, at most one worker is ever created, and with the mutex free and work waiting there is a worker that is awake or has a signal |
| `WorkQueue.WorkIsNeverStuck` | util/env_posix.cpp:809-847 | while work waits some thread can step, and with the mutex free the worker can |
| `WorkQueue.HistoryGrows` | util/env_posix.cpp:809-847 | what has been run is always a prefix of what was scheduled, and neither history is ever rewritten |
| `WorkQueue.ClientStepOneWorker` | util/env_posix.cpp:815-819 | the mutex makes the test, the assignment and the thread creation one: no second worker, although each is its own step |
| `WorkQueue.ItemsAreRun` | util/env_posix.cpp:809-847 | every scheduled item has run after seven steps of the worker and six more for each item ahead of it, whatever the schedulers do and however often it is woken for nothing |
| `WorkQueue.CallSchedulesItsItem` | util/env_posix.cpp:809-829 | a call that has returned has scheduled its item, once, and nothing else, and it returns after at most eight steps of its own |
| `WorkQueue.CallersCanStep` | util/env_posix.cpp:809-829 | a thread outside can call with any item, and one inside can go on unless it waits for the mutex |
| `MemFile.FileState.Read` | helper/memenv/memenv.cpp:66-101 | an error past the end, otherwise exactly the requested bytes clipped to the size, the rest of the buffer untouched |
| `MemFile.FileState.Append` | helper/memenv/memenv.cpp:103-131 | the contents are the old ones followed by the data, over ceil(size/8192) distinct blocks |
| `MemFile.FileState.Truncate` | helper/memenv/memenv.cpp:57-64 | the file is empty and has no blocks |
| `MemFile.SequentialFile.Read` | helper/memenv/memenv.cpp:155-161 | the next bytes, advancing by what was read; an error and no movement once the file was truncated below the position |
| `MemFile.SequentialFile.Skip` | helper/memenv/memenv.cpp:163-173 | moves by the amount clipped to the end; an error and no movement past the end |
| `MemFile.ReadToEnd` | helper/memenv/memenv.cpp:155-161 | reading on with any positive buffer size yields the rest of the file |
| `MemFs.StepKept` | helper/memenv/memenv.cpp:227-351 | every operation keeps at most one name per file, and exactly the named or open files exist |
| `MemFs.FilesLiveWhileReferenced` | helper/memenv/memenv.cpp:28-50 | at every point of every run, every file created before is deleted, once and for good, exactly when it has neither a name nor an open object |
| `MemFs.StepKnown` | helper/memenv/memenv.cpp:227-351 | no operation forgets a file or a deletion: every file ever created either exists or was deleted |
| `MemFs.ReadersSeeSameBytes` | helper/memenv/memenv.cpp:307-351 | over any stretch of a run in which a file stays open and nobody writes it, its bytes stay the same whatever happens to names |
| `MemFs.UnnamedFilesArePrivate` | helper/memenv/memenv.cpp:307-324 | a file that lost its name never gets one again, and only appends through objects already open change it |
| `MemFs.RenameMoves` | helper/memenv/memenv.cpp:347-349 | the assignments of a rename to another name move the file there and leave nothing under the old name |
| `MemFs.RenameToItselfRemoves` | helper/memenv/memenv.cpp:347-349 | renaming a file to its own name removes it |
| `MemFs.RenameKeepsFileIff` | helper/memenv/memenv.cpp:340-351 | the file is under the new name afterwards exactly when the names differ |
| `MemFs.RenameDoes` | helper/memenv/memenv.cpp:340-351 | after `RenameFile` to another name, the target stands for the source's file, the source name is gone, the target's old file is deleted exactly if it is not open, and other names and the bytes of remaining files are as before |
| `MemFs.RenameElse` | helper/memenv/memenv.cpp:340-351 | a rename of an unknown name changes nothing, and one to the same name removes it |
| `MemFs.RemoveDoes` | helper/memenv/memenv.cpp:307-324 | after `RemoveFile` the name is gone, the file is deleted exactly if it is not open, and other names and bytes are as before |
| `MemFs.OpenWriterDoes` | helper/memenv/memenv.cpp:251-269 | the name stands for a file without bytes, its old one or a new one, open once more; other names and bytes are as before |
| `MemFs.OpenAppenderDoes` | helper/memenv/memenv.cpp:271-283 | the same, but an existing file keeps its bytes |
| `MemFs.OpenReaderDoes` | helper/memenv/memenv.cpp:227-249 | a known file is open once more, and nothing else changes |
| `MemFs.AppendDoes` | helper/memenv/memenv.cpp:201-201 | the file has the data behind its bytes, and nothing else changes |
| `MemFs.CloseDoes` | helper/memenv/memenv.cpp:199-199 | the file is open once less, deleted exactly if that was its last reference, and nothing else changes |
| `MemEnvs.InMemoryEnv.NewSequentialFile` | helper/memenv/memenv.cpp:227-237 | an object on the named file at position zero, or null exactly when there is none; follows the model's step |
| `MemEnvs.InMemoryEnv.NewRandomAccessFile` | helper/memenv/memenv.cpp:239-249 | an object on the named file, or null exactly when there is none; follows the model's step |
| `MemEnvs.RandomAccessFile.Read` | helper/memenv/memenv.cpp:186-189 | the requested bytes clipped to the size, the rest of the buffer untouched, or an error past the end that touches nothing |
| `MemEnvs.InMemoryEnv.NewWritableFile` | helper/memenv/memenv.cpp:251-269 | the name stands for an object's file without bytes, a new one or the existing one truncated under all its readers; other names and bytes stay |
| `MemEnvs.InMemoryEnv.NewAppendableFile` | helper/memenv/memenv.cpp:271-283 | the name stands for an object's file, a new empty one or the existing one with its bytes; other names and bytes stay |
| `MemEnvs.InMemoryEnv.Append` | helper/memenv/memenv.cpp:201-201 | the file's bytes grow by the data, every other file keeps its blocks and bytes |
| `MemEnvs.InMemoryEnv.Close` | helper/memenv/memenv.cpp:199-199 | the file is open once less and deleted exactly if the count reaches zero; names and the bytes of other files stay |
| `MemEnvs.InMemoryEnv.DropRef` | helper/memenv/memenv.cpp:35-50 | the count never goes below zero, and the file is deleted exactly when it reaches zero, which is exactly when the model collects it |
| `MemEnvs.InMemoryEnv.RemoveFile` | helper/memenv/memenv.cpp:316-324 | the name goes, other names and bytes stay, and the file is deleted exactly if nothing is open on it; fails, changing nothing, exactly for unknown names |
| `MemEnvs.InMemoryEnv.RenameFile` | helper/memenv/memenv.cpp:340-351 | for distinct names the map is the old one without both names and with the target standing for the source's file, remaining files keep their bytes, and the target's old file is deleted exactly if it is not open; for equal names the name goes; fails, changing nothing, exactly for unknown sources |
| `MemEnvs.InMemoryEnv.FileExists` | helper/memenv/memenv.cpp:285-288 | true exactly for the names the model has |
| `MemEnvs.InMemoryEnv.GetFileSize` | helper/memenv/memenv.cpp:330-338 | the number of bytes of the named file; fails exactly for unknown names |
| `Coding.EncodeVarint32` | util/coding.cpp:19-45 | the unrolled encoder writes the LEB128 bytes of the value at the offset and nothing else |
| `Coding.EncodeVarint64` | util/coding.cpp:53-62 | the loop writes the same bytes as the unrolled form wherever both apply |
| `Coding.VarintLength` | util/coding.cpp:75-82 | the length of the encoding |
| `Coding.VarintByte` | util/coding.cpp:19-62 | byte i of a varint has the seven bits of the value from bit 7i on, with the top bit set exactly when more bytes follow |
| `Coding.WordsFit` | util/coding.cpp:47-68 | five bytes hold every 32-bit value and ten every 64-bit value |
| `Coding.GetVarint32PtrFallback` | util/coding.cpp:84-100 | recognises exactly the complete varints of at most five bytes, and returns their value modulo 2^32 and the position after them |
| `Coding.GetVarint32Ptr` | util/coding.h:101-111 | the fast path agrees with the loop |
| `Coding.GetVarint64Ptr` | util/coding.cpp:114-129 | recognises exactly the complete varints of at most ten bytes, and returns their value modulo 2^64 and the position after them |
| `Coding.GetVarint32` | util/coding.cpp:102-112 | on success the value and the rest of the slice, on failure the slice as it was |
| `Coding.GetVarint64` | util/coding.cpp:131-141 | on success the value and the rest of the slice, on failure the slice as it was |
| `Coding.PutVarint32` | util/coding.cpp:47-51 | appends the encoding; its five-byte buffer is never overrun |
| `Coding.PutVarint64` | util/coding.cpp:64-68 | appends the encoding; its ten-byte buffer is never overrun |
| `Coding.RoundTrip` | util/coding.cpp:19-141 | decoding an encoding followed by any bytes gives the value and exactly those bytes |
| `Coding.PrefixIsRejected` | util/coding.cpp:84-129 | no strict prefix of an encoding decodes |
| `Coding.ListRoundTrip32` | util/coding.cpp:19-112 | any list of 32-bit values encoded in a row, with any bytes behind, decodes to the list and those bytes |
| `Coding.ListRoundTrip64` | util/coding.cpp:53-141 | any list of 64-bit values encoded in a row, with any bytes behind, decodes to the list and those bytes |
| `Coding.Reencodes32` | util/coding.cpp:84-100 | re-encoding what was read gives the bytes read exactly when they had no needless last zero and no bits beyond the thirty-second |
| `Coding.Reencodes64` | util/coding.cpp:114-129 | re-encoding what was read gives the bytes read exactly when they had no needless last zero and no bits beyond the sixty-fourth |
| `Coding.PutLengthPrefixedSlice` | util/coding.cpp:70-73 | appends the length, cut to 32 bits, and the bytes |
| `Coding.GetLengthPrefixedSlice` | util/coding.cpp:143-152 | the slice and the rest, or failure, with what the input then is in each case |
| `Coding.SliceRoundTripIff` | util/coding.cpp:70-152 | a slice comes back, whatever follows it, exactly when it is shorter than 2^32 bytes |
| `Coding.SliceListRoundTrip` | util/coding.cpp:70-152 | a list of such slices comes back with exactly the bytes that follow it |
| `Coding.EncodeFixed64` | util/coding.h:57-69 | writes eight bytes, least significant first, and nothing else |
| `Coding.EncodeFixed32` | util/coding.h:47-55 | writes four bytes, least significant first, and nothing else |
| `Coding.LittleEndianByte` | util/coding.h:47-69 | byte i of a fixed-width integer has the eight bits of the value from bit 8i on |
| `Coding.Fixed64RoundTrip` | util/coding.h:57-96 | what was written comes back whatever follows |
| `Coding.Fixed64IsOnto` | util/coding.h:84-96 | every eight bytes are the encoding of the 64-bit number they decode to |
| `Coding.Fixed32RoundTrip` | util/coding.h:47-82 | what was written comes back whatever follows |
| `BytewiseComparator.CompareIsLexicographic` | include/lldb/slice.h:89-99 | the sign of the comparison is the dictionary order, zero exactly for equal strings |
| `BytewiseComparator.LessIsTransitive` | include/lldb/slice.h:66-70 | the dictionary order is transitive |
| `BytewiseComparator.FindShortestSeparator` | util/comparator.cpp:26-47 | the start stays as it is, or becomes a string strictly between start and limit that is a shortest such string; it changes exactly when the first difference leaves room for a byte in between |
| `BytewiseComparator.FindShortSuccessor` | util/comparator.cpp:49-60 | unchanged exactly for strings of 0xff only, otherwise a shortest string after the key, one byte longer than its leading 0xff |
| `DbFormat.PackIs` | db/dbformat.cpp:12-16 | sequence number and type share no bit and fit 64 bits |
| `DbFormat.AppendInternalKey` | db/dbformat.cpp:18-21 | appends the user key and the tag |
| `DbFormat.ParseUndoesEncode` | db/dbformat.h:167-177 | parsing an encoded key gives it back |
| `DbFormat.EncodeUndoesParse` | db/dbformat.h:167-177 | parsing fails exactly on short keys and unknown types, and what parses is the encoding of what was read |
| `DbFormat.BytewiseIsTotal` | util/comparator.cpp:22-24 | the bytewise order is a total order |
| `DbFormat.InternalOrderIsTotal` | db/dbformat.cpp:44-60 | the internal order is total for every total user order |
| `DbFormat.BytewiseEqualityIsIdentity` | db/dbformat.cpp:44-60 | over the bytewise order only identical internal keys compare equal |
| `DbFormat.SeekSplitsVersions` | db/dbformat.cpp:44-60 | among versions of a user key, those at or after the seek key are exactly those the snapshot sees |
| `DbFormat.SnapshotLookup` | db/dbformat.cpp:44-60 | in any sorted list of internal keys, the first at or after the lookup key is the newest version of the user key the snapshot sees if it sees any, and otherwise has another user key |
| `DbFormat.EarliestIsFirst` | db/dbformat.cpp:73-74 | the tag of a shortened key sorts before every other tag of its user key |
| `DbFormat.FindShortestSeparator` | db/dbformat.cpp:62-79 | over the bytewise order: the start stays, or becomes a shorter internal key strictly between start and limit; with the exact condition for the change |
| `DbFormat.FindShortSuccessor` | db/dbformat.cpp:81-94 | over the bytewise order: the key stays, or becomes a shorter internal key after it with a shortest user key; with the exact condition for the change |
| `DbFormat.AdoptShorter` | db/dbformat.cpp:69-93 | for any user comparator and any shortened user key: the key changes exactly when that is shorter and comes after, and the new key then comes after the old |
| `DbFormat.StaysBelowIff` | db/dbformat.cpp:76-76 | for any user comparator and any shortening, exactly when the shortened key stays below the limit |
| `DbFormat.FindSeparatorWith` | include/lldb/comparator.h:41-45 | for any user comparator that keeps the interface's promise, the separator is the start or a shorter key strictly between |
| `DbFormat.LookupKey.constructor` | db/dbformat.cpp:114-131 | the buffer is large enough and holds the length-prefixed internal key of the user key at the snapshot |
| `DbFormat.LookupKeyViews` | db/dbformat.h:191-198 | the three views agree, and a memtable reads the internal key back exactly when user key and tag together are shorter than 2^32 bytes |
| `Arenas.TailIsSmall` | util/arena.cpp:19-41 | a tail too small for an aligned request of at most a quarter block is itself under a quarter block, padding notwithstanding |
| `Arenas.AlignedFitsIff` | util/arena.cpp:41-43 | the `size_t` test agrees with the exact one unless the sum wraps to one the tail could serve |
| `Arenas.Arena.AllocateNewBlock` | util/arena.cpp:51-57 | the block is owned and the memory usage stays the sum of block sizes plus a pointer each |
| `Arenas.Arena.AllocateFallback` | util/arena.cpp:18-31 | a large request gets its own block, any other a new standard block, leaving behind a tail of under 1024 bytes |
| `Arenas.Arena.Allocate` | util/arena.h:53-63 | over every sequence of calls the ranges handed out share no byte with each other or the free tail, each lies in one owned block, and every byte of every block is handed out, padding, left behind or free |
| `Arenas.Arena.AllocateAligned` | util/arena.cpp:33-49 | the same, with a result aligned to 8; a request that wraps is singled out |
| `Arenas.WrappingRequest` | util/arena.cpp:41-48 | after one byte, a request for all but two bytes of the address space is taken for one of four bytes and gets a range that lies in no block |
| `Bloom.CreateFilter` | util/bloom.cpp:27-48 | earlier contents of the string stay, and after them comes a filter whose set bits are exactly the probes of the listed keys |
| `Bloom.KeyMayMatch` | util/bloom.cpp:50-71 | false for filters without room for bits, true for reserved probe counts, otherwise whether every probe is set |
| `Bloom.NoFalseNegatives` | util/bloom.cpp:27-71 | every listed key matches |
| `Bloom.MatchIff` | util/bloom.cpp:50-71 | any key matches exactly when each of its probes falls on a listed key's probe |
| `Bloom.ProbeCount` | util/bloom.cpp:16-21 | between 1 and 30 probes, so a written count is never read as reserved |
| `Bloom.RoundingDoesNotMatter` | util/bloom.cpp:16-21 | any product within a hundredth of a percent of the exact one, as a floating-point product is, gives the same number of probes |
| `Bloom.ProbeCountIs` | util/bloom.cpp:16-21 | in whole numbers: 69 hundredths of the bits per key, rounded down, but at least 1 and at most 30 |
| `Bloom.ProbeIs` | util/bloom.cpp:39-46 | probe j is j times the hash rotated right by 17 bits past the hash, modulo 2^32 |
| `Bloom.FilterBytesIs` | util/bloom.cpp:29-33 | the fewest whole bytes with room for the bits asked for and for 64 |
| `InternalFilter.CreateFilter` | db/dbformat.cpp:98-108 | the caller's keys are overwritten by their user keys, and the filter is that of the user keys |
| `InternalFilter.KeyMayMatch` | db/dbformat.cpp:110-112 | the answer for the user key |
| `InternalFilter.EveryVersionMatches` | db/dbformat.cpp:98-112 | every internal key with a listed user key matches, whatever its sequence number and type |

## Left out

- POSIX files, locks, memory maps, directories and the logger: system-call plumbing.
- Weak memory: relaxed, acquire and release operations are modelled as sequentially consistent steps.
- Raw memory layout, placement new and flexible arrays; deletions are recorded, memory is not reused.
- The literal CRC tables and the hardware path: the tables are given by their defining equations.
- The internals of `Hash` and `Random`, the Bloom false-positive rate and the expected cost of skip list searches.
- The cache's value pointers and deleter functions: calls of an entry's deleter are recorded, in order. Reference counts and
  charges are unbounded, so wrap-around after 2^32 references or 2^64 units of charge is not captured.
- HandleTables.LengthFor: stated for at most 2^31 entries, exactly those for which the loop ends (`HandleTables.LoopEndsIff`).
- HandleTables.HandleTable.Resize: stated for at most 2^31 entries, for the same reason.
- `NewMergingIterator` for no or one child, and the status of a merging iterator.
- Children of a merging iterator are lists with strictly increasing keys; an iterator whose data changes under it is not modelled.
- The in-memory environment's destructor, which drops every name's reference; `GetChildren`, which cuts names down to those
  under a directory; `CreateDir` and `RemoveDir`, which do nothing; `LockFile` and `UnlockFile`, which make and delete an
  object nobody reads; the logger, which drops its arguments.
- `ShardedLRUCache::NewId`, a counter under a mutex, and `Value`, which reads a field of the handle.
- Bloom filters with a negative number of bits per key, whose product the code casts to an unsigned integer.
- Histograms, which sum and bucket measurements; status and options, which hold values; logging and debug strings, which
  format text.
