# Ristretto in Dafny

A model of Ristretto, the concurrent Go cache, and proofs of what its parts promise. It covers
the storage structures of package `z` (the page-based B+ tree, the record buffer and its in-place
sort, the lock-free bump allocator, the in-node search) and the cache core (clients and worker,
the eviction policy with its sketch and doorkeeper, the store and its expiration index).

- **Tree** (`Search`, `BTreeNode`, `BTreeShape`, `BTreeIteration`, `BTreeCompaction`,
  `BTreeReload`, `BTree`, `BTreeRuns`). A page is an array of `2 * maxKeys + 2` words and the tree
  is the pages. A ghost tree says which page holds which node; the invariant asks that the pages hold
  exactly that tree, that keys ascend and a parent's key is its child's largest, that no node is
  full and all leaves are at one depth, that the last key is the absolute maximum, and that tree
  and free list use every page once. `Set`, `Get`, `DeleteBelow`, `IterateKV`, closing
  and reopening are proved against a plain map. `maxKeys` is any number from 3 on.
- **Buffer and sort** (`Records`, `Buffer`, `BufferSort`). Records are a 64-bit big-endian length
  and the bytes. Sorting is stated for any comparison (the same records, nothing else touched) and
  for a strict weak order (sorted).
- **Allocator** (`Powers`, `Allocator`, `AllocatorSteps`). Once as an object used by one goroutine,
  and once as a system of atomic steps of any number of goroutines.
- **Policy** (`Bloom`, `Sketch`, `TinyLfu`, `Metrics`, `Policy`, `Collections`). Bit- and
  nibble-level counters, the eviction loop with arbitrary sampling, and the wrap-around metrics.
- **Store** (`Ttl`, `Store`). 256 shards and one shared index of five-second buckets; time is an
  argument of every operation.
- **Cache** (`Cache`, `CacheCalls`). Clients and the worker as a step system; the policy's answer is any that the
  contract of `Policy.DefaultPolicy.Add` allows, which `Cache.AskPolicy` shows. `CacheCalls` ties the
  steps to the store's and the policy's methods and says what whole calls and whole items do.

A run is a sequence of actions chosen freely, so a statement about all runs covers every
interleaving. A method that stands for Go code which panics returns a flag or a `Panic` value where
the panic is part of what is proved; the tree's `Get` and `Set` take only keys that do not panic.

Where the code and its description differ, the model follows the code. `DeleteBelow` is described
as deleting all keys with a value under `ts`; it keeps the largest key of every leaf that stays.
`BTreeRuns.DropsAllIff` says exactly when the description holds, and `BTreeRuns.DropLeavesOne` runs
into a case where it does not. The allocator's packed index is safe only while its low half does
not carry: `AllocatorSteps.FreshSafeIff` gives the exact bound, and `AllocatorSteps.CarryCrashes`
a crashing run for every setting at or beyond it. A stored tree cannot be reopened when
the page after its last one is the partial one that the file's padding leaves (`BTree.Tree.Open`).
`SliceOffsets` of an empty buffer returns one offset.
After `TrimTo` and `Reset`, as the pool of allocators does it, an allocator is usable if and only if
its first buffer is below the limit (`Allocator.Allocator.Recycle`); if it is not, no request
succeeds (`AllocatorSteps.NothingWithoutFirst`, `AllocatorSteps.FirstRequestCrashes`). An entry put
late into an expiration bucket that has been cleaned outlives every later cleanup (`Store.Run`);
`Store.LateEntryStays` shows one.

## Model

| member | source | states |
|---|---|---|
| Search.Naive | z/simd/baseline.go:11-20 | the result, as a 16-bit number, is the first even position from which a key is at least `k`, or the number of positions |
| Search.Search | z/simd/search.go:23-52 | the unrolled search returns what the naive one is specified to return, on slices of any length |
| Search.Binary | z/simd/baseline.go:92-99 | on ascending keys the binary search meets the same specification |
| Search.FirstAtLeastIsUnique | z/simd/baseline.go:11-20 | only one result meets the specification, so the three searches agree |
| BTreeNode.SearchKey | z/btree.go:579-612 | a node's search returns the rank of the key: how many keys are smaller, for the short scan and the long one |
| BTreeNode.MaxKey | z/btree.go:613-620 | the last key in use, or zero for an empty node |
| BTreeNode.Get | z/btree.go:651-661 | the value stored under exactly that key, or zero |
| BTreeNode.Set | z/btree.go:664-689 | the page afterwards holds the pairs with `k` put in order, all others kept and the unused words zero; returns 1 exactly if the key is new |
| BTreeNode.MoveRight | z/btree.go:547-553 | moves the pairs from a slot on up by one slot and changes nothing else |
| BTreeNode.Compact | z/btree.go:624-649 | keeps exactly the pairs with a value of at least `lo` and the largest key, in order, with zeros behind; returns 0 exactly if only a too small largest key is left |
| BTreeNode.VisitVals | z/btree.go:420-433 | every key stays; the value of a pair is the callback's answer if value and answer are not zero, and the old value otherwise; no other word changes |
| BTree.Tree.NewNode | z/btree.go:213-236 | takes the head of the free list, or else the next page with growth; the page is one no other node uses and comes back empty with its number and kind set |
| BTree.Tree.Split | z/btree.go:461-479 | the lower half of the pairs stays, the upper half is on a fresh page, no other used page changes |
| BTree.Tree.SplitChild | z/btree.go:309-324 | splitting a full child and linking both halves in the parent keeps the contents, the key order and every other page, whatever the child holds |
| BTree.Tree.SplitRoot | z/btree.go:262-278 | a full root becomes two halves under a root on the same page, one level higher, with the same contents |
| BTree.Tree.SetRec | z/btree.go:283-326 | below any node, the subtree afterwards represents the old map with `k` set to `v`, is well formed except that its top may be full, and pages outside it are unchanged |
| BTree.Tree.Set | z/btree.go:258-279 | the map changes at `k` only, through leaf, internal and root splits, page reuse and growth, and the invariant holds again |
| BTree.Tree.GetRec | z/btree.go:338-350 | below any node, the value the subtree's map has under the key, or zero |
| BTree.Tree.Get | z/btree.go:330-336 | the value of the map, or zero |
| BTree.Tree.constructor | z/btree.go:60-68 | a fresh tree is valid and holds only the absolute maximum with value zero |
| BTree.Tree.InitRootNode | z/btree.go:52-57 | from zeroed pages, makes the root and its rightmost key |
| BTree.Tree.CompactRec | z/btree.go:360-385 | below any node, the pages hold the compacted tree, freed pages join the free list, and zero comes back exactly for a leaf with no value of at least `ts` |
| BTree.Tree.DeleteBelow | z/btree.go:353-358 | the tree is valid and is the compacted one: a key survives exactly if its value is at least `ts` or it is the largest key of a leaf that stays, with its value; in every leaf all pairs but the largest have a value of at least `ts`, and a leaf with no such value is the last child of its parent |
| BTree.Tree.Counts | z/btree.go:187-200 | at any moment between operations the number of leaf keys is the number of keys in the map, and pages in use and free pages are all pages up to the next one |
| BTreeCompaction.CompactedMap | z/btree.go:360-385 | for every well-formed tree, which keys compaction keeps, both directions, and that it changes no value |
| BTreeCompaction.CompactedWf | z/btree.go:360-385 | compaction keeps order, depth, sizes and the largest key of every tree, so the last child's largest key stays |
| BTreeCompaction.DropMeansDead | z/btree.go:643-648 | the zero that page compaction returns says exactly that every value was below the limit |
| BTreeCompaction.TidyCompacted | z/btree.go:360-385 | after compaction only the largest pair of a leaf can be below `ts`, and only the last child of a node can be a leaf with nothing else |
| BTree.Tree.IterateKV | z/btree.go:413-435 | the same keys; a key whose value and callback answer are not zero has that answer, every other key keeps its value; the shape stays |
| BTreeIteration.MappedContents | z/btree.go:413-435 | visiting every leaf is visiting every pair of the map once |
| BTreeIteration.MappedValues | z/btree.go:420-433 | which value every key has after a visit, without the function that says so |
| BTree.Tree.Open | z/btree.go:71-96 | from the stored pages of any tree alone, a valid tree with the same contents; from pages that were never initialised, a valid tree that holds only the absolute maximum; it panics if and only if page 1 is not whole, or the data ends inside the page after the last one of the tree |
| BTree.Tree.ValidStored | z/btree.go:168-173 | the pages of every live tree, at any moment between operations, store exactly that tree, its free list and its counts |
| BTree.Tree.Reinit | z/btree.go:100-151 | recovers the next page, the head of the free list, the number of free pages and the number of leaf keys, unless the search for the next page runs into a partial one |
| BTreeReload.PageIds | z/btree.go:101-110 | a page below the next one carries its own number and a later one carries zero |
| BTreeReload.OnlyHead | z/btree.go:138-150 | of the free pages, exactly the head of the list is one that no free page names |
| BTreeRuns.Run | z/btree.go:71-435 | every run of sets, deletions, visits and reopenings keeps the invariant, and each step changes the map as it should, up to the one panic that reopening has; after a deletion a key reads its value or zero, and zero only if its value was below `ts`; reopening changes nothing |
| BTreeRuns.Reload | z/btree.go:71-151 | closing a tree and opening its pages gives the same tree with the same counts and free list, or panics if and only if all whole pages are in use with a partial one behind them |
| BTreeRuns.DropsAllIff | z/btree.go:352-358 | what DeleteBelow is described to do holds if and only if no leaf that stays has its largest key on a non-zero value below `ts` |
| BTreeRuns.SmallTreeStored | z/btree.go:71-96 | four concrete pages, with 3 and 5 in one leaf and 7 and the absolute maximum in the other, are the stored pages of a whole valid tree |
| BTreeRuns.SmallTreeKeeps | z/btree.go:629-632 | in that tree 5 holds 1, which is below 2, and keeps it under compaction with limit 2 |
| BTreeRuns.DropLeavesOne | z/btree.go:352-358 | opening those pages and calling DeleteBelow(2), Get of 5 gives 1 before and after, and the tree is the compacted one |
| Records.GetPut | z/buffer.go:255-258 | a length written big-endian is read back, for every 64-bit length |
| Records.PutBytes | z/buffer.go:255-258 | byte `i` of a written length is its `i`-th most significant byte |
| Records.FirstRecord | z/buffer.go:475-488 | reading at the start of an encoding gives the first payload, and behind it is the encoding of the others |
| Records.DecodeEncode | z/buffer.go:274-297 | reading records one after the other gives back any list of payloads |
| Records.EncodeInjective | z/buffer.go:264-277 | two lists with the same bytes are the same list |
| Records.MergedPermutes | z/buffer.go:363-403 | merging keeps all records, each as often, whatever the comparison |
| Records.MergedSorted | z/buffer.go:363-403 | for a strict weak order, merging two sorted lists gives a sorted list |
| Buffer.Buffer.Grow | z/buffer.go:172-235 | afterwards there is room for `n` more bytes and the bytes in use are the same, or the limit is exceeded and nothing changes; a buffer that grows grows by its size and `n`, at most 2^30, but at least `n` |
| Buffer.Buffer.Allocate | z/buffer.go:240-245 | hands out the next `n` bytes and leaves those before alone |
| Buffer.Buffer.Write | z/buffer.go:509-515 | appends exactly these bytes |
| Buffer.Buffer.SliceAllocate | z/buffer.go:264-268 | writes the length and makes room behind it |
| Buffer.Buffer.WriteSlice | z/buffer.go:274-277 | appends one record and nothing else, or panics at the limit with the data unchanged |
| Buffer.Buffer.Slice | z/buffer.go:475-488 | the payload of the record at an offset, and where the next one starts or -1 behind the last |
| Buffer.Buffer.SliceIterate | z/buffer.go:279-297 | reports a failure if and only if some non-empty record fails; then it has called back with the non-empty records up to and including the first that fails, and otherwise with all of them |
| Buffer.VisitedUpTo | z/buffer.go:285-296 | where iteration stops: behind the first non-empty record that fails, or nowhere |
| Buffer.NonEmptyIs | z/buffer.go:287-290 | of the records exactly the non-empty ones are left, in order |
| Buffer.Buffer.SliceOffsets | z/buffer.go:491-499 | one offset a record, the first behind the padding and each next one behind the record before, and one offset for an empty buffer |
| Buffer.WriteAndIterate | z/buffer.go:274-297 | after any sequence of WriteSlice, through any growth, iterating yields exactly the non-empty slices in order |
| BufferSort.SortHelper.SortSmall | z/buffer.go:327-347 | one chunk is replaced by a permutation of its records, sorted for a strict weak order, with all other bytes unchanged |
| BufferSort.SortHelper.MergeOne | z/buffer.go:375-402 | each step puts the right record next, never overwrites an unread one, and keeps the write position plus the rest of the left run at the right run's read position |
| BufferSort.SortHelper.Merge | z/buffer.go:363-403 | two neighbouring runs become the merge of both, in place, with all other bytes unchanged |
| BufferSort.SortHelper.Sort | z/buffer.go:405-423 | the range of chunks becomes the merge of the merges of its halves |
| BufferSort.Chunk | z/buffer.go:437-449 | the noted offsets cut the stretch into chunks of whole records that together are all its records |
| BufferSort.MergedChunksPermute | z/buffer.go:405-423 | merging chunks by halves keeps all records |
| BufferSort.MergedChunksSorted | z/buffer.go:405-423 | merging sorted chunks by halves gives a sorted list |
| BufferSort.SortSliceBetween | z/buffer.go:429-467 | the records between two offsets are permuted, sorted for a strict weak order, no byte outside changes; start zero panics |
| Allocator.FirstSize | z/allocator.go:67-83 | the first buffer has the least power of two that is at least 512 and at least the size asked for |
| Allocator.Log2 | z/allocator.go:158-169 | the floor of the binary logarithm |
| Allocator.OnesOfPower | z/allocator.go:79-82 | a number has more than one bit set exactly if it is not a power of two |
| Allocator.PageSize | z/allocator.go:260-269 | a new buffer holds the request and is at most the maximum |
| Allocator.PageSizeIs | z/allocator.go:260-269 | a new buffer is as long as the least 2^e times the one before, with e at least 1, that holds the request, cut to the maximum |
| Allocator.GrownKeeps | z/allocator.go:246-276 | adding a buffer changes no existing one, makes the next one exist and makes at most one |
| Allocator.Allocator.AddBufferAt | z/allocator.go:246-276 | fails if and only if every buffer from the index on is there and too small; otherwise the first buffer that is not too small is there afterwards, made with the length that PageSizeIs says if it was not, and no other changes |
| Allocator.Allocator.Allocate | z/allocator.go:278-309 | panics if and only if the size is above the maximum, or the rest of the current buffer and every later buffer are there and too small; otherwise the range has the requested length, is the next one of the current buffer if it fits there, and else the start of the first later buffer that is not too small, made if need be; size 0 gives nothing |
| Allocator.PlacedInside | z/allocator.go:285-308 | a placement is inside its buffer, behind the position before, and no buffer is lost |
| Allocator.PlacedIs | z/allocator.go:296-306 | a request that does not fit goes to the start of the first later buffer that is not too small, or nowhere if all are |
| Allocator.ReplayAfterReset | z/allocator.go:91-93 | after Reset the same requests get the same places and no new buffer is made |
| Allocator.Allocator.Size | z/allocator.go:143-156 | the lengths of the buffers before the current one plus the position |
| Allocator.Allocator.TrimTo | z/allocator.go:179-192 | before the first gap a buffer stays if and only if the total up to it is below the limit, and behind the gap all stay |
| Allocator.TrimmedSound | z/allocator.go:179-192 | the buffers that TrimTo leaves can be used from their start exactly if the first was below the limit; otherwise there is no first buffer |
| Allocator.Allocator.Recycle | z/allocator.go:326-346 | after TrimTo and Reset the allocator is valid if and only if its first buffer was below the limit |
| AllocatorSteps.StepKeeps | z/allocator.go:278-309 | every step of every goroutine keeps all handed-out and pending ranges apart and behind the current position, unless a reservation carries |
| AllocatorSteps.StepKeepsBound | z/allocator.go:285-304 | the low half of the packed word is at most a buffer plus one failed request a goroutine |
| AllocatorSteps.BoundedNoCarry | z/allocator.go:285-286 | under that bound the next reservation does not carry |
| AllocatorSteps.AllRunsSafe | z/allocator.go:278-309 | in every interleaving, with requests of at most S bytes, T goroutines and largest buffer plus T * S below 2^32, all ranges are inside their buffers and pairwise disjoint and nobody indexes out of range |
| AllocatorSteps.CarryCrashes | z/allocator.go:246-309 | a new allocator with a first buffer of any size F, for every S and T with max(F, 2^30) plus T * S at least 2^32, has a run of requests of at most S bytes that doubles the buffers up to the maximum, carries and crashes |
| AllocatorSteps.FreshSafeIff | z/allocator.go:246-309 | every run of a new allocator with first buffer F, resets included, is safe if and only if max(F, 2^30) plus T * S is below 2^32 |
| AllocatorSteps.SafeIff | z/allocator.go:278-309 | for L between 2^30 and 2^32, every run of every allocator with buffers of at most L, used or new, is safe if and only if L plus T * S is below 2^32 |
| AllocatorSteps.CarryFreeSafe | z/allocator.go:278-309 | every interleaving in which no reservation carries is safe, resets included, whatever is asked for |
| AllocatorSteps.IndexNeverBack | z/allocator.go:285-302 | a step that is not a reset and does not carry never takes the buffer index back, and what was handed out stays |
| AllocatorSteps.IndexNeverBackInRuns | z/allocator.go:285-302 | so it is over every run between resets in which nothing carries |
| AllocatorSteps.StoreDropsOnlyFailed | z/allocator.go:299-300 | overwriting the packed word happens only with the buffer used up, and drops no reservation that fits |
| AllocatorSteps.AloneIsSequential | z/allocator.go:278-309 | a goroutine that runs alone, from any sound state, gets in some number of steps exactly the place that the allocator of one goroutine gives, with the same buffers afterwards, or runs out of buffers exactly if that one does |
| AllocatorSteps.RecycledStarves | z/allocator.go:179-192 | the state after TrimTo and Reset has no first buffer if and only if that buffer was not below the limit |
| AllocatorSteps.NothingWithoutFirst | z/allocator.go:246-276 | without the first buffer, no run in which nothing carries hands out any range |
| AllocatorSteps.FirstRequestCrashes | z/allocator.go:263-267 | without the first buffer, a first request of any size that is allowed ends in the doubling loop that never gets anywhere |
| Sketch.Next2Power | sketch.go:138-148 | the least power of two that is at least `x`, as the least mask covering `x - 1` |
| Sketch.RoundedIsPower | sketch.go:138-148 | as a number, what rounding up returns is a power of two from 2 on |
| Sketch.NibbleIncrement | sketch.go:101-112 | adding to a half byte below 15 adds one to it and never reaches the other half |
| Sketch.NibbleHalf | sketch.go:114-119 | shifting and masking a byte halves both counters exactly |
| Sketch.RowGet | sketch.go:97-99 | the counter's value, at most 15 |
| Sketch.RowIncrement | sketch.go:101-112 | one counter goes up by one unless it is 15, all others stay |
| Sketch.RowReset | sketch.go:114-119 | every counter of a row is halved |
| Sketch.CmSketch.constructor | sketch.go:40-56 | four distinct rows with as many counters as the request rounded up to a power of two, all zero |
| Sketch.CmSketch.Increment | sketch.go:58-62 | exactly the counter a hash selects in each row goes up, saturating |
| Sketch.CmSketch.SlotIs | sketch.go:58-62 | the counter that a hash selects in a row is the exclusive or of the lower bits of hash and seed |
| Sketch.CmSketch.SameSlot | sketch.go:58-62 | in every row, two hashes select the same counter if and only if they agree modulo the size of the row |
| Sketch.CmSketch.Estimate | sketch.go:65-74 | the least of the four counters the hash selects |
| Sketch.CmSketch.FrequencyIs | sketch.go:65-74 | the least counter is one of the four and below none of them |
| Sketch.CmSketch.Reset | sketch.go:77-81 | every counter and every estimate is halved exactly |
| Sketch.CmSketch.Clear | sketch.go:84-88 | every counter and every estimate is zero |
| Bloom.GetSize | z/bbloom.go:34-44 | the least power of two that is at least 512 and at least the number of entries, with its exponent |
| Bloom.SetBit | z/bbloom.go:154-157 | or-ing a mask into a byte sets that bit and no other |
| Bloom.Filter.Set | z/bbloom.go:154-157 | the set of set positions gains exactly this one |
| Bloom.Filter.IsSet | z/bbloom.go:160-164 | yes exactly for a position that is set |
| Bloom.LocsProgress | z/bbloom.go:101-108 | the first position of a hash is its top bits, and each next one is its lower bits further, around the size |
| Bloom.Filter.Add | z/bbloom.go:101-108 | all positions of the hash are set, no others change |
| Bloom.Filter.Has | z/bbloom.go:112-121 | yes exactly if all positions of the hash are set, so never no for a hash that was added |
| Bloom.Filter.AddIfNotHas | z/bbloom.go:126-132 | says whether a position was missing, and afterwards none is |
| Bloom.Filter.Clear | z/bbloom.go:147-151 | no position is set |
| TinyLfu.Counter.Estimate | policy.go:363-369 | the least of the four counters and one more if the doorkeeper has the key; at least the increments of the key since the last reset or clear, up to 16, and never above 16 |
| TinyLfu.Counter.Increment | policy.go:371-381 | keeps that bound; which counters and doorkeeper bits change, with the halving when the sample is full |
| TinyLfu.Counter.Reset | policy.go:383-390 | the doorkeeper is empty and every sketch estimate is halved |
| TinyLfu.Counter.Clear | policy.go:392-396 | doorkeeper, counters and estimates are zero |
| TinyLfu.Counter.Push | policy.go:357-361 | counts a batch of keys one by one |
| TinyLfu.CountedIsTail | policy.go:371-390 | from a fresh counter exactly the keys after the last full sample period count |
| Metrics.Counters.Add | cache.go:663-672 | a counter, as the sum of its slots modulo 2^64, goes up by `delta`; no other changes |
| Metrics.Counters.Get | cache.go:674-684 | reads that sum, or zero if metrics are off |
| Metrics.Counters.Clear | cache.go:775-787 | all counters are zero |
| Policy.SampledLfu.FillSample | policy.go:286-297 | adds distinct live keys with their costs in any order until there are five or no more; a key already in the sample may come again |
| Policy.SampledLfu.Del | policy.go:299-308 | removes a key and its cost, keeping used equal to the sum of costs and the counters in step |
| Policy.SampledLfu.Add | policy.go:310-313 | adds a key and its cost |
| Policy.SampledLfu.UpdateIfHas | policy.go:315-332 | replaces the cost of a key that is there, with the counters kept in step through the two's complement decrement |
| Policy.TwosComplement | policy.go:320-322 | adding the complement of diff - 1 to a 64-bit counter is taking diff off it |
| Policy.AgreeAdd | policy.go:310-328 | adding a cost to the counter and to used keeps added less evicted equal to used modulo 2^64 |
| Policy.AgreeEvict | policy.go:299-308 | so does evicting one |
| Policy.SumRemove | policy.go:299-308 | the sum of all costs is any one cost plus the sum of the others |
| Policy.EvictedOne | policy.go:163-174 | evicting an item of the sample leaves fewer keys, or as many keys and a less stale sample |
| Policy.Refilled | policy.go:144-146 | a refilled sample is not empty while there are keys, and no staler than before |
| Policy.DefaultPolicy.FindMin | policy.go:148-155 | the first item of the sample with the fewest hits: none has fewer, and all before it have more |
| Policy.DefaultPolicy.MakeRoom | policy.go:123-175 | the loop ends; victims are gone and no other key is; in each round there was no room, the sample was refilled from the keys left to five items or all keys, and the first item with the fewest hits was chosen, which is the victim; it rejects exactly if there is still no room, and then every item of the last sample is hotter than the newcomer |
| Policy.DefaultPolicy.Add | policy.go:106-180 | the whole outcome: refused, updated, added after evicting exactly the set of victims with used within the maximum, or rejected; each victim has the fewest hits of its round's sample and no more than the newcomer, and after a rejection every item of the last sample is hotter; with at most five keys no key that is left is colder than a victim, and after a rejection every key left is hotter than the newcomer |
| Policy.SampleHasAll | policy.go:144-174 | of at most five keys, the sample of every round has all that are left, stale items or not |
| Policy.DefaultPolicy.NoneLeftColder | policy.go:148-161 | of at most five keys, none that is left is colder than the item chosen in any round |
| Policy.DefaultPolicy.Del | policy.go:189-193 | removes the key and keeps the counters in step |
| Policy.DefaultPolicy.Update | policy.go:202-206 | changes the cost of a key that is there and keeps the counters in step |
| Policy.DefaultPolicy.Push | policy.go:70-82 | a batch of accesses is counted in the admission counter and changes no key or cost |
| Policy.DefaultPolicy.UpdateMaxCost | policy.go:246-251 | the maximum is the new one and nothing else changes |
| Policy.DefaultPolicy.Clear | policy.go:218-223 | no key, no cost, and every estimate zero |
| Policy.Run | policy.go:70-251 | over any run of adding, deleting, updating, counted accesses, changes of the maximum and clearing, used is the sum of costs, and added less evicted equals it modulo 2^64, from any state once everything was cleared |
| Ttl.CleanedIsExpired | ttl.go:29-37 | what is in a bucket that may be cleaned expired strictly before now |
| Ttl.NotYetCleaned | ttl.go:29-37 | what expires now or later is in no such bucket |
| Ttl.LongExpired | ttl.go:29-37 | what expired two bucket widths ago or earlier is in a bucket that may be cleaned |
| Ttl.PlacesWith | ttl.go:56-76 | adding a key to a bucket changes where that key is and where no other is |
| Ttl.PlacesWithout | ttl.go:106-119 | so does removing one |
| Ttl.ExpirationMap.Add | ttl.go:56-76 | the key is in the bucket of its expiration, with its conflict; a zero expiration changes nothing |
| Ttl.ExpirationMap.Update | ttl.go:78-104 | the key leaves its old bucket and enters the new one, if any |
| Ttl.ExpirationMap.Del | ttl.go:106-119 | the key leaves the bucket |
| Ttl.ExpirationMap.TakeBuckets | ttl.go:129-145 | takes out exactly the buckets after the last cleaned one up to the one that is over |
| Store.LockedMap.Get | store.go:147-163 | the value unless it is missing, the conflict differs, or it has expired |
| Store.LockedMap.Set | store.go:171-203 | replaces or adds exactly when conflict and callback allow, and the index agrees again |
| Store.LockedMap.Del | store.go:205-222 | removes an entry whose conflict matches, from the index too, and says what it was |
| Store.LockedMap.Update | store.go:224-247 | replaces only what is there, returns the previous value, and the index agrees again |
| Store.LockedMap.Clear | store.go:249-263 | hands out every entry once and is empty |
| Store.Replaced | ttl.go:78-104 | an update moves a key from the bucket of its old entry to that of its new one, whatever the two expirations |
| Store.ShardedMap.constructor | store.go:73-82 | 256 empty shards that share one index |
| Store.ShardedMap.Get | store.go:90-92 | as for the shard its key belongs to |
| Store.ShardedMap.Set | store.go:98-105 | replaces or adds the entry of that key exactly if there is none or conflict and callback allow it; every other key keeps its entry, and store and index agree on all keys |
| Store.ShardedMap.Update | store.go:111-113 | replaces the entry of that key exactly if there is one and conflict and callback allow it, and returns the old value; every other key keeps its entry |
| Store.ShardedMap.Del | store.go:107-109 | removes the entry of that key exactly if there is one and the conflict matches, and returns its value; every other key keeps its entry |
| Store.ShardedMap.Clear | store.go:119-124 | every entry of every shard handed out once, everything empty |
| Store.ShardedMap.Cleanup | ttl.go:124-171 | removes and reports exactly the entries that expire in a bucket that ended since the last cleanup, all of them expired strictly before now; every entry that was not late and expired ten seconds ago or earlier is gone; if the clock has not gone back, there are late entries afterwards if and only if there were before |
| Store.Apply | store.go:171-263 | no operation that spares a late entry removes it, cleanup included |
| Store.Run | store.go:171-263 | every history keeps store and index in agreement; with a clock that does not go back, an entry that is late outlives every cleanup, and without expirations in the past none is late |
| Store.LateEntryStays | ttl.go:124-171 | an entry that expired while it waited goes in late and is there after any number of cleanups |
| Cache.AskPolicy | cache.go:551-552 | what the policy's Add does to its keys is one of the answers the step system allows |
| CacheCalls.UpdateStep | store.go:111-113 | the store's Update does to keys and values what the client's step inside SetWithTTL does, and what it returns is where the client goes next; the step's `wanted` is that the conflict matches and the callback agrees |
| CacheCalls.DelStep | cache.go:388-390 | the store's Del does what the client's step inside Del does |
| CacheCalls.SetStep | cache.go:553-554 | the store's Set does what the worker's storing step does |
| CacheCalls.VictimStep | cache.go:560-562 | the store's Del does what the worker's evicting step does |
| CacheCalls.RemoveStep | cache.go:569-571 | and what its deleting and its cleaning step do |
| CacheCalls.AddStep | cache.go:551-552 | the policy's Add does what the deciding step does with its answer |
| CacheCalls.UpdateAtOnce | cache.go:362-365 | in any state, a wanted update of a key that is there makes it read the new value, all others as before, and the old value is what onExit is told next; otherwise the store stays and the new item is what is sent |
| CacheCalls.DeleteAtOnce | cache.go:388-390 | Del takes the key out of the store in the client's own step, and its value is what onExit is told next |
| CacheCalls.AdmitThenStore | cache.go:551-557 | an item that the policy adds is stored next under its key, one that it rejects is told to onExit next |
| CacheCalls.OnlyTheseChange | cache.go:334-571 | in every interleaving, what a key reads changes only by a wanted update or a deletion of that key by a client, or by the worker storing, evicting, deleting, cleaning up or clearing it |
| CacheCalls.SetOverwrites | cache.go:334-381 | all of SetWithTTL for a key that is there: the key reads the new value, onExit was told of the old one, the cost update is queued unless the queue has 32768 items, nothing else changes |
| CacheCalls.SetQueues | cache.go:334-381 | all of SetWithTTL otherwise: the store stays, and the item is queued, or dropped if the queue is full |
| CacheCalls.DelRemoves | cache.go:383-400 | all of Del: the key is gone, onExit was told of its value, and the deletion is queued, or waits for room |
| CacheCalls.WaitGoesOn | cache.go:280-288 | Wait queues a marker and goes on exactly once it was taken out |
| CacheCalls.NewItem | cache.go:549-563 | a new item from the queue to the end of its evictions: the key reads its value exactly if it was added, the victims are gone, all other keys read as before, and onExit was told of exactly the values that left the store and of a rejected one |
| CacheCalls.DeletedItem | cache.go:568-571 | a deletion from the queue: the key is gone from policy and store and onExit was told of its value |
| CacheCalls.CleanupRemoves | ttl.go:147-171 | a cleanup of any keys ends with them gone from policy and store, nothing else changed, and their values told |
| Cache.ClientConserves | cache.go:334-400 | no step of SetWithTTL, Del or Wait loses or doubles a value; what the steps do to the store is stated by `CacheCalls.UpdateAtOnce` and `CacheCalls.DeleteAtOnce` |
| Cache.WorkerConserves | cache.go:533-571 | no step of the worker does |
| Cache.ClientAgrees | cache.go:362-400 | every client step keeps the agreement of store and policy |
| Cache.WorkerAgrees | cache.go:549-573 | so does every worker step |
| Cache.ClientKeepsPending | cache.go:383-400 | a key that a client takes out of the store has a deletion pending until the worker took it |
| Cache.StepKeeps | cache.go:334-579 | every step of every client and of the worker, and every step of cleanup and of Clear, keeps all invariants |
| Cache.ValuesConserved | cache.go:334-579 | in every interleaving, each time a value was given to Set it is stored, queued, held inside one step, dropped, or told to onExit; once set, told at most once and then nowhere else |
| Cache.StoreAndPolicyAgree | cache.go:383-571 | between items the store's keys are the policy's but for keys with a deletion pending; with nothing pending they are the same |
| Cache.NoResurrection | cache.go:383-400 | once the worker has applied a deletion, no value set before it was queued is ever visible for the key again |
| Cache.ClearKeeps | cache.go:450-486 | Clear beginning, and Clear taking a key out of the store, keep all invariants, with any other calls under way |
| Cache.ClearTells | cache.go:450-486 | when Clear is through, with no other call begun meanwhile, store, policy and queue are empty, onExit was told of exactly the new values that were queued and the values that were stored, and every client that waits may go |
| Cache.ClearEnds | cache.go:455-474 | from every such state some steps of Clear finish it |
| Cache.SettlesMeans | cache.go:455-571 | the step that settles a queued new item puts its value into the store under its key or tells onExit of it, as the worker or Clear does |
| Cache.SettledOnce | cache.go:533-571 | a new item that is neither queued nor in the worker's hand at the end of a run was settled by one step of the run |
| Cache.WaitReturns | cache.go:280-288 | when Wait comes back, in any run, every new item queued before it is out of the queue and out of the worker's hand, and at some step of the run its value went into the store or onExit was told of it |

## Left out

- Memory mapping, file truncation, temporary files, jemalloc and Release: operating-system and foreign calls; a buffer is plain memory, growth copies it.
- Unsafe casts and slice headers: a tree page is an array of words, Bloom bits are bytes; slices that still point into memory replaced by growth are not modelled, an allocated slice is its offset. One place where it matters is `Tree.Set`, which reads the right half (z/btree.go:277) through a slice taken before the page for the left half was allocated; with a mapped file the data may have moved by then.
- The page numbers and value words of the tree are unbounded integers, the data region is one array a page, of which a last partial page is known by its length only, and it grows one page at a time.
- BTree.Tree.Get: the panic for key 0 and the largest word is a precondition, as it is for Set.
- BTree.Tree.Reinit: assumes stored pages of a whole tree with zeroed unused pages; anything else on disk is not recovered by the code either.
- BTree.Tree.IterateKV: the callback is a function of key and value only.
- BufferSort.SortHelper.SortOffsets: stands for Go's sort.Slice with insertion, which has the same promise.
- BufferSort.SortSliceBetween: the scratch buffer starts at half the stretch; the source's floating-point factor changes only how often it grows.
- Allocator.FirstSize: the table of small logarithms is the exact floor; sizes beyond twice the maximum allocation are not given to the constructor.
- Allocator.Allocator.Allocate: negative sizes, AllocateAligned and Copy are not modelled.
- Allocator.Allocator.Recycle: of the pool of allocators only what happens to an allocator between Return and Get; the channel, its counters and the goroutine that frees idle allocators are not modelled.
- Sketch.CmSketch.Slot: one counter, for which the source makes empty rows, and more than 2^62, for which it makes a negative number, are excluded.
- Bloom.Filter.constructor: the floating-point sizing formula and counts beyond 2^63, for which the sizing loop does not end, are excluded; the number of entries and of positions are given.
- Policy.DefaultPolicy.Add: costs are unbounded integers, so overflow of the signed cost sums is not modelled; the counters wrap at 64 bits.
- Policy.DefaultPolicy.Push: the channel in front of it, which may drop a batch, and the counters of kept and dropped accesses are not modelled.
- Cache.NoResurrection: no two keys share a 64-bit hash, so conflicts are left out of the step system; they are in the store.
- CacheCalls.DelStep: for the same reason the conflict matches the entry that is there, and so for `CacheCalls.RemoveStep`; `CacheCalls.UpdateStep` takes any conflict.
- Cache.ClearTells: counts what onExit is told when no other call runs during Clear, as the description of Clear asks; with other calls under way the invariants hold and each queued value is told once, but theirs are told too.
- Store.ShardedMap.Cleanup: one atomic step; clients that update during an unfinished cleanup are modelled only in the cache's step system, where a cleanup takes any keys.
- Client Get, the ring buffer of accesses, cost callbacks, eviction callbacks other than onExit, life-expectancy histograms, JSON, printing, simulation and the stream and flag helpers: plumbing or easy members.
- The assembly search and simd.Parallel, and shareWithSiblingXXX, which the tree does not use.
