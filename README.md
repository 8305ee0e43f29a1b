# C containers, modelled in Dafny

This project models the core of a small C library of generic containers:

- ordered priority queues, in a shallow form (`queues`) and a deep form (`deepqueues`). Both are doubly linked chains kept strictly increasing under a user comparator. Equal elements are inserted once.
- chained hash tables, in a shallow form (`hashtabs`) and a deep form (`deephashtabs`). Their buckets are those queues, and their capacities climb a fixed ladder of primes. Each table keeps a `size` counter and a `load` counter. `load` grows when an insert allocates a NULL bucket, and drops when a removal empties a bucket's queue, although that bucket stays allocated. Rehashing builds a table one rung up.
- dynamic arrays (`arrays`), with a checked push, a growing push, resize, equality and truncation.
- linked stacks, in shallow and deep forms, and a fixed-capacity stack built from macros (`staticstacks`).
- bit sets (`bit_sets`): arrays of 64-bit set words, with macros for membership, popcount and lowest bit. Routines compute size, bounded intersection, next element, the image of a set under a permutation, and whether a permutation maps a set into itself.

Each container whose fields the C code updates in place is a Dafny `class`:

- A linked chain is a field holding the sequence of its elements from head to tail, or from top to bottom.
- Counters are fields.
- The hash tables' bucket arrays and the array buffers are Dafny arrays.
- Bit-set operations work in place on `array<bv64>`.

Every operation is proved against a specification function, or against the set a word array stands for:

- sorted-chain insertion, lookup and removal (`Orders`)
- table-level insert, find and remove (`Buckets`)
- the visit order of the `map` functions (`Visits.Traverse`)
- `BitSets.Members` and `BitWords.Elems`

Elements of shallow containers are abstract values; elements of deep containers are byte strings (`seq<bv8>`). A visitor is a function `(S, T) -> (S, int)` that threads a caller state. This lets a contract say which elements were visited before a visit answered negatively.

Where the code and its documentation disagree, the model follows the code:

- `arrays_resize` does not truncate `nmem`.
- `bit_intersect` answers 1 when the intersection has at most `num` elements, not exactly `num`.
- `sstacks_empty` compares `top` with the buffer start, so a stack of 0-byte elements always reads as empty.
- `_SETWORDSNEEDED(0)` wraps around to 2^58 when its argument is a 64-bit `size_t`, which the model assumes; the macro itself has no argument type.

## Model

| member | source | states |
|---|---|---|
| Visits.Traverse | src/queues.c:329-338 | a visit answers 1 or -1, and an empty visit answers 1 with the state untouched |
| Visits.TraverseAppend | src/hashtabs.c:146-152 | visiting buckets one after another is one visit of their concatenation, stopping at the first negative answer |
| Visits.TraverseFails | src/queues.c:329-338 | a visit answers -1 exactly when some element, reached with every earlier answer non-negative, answers negatively |
| Orders.Rank | src/queues.c:43-106 | the rank is the number of leading elements below `x`, and the element at the rank is not below `x` |
| Orders.RankIs | src/queues.c:43-106 | a scan position with only smaller elements before it and a stop at it is the rank |
| Orders.RankAtTail | src/queues.c:56-69 | comparing with the tail alone settles the rank when `x` is not below the tail |
| Orders.AboveRank | src/queues.c:86-105 | in a sorted chain everything from the rank on is at least `x`, and everything after it is above `x` |
| Orders.FindSortedSpec | src/queues.c:199-211 | lookup answers None exactly when no element compares equal, and otherwise returns a stored element equal to `x` |
| Orders.InsertSortedSorted | src/queues.c:43-106 | insertion keeps the chain strictly increasing |
| Orders.InsertSortedContents | src/queues.c:43-106 | insertion adds exactly `x` when no equal element is present, and changes nothing otherwise |
| Orders.InsertSortedFrom | src/queues.c:43-106 | insertion adds no element other than `x` |
| Orders.InsertSortedHolds | src/queues.c:43-106 | after insertion an element is found exactly when it was found before or equals `x` |
| Orders.RemoveSortedFrom | src/queues.c:227-276 | removal leaves only stored elements, and one fewer exactly when lookup finds `x` |
| Orders.RemoveSortedSorted | src/queues.c:227-276 | removal keeps the chain strictly increasing |
| Orders.RemoveSortedMisses | src/queues.c:227-276 | after removal nothing equal to `x` is left |
| Orders.RemoveSortedTakes | src/queues.c:227-276 | removal takes out the element lookup reports and nothing else |
| Orders.RemoveSortedContents | src/queues.c:227-276 | removal is the identity when lookup fails, takes out exactly the found element otherwise, and leaves nothing equal to `x` |
| Orders.RemoveSortedHolds | src/queues.c:227-276 | after removal an element is found exactly when it was found before and does not equal `x` |
| Orders.RemoveInsert | src/queues.c:43-106 | removing a freshly inserted element restores the chain |
| Orders.InsertSortedIdempotent | src/queues.c:43-106 | inserting an element twice is inserting it once |
| Queues.Queue.constructor | src/queues.c:30-41 | a new queue is empty and keeps the comparator |
| Queues.Queue.Size | src/queues.c:363-366 | the counter equals the number of linked elements |
| Queues.Queue.Enqueue | src/queues.c:43-106 | the chain becomes its sorted insertion of `x`, stays strictly increasing, and the tail pointer is sound again |
| Queues.Queue.DequeueFront | src/queues.c:173-184 | an empty queue yields None; otherwise the head is returned and unlinked |
| Queues.Queue.DequeueBack | src/queues.c:186-197 | an empty queue yields None; otherwise the tail is returned and unlinked |
| Queues.Find | src/queues.c:199-211 | a NULL queue finds nothing; otherwise the result is the stored element equal to `x`, if any |
| Queues.Remove | src/queues.c:227-276 | returns and unlinks the stored element equal to `x`; removing the only element through the head branch leaves the tail stale |
| Queues.Map | src/queues.c:329-338 | visits the elements head to tail and stops at the first negative answer; a NULL queue answers 1 |
| DeepQueues.SizedInsert | src/deepqueues.c:45-112 | inserting a `size`-byte copy keeps every element `size` bytes long |
| DeepQueues.SizedRemove | src/deepqueues.c:237-286 | removal keeps every element `size` bytes long |
| DeepQueues.DQueue.constructor | src/deepqueues.c:31-43 | a new deep queue is empty, with the given comparator and byte size |
| DeepQueues.DQueue.Size | src/deepqueues.c:373-376 | the counter equals the number of linked copies |
| DeepQueues.DQueue.Enqueue | src/deepqueues.c:45-112 | a copy of the `size` bytes is inserted at its rank unless an equal copy is present |
| DeepQueues.DQueue.DequeueFront | src/deepqueues.c:183-194 | an empty queue yields None; otherwise the head copy is handed out |
| DeepQueues.DQueue.DequeueBack | src/deepqueues.c:196-207 | an empty queue yields None; otherwise the tail copy is handed out |
| DeepQueues.Find | src/deepqueues.c:209-221 | a NULL queue finds nothing; otherwise the result is the stored copy equal to `x` |
| DeepQueues.Remove | src/deepqueues.c:237-286 | unlinks and returns the copy equal to `x`, with the same stale-tail case as the shallow queue |
| DeepQueues.Map | src/deepqueues.c:339-348 | visits the copies head to tail, stopping at the first negative answer |
| Primes.Prime | src/hashtabs.c:13-19 | every rung of the capacity ladder is between 11 and SIZE_MAX |
| Primes.RungFromIs | src/hashtabs.c:13-19 | stepping up the ladder from any lower rung reaches the same entry |
| Primes.Ladder | src/hashtabs.c:13-19 | from rung 0 on, each rung exceeds the one before and, up to the last prime, by more than 37/25 |
| Primes.PrimeIncreasing | src/hashtabs.c:13-19 | the ladder is strictly increasing |
| Primes.PrimeGrowth | src/hashtabs.c:13-19 | between primes each capacity grows by more than a factor 1.48 |
| Primes.GetCapIndex | src/hashtabs.c:45-50 | the index is that of the first rung above `n`, or past the last prime when none is |
| Primes.CapIndexUnique | src/hashtabs.c:45-50 | only one index meets those conditions, so the capacity index is a function of `n` |
| Primes.CapIndexOfPrime | src/hashtabs.c:186-195 | asking for a capacity equal to rung `i` yields rung `i + 1`: rehashing moves one rung up |
| StdHash.HashOf | src/hashtabs.c:52-65 | the seed starts as the element count, so an empty array hashes to 0 |
| StdHash.Hash | src/hashtabs.c:52-65 | hashing `n` elements combines them first to last into the seed `n` |
| StdHash.CombineAllAppend | src/hashtabs.c:56-63 | combining a concatenation is combining its parts in turn |
| Buckets.Slot | src/hashtabs.c:83-92 | the hash modulo the capacity selects a slot in range |
| Buckets.Empty | src/hashtabs.c:67-81 | a calloc'ed bucket array has every bucket empty |
| Buckets.FirstHit | src/hashtabs.c:106-116 | the slot scan stops at the first bucket whose queue finds `x`, and no earlier bucket does |
| Buckets.FirstHitIs | src/hashtabs.c:106-116 | a slot with no hit before it and a hit at it is where the scan stops |
| Buckets.FlattenAppend | src/hashtabs.c:146-152 | the visit order of adjacent bucket runs concatenates |
| Buckets.FlattenEmpty | src/hashtabs.c:67-81 | a table of empty buckets visits nothing |
| Buckets.InsertAllAppend | src/hashtabs.c:179-195 | inserting one run and then another is inserting their concatenation |
| Buckets.FlattenHolds | src/hashtabs.c:146-152 | the visit order holds exactly the elements some bucket holds |
| Buckets.TableFindSpec | src/hashtabs.c:130-136 | the scan finds an element exactly when some bucket holds an equal one, and returns such a stored element |
| Buckets.TableFindInSlot | src/hashtabs.c:130-136 | when equal elements hash alike, the scan finds what the queue of `x`'s own slot finds, and no other bucket holds `x` |
| Buckets.TableRemoveSpec | src/hashtabs.c:106-116 | removal keeps buckets sorted and placed, drops the count by one exactly when the scan finds `x`, and leaves every other element's membership alone |
| Buckets.BucketRemoveSpec | src/hashtabs.c:106-116 | removing from one slot's queue keeps buckets sorted and placed and drops the count by one exactly when that queue finds `x` |
| Buckets.TableRemoveAll | src/hashtabs.c:106-116 | when equal elements hash alike, nothing equal to `x` is left after removal |
| Buckets.TableInsertSpec | src/hashtabs.c:83-92 | insertion keeps buckets sorted and placed, and grows the count unless `x`'s bucket already held an equal element |
| Buckets.TableInsertHolds | src/hashtabs.c:83-92 | after insertion the table holds what it held plus the elements equal to `x` |
| Buckets.InsertAllSpec | src/hashtabs.c:179-184 | inserting a run keeps buckets sorted and placed and adds exactly the run's membership |
| Buckets.RehashSpec | src/hashtabs.c:186-195 | the rehashed table holds exactly what the old table held, every element in its slot |
| HashTables.Inc | src/hashtabs.c:87 | `load++` on a `size_t` wraps SIZE_MAX to 0 |
| HashTables.Dec | src/hashtabs.c:112 | `load--` on a `size_t` wraps 0 to SIZE_MAX |
| HashTables.IncDec | src/hashtabs.c:83-116 | the load increment and decrement undo each other, across the wrap too |
| HashTables.InsertKeeps | src/hashtabs.c:83-92 | enqueueing into the slot's bucket computes the table insertion and keeps the table consistent, with the counter one up |
| HashTables.RemoveKeeps | src/hashtabs.c:106-116 | dequeuing from a bucket that holds `x` keeps the table consistent, with the counter one down and the bucket still allocated |
| HashTables.HashTable.constructor | src/hashtabs.c:67-81 | a new table is empty, with its capacity the first rung above `n`, both counters 0, and every bucket NULL |
| HashTables.HashTable.Capacity | src/hashtabs.c:173-176 | the capacity is the number of buckets, the ladder rung of the table |
| HashTables.HashTable.Size | src/hashtabs.c:216-219 | the counter is the number of stored elements plus the duplicates whose insert was ignored |
| HashTables.HashTable.LoadFactor | src/hashtabs.c:221-224 | the load factor is the counter over `load` rounded down, or 0 when `load` is 0 |
| HashTables.HashTable.Insert | src/hashtabs.c:83-92 | the buckets become the table insertion of `x`; the counter always grows; `load` grows (wrapping) exactly when the slot was NULL; only `x`'s slot changes, to an allocated queue with `x` enqueued; a `load` that counted the allocated buckets still does |
| HashTables.HashTable.Find | src/hashtabs.c:130-136 | the result is what a scan of the buckets from slot 0 finds first |
| HashTables.HashTable.RemoveAt | src/hashtabs.c:106-116 | removing from a bucket whose queue holds `x` returns that element, shrinks the counter, and decrements `load` when the queue empties; only that slot changes, and it stays allocated |
| HashTables.HashTable.Remove | src/hashtabs.c:106-116 | removes from the first bucket that finds `x`; the counter and `load` drop only on success, `load` when that queue empties; on a miss no bucket changes, on a hit only that bucket, which stays allocated |
| HashTables.HashTable.InsertEach | src/hashtabs.c:179-184 | inserting a run of elements is their table insertion one after the other, and the counter grows by the run's length; a `load` that counted the allocated buckets still does |
| HashTables.HashTable.InsertFrom | src/hashtabs.c:186-195 | inserting another table's elements in its visit order, with the counter growing by their number and the other table left unchanged; a `load` that counted the allocated buckets still does, and then equals the number of non-empty buckets |
| HashTables.HashTable.NextRung | src/hashtabs.c:188 | the new table is empty, one rung up, with the same comparator and hash, every bucket NULL and `load` 0 |
| HashTables.HashTable.Rehash | src/hashtabs.c:186-195 | the new table is one rung up and holds every old element reinserted in visit order, its `load` the number of non-empty buckets; the old table is untouched |
| HashTables.AllocatedNone | src/hashtabs.c:67-81 | a table whose buckets are all NULL has no allocated bucket |
| HashTables.AllocatedSet | src/hashtabs.c:83-92 | putting a queue into a slot adds one allocated bucket exactly when the slot was NULL |
| HashTables.AllocatedOccupied | src/hashtabs.c:186-195 | when no allocated bucket holds an empty queue, the allocated buckets are exactly the non-empty ones |
| HashTables.NoneTallied | src/hashtabs.c:67-81 | a `load` of 0 counts the allocated buckets of a table whose buckets are all NULL |
| HashTables.InsertStep | src/hashtabs.c:83-92 | an insert keeps a `load` that counts the allocated buckets counting them |
| HashTables.Singleton | src/queues.c:43-106 | enqueueing `x` into an empty queue gives `x` alone, where lookup finds `x`, and removing `x` empties the queue |
| HashTables.OnlyBucket | src/hashtabs.c:83-92 | enqueueing `x` into a table of NULL buckets leaves `x` alone in its slot, the first slot where a scan finds it |
| HashTables.FirstInsert | src/hashtabs.c:83-92 | inserting `x` into a table of NULL buckets allocates its slot, holding `x` alone, and sets `load` to 1 |
| HashTables.ReinsertLoads | src/hashtabs.c:83-116 | on a new table, insert, remove and insert again leave `load` at 1, 0 and 0: the emptied bucket stays allocated and is not counted back in |
| HashTables.Map | src/hashtabs.c:146-152 | visits buckets in slot order, each head to tail, stopping at the first negative answer; a NULL table answers 1 |
| DeepHashTables.InsertSized | src/deephashtabs.c:86-95 | inserting a `size`-byte element keeps every bucket's elements `size` bytes long |
| DeepHashTables.RemoveSized | src/deephashtabs.c:109-119 | removal keeps every bucket's elements `size` bytes long |
| DeepHashTables.WrittenNew | src/deephashtabs.c:68-84 | as written: a new table's `size` field is the byte size and every slot is NULL |
| DeepHashTables.WrittenInsert | src/deephashtabs.c:86-95 | as written: a NULL slot gets a queue whose element size is the current `size` field, which then grows by one |
| DeepHashTables.WrittenWidthDrifts | src/deephashtabs.c:86-95 | as written, the second insert into a new table gives its queue an element size one too large, and the size reported is off by the byte size |
| DeepHashTables.WrittenRemove | src/deephashtabs.c:109-119 | as written: a hit drops the `size` field by one, wrapping at 0, and leaves every slot's queue and element size in place |
| DeepHashTables.WrittenInserts | src/deephashtabs.c:181-187 | as written: each insert grows the `size` field by one, and a slot once allocated keeps its element size |
| DeepHashTables.WrittenRehash | src/deephashtabs.c:189-199 | as written: the rehashed table's byte size is the old `size` field, which then grows by the number of elements |
| DeepHashTables.WrittenSizeCounts | src/deephashtabs.c:221-229 | as written, after two inserts and a removal the size reported for one element is the byte size plus one |
| DeepHashTables.WrittenRehashDrifts | src/deephashtabs.c:189-199 | as written, rehashing a table of one `size`-byte element gives its new queue an element size of `size + 1` and reports `size + 2` |
| DeepHashTables.DHashTable.constructor | src/deephashtabs.c:68-84 | a new deep table is empty, with its byte size, its capacity the first rung above `n`, both counters 0, and every bucket NULL |
| DeepHashTables.DHashTable.Capacity | src/deephashtabs.c:176-179 | the capacity is the number of buckets, the ladder rung of the table |
| DeepHashTables.DHashTable.Size | src/deephashtabs.c:221-224 | the element counter is the number of stored copies plus the ignored duplicates |
| DeepHashTables.DHashTable.LoadFactor | src/deephashtabs.c:226-229 | the element counter over `load` rounded down, or 0 when `load` is 0 |
| DeepHashTables.DHashTable.Insert | src/deephashtabs.c:86-95 | a copy of `x` goes into its slot's bucket as the table insertion; the counter grows; `load` grows exactly when the slot was NULL; only `x`'s slot changes, to an allocated queue with `x` enqueued; a `load` that counted the allocated buckets still does |
| DeepHashTables.DHashTable.Find | src/deephashtabs.c:133-139 | the result is the copy a scan from slot 0 finds first |
| DeepHashTables.DHashTable.RemoveAt | src/deephashtabs.c:109-119 | removing from a bucket that holds `x` returns the copy and shrinks the counter, and `load` when the queue empties; only that slot changes, and it stays allocated |
| DeepHashTables.DHashTable.Remove | src/deephashtabs.c:109-119 | removes from the first bucket that finds `x`; the counters drop only on success, `load` when that queue empties; on a miss no bucket changes, on a hit only that bucket, which stays allocated |
| DeepHashTables.DHashTable.InsertEach | src/deephashtabs.c:181-187 | inserting a run of `size`-byte copies is their table insertion one after the other, the counter growing by the run's length; a `load` that counted the allocated buckets still does |
| DeepHashTables.DHashTable.InsertFrom | src/deephashtabs.c:189-199 | inserting another table's copies in its visit order, the counter growing by their number and the other table left unchanged; a `load` that counted the allocated buckets still does, and then equals the number of non-empty buckets |
| DeepHashTables.DHashTable.NextRung | src/deephashtabs.c:191-194 | the new table is empty, one rung up, with the same comparator, hash and byte size, every bucket NULL and `load` 0 |
| DeepHashTables.DHashTable.Rehash | src/deephashtabs.c:189-199 | the new table is one rung up and holds every old copy reinserted in visit order, its `load` the number of non-empty buckets; the old table is untouched |
| DeepHashTables.Map | src/deephashtabs.c:149-155 | visits buckets in slot order, each head to tail, stopping at the first negative answer |
| DeepHashTables.FirstInsert | src/deephashtabs.c:86-95 | inserting `x` into a deep table of NULL buckets allocates its slot, holding `x` alone, and sets `load` to 1 |
| DeepHashTables.ReinsertLoads | src/deephashtabs.c:86-119 | on a new deep table, insert, remove and insert again leave `load` at 1, 0 and 0 |
| Arrays.Grow | src/arrays.c:44-52 | a full array grows to a larger capacity: 1 from 0, 2 from 1, otherwise about one and a half times |
| Arrays.DynArray.constructor | src/arrays.c:21-34 | a new array has no elements in use and the requested capacity and element size |
| Arrays.DynArray.Nmem | src/arrays.c:107-110 | the number of elements in use |
| Arrays.DynArray.Capacity | src/arrays.c:112-115 | the number of slots, never below the number in use |
| Arrays.DynArray.Size | src/arrays.c:117-120 | the byte size of an element |
| Arrays.DynArray.At | src/arrays.c:68-71 | slot `i`, which is element `i` when `i` is in use |
| Arrays.DynArray.Push | src/arrays.c:36-42 | a full array answers -1 and is unchanged; otherwise 1, with `e` appended |
| Arrays.DynArray.Resize | src/arrays.c:90-97 | the buffer gets `n` slots, keeping the slots below both capacities; `nmem` is kept, so the array stays valid exactly when `nmem <= n` |
| Arrays.DynArray.DynPush | src/arrays.c:44-52 | `e` is appended, after growing a full array to the next capacity |
| Arrays.DynArray.Map | src/arrays.c:54-59 | visits the elements in index order, stopping at the first negative answer |
| Arrays.Equal | src/arrays.c:122-130 | 1 exactly when both arrays have the same element size and equal elements in use, else -1 |
| Arrays.Reindex | src/arrays.c:132-136 | keeps only the elements below `n`; a NULL array or an `n` not below `nmem` changes nothing |
| Stacks.Stack.constructor | src/stacks.c:25-32 | a new stack is empty |
| Stacks.Stack.Push | src/stacks.c:34-41 | `x` becomes the new top |
| Stacks.Stack.Pop | src/stacks.c:43-51 | the top is returned and unlinked |
| Stacks.Stack.Empty | src/stacks.c:65-68 | true exactly when the stack has no elements |
| Stacks.Stack.Size | src/stacks.c:70-73 | the counter equals the number of elements |
| Stacks.Map | src/stacks.c:75-84 | visits top to bottom, stopping at the first negative answer; a NULL stack answers 1 |
| Stacks.PushPop | src/stacks.c:34-51 | a pop after a push returns the pushed element and restores the stack |
| DeepStacks.DStack.constructor | src/deepstacks.c:26-34 | a new deep stack is empty, with the given byte size |
| DeepStacks.DStack.Push | src/deepstacks.c:36-44 | a copy of the first `size` bytes of `x` becomes the new top |
| DeepStacks.DStack.Pop | src/deepstacks.c:46-54 | the top copy, `size` bytes long, is handed out and unlinked |
| DeepStacks.DStack.Empty | src/deepstacks.c:69-72 | true exactly when the stack has no elements |
| DeepStacks.DStack.Size | src/deepstacks.c:74-77 | the counter equals the number of copies |
| DeepStacks.Map | src/deepstacks.c:79-88 | visits the copies top to bottom, stopping at the first negative answer |
| DeepStacks.PushPop | src/deepstacks.c:36-54 | a pop after a push returns the first `size` bytes pushed and restores the stack |
| StaticStacks.SStack.constructor | include/staticstacks.h:43-49 | a new stack has a buffer of `capacity + 1` slots, no elements, and `top` at the start |
| StaticStacks.SStack.Push | include/staticstacks.h:65 | `e` is appended and `top` advances by one element size |
| StaticStacks.SStack.Pop | include/staticstacks.h:82 | `top` moves back one element size, and the element there is the last one pushed |
| StaticStacks.SStack.Empty | include/staticstacks.h:98 | true exactly when there are no elements or the element size is 0 |
| StaticStacks.SStack.Size | include/staticstacks.h:126 | the element count |
| StaticStacks.PushFourPopAll | test/test1.c:10-20 | pushing 1, 2, 3, 4 and popping until the stack reads empty yields 4, 3, 2, 1 |
| StaticStacks.ReverseSnoc | test/test1.c:17-20 | popping after a push yields the pushed element first in the reversed order |
| BitWords.HasOr | include/bit_sets.h:100 | or-ing in bit `i` adds exactly element `i` to a word |
| BitWords.HasAndNot | include/bit_sets.h:107 | and-ing with the complement of bit `i` removes exactly element `i` |
| BitWords.HasXor | include/bit_sets.h:115 | xor-ing with bit `i` toggles exactly element `i` |
| BitWords.HasAnd | include/bit_sets.h:212 | the and of two words holds exactly the elements of both |
| BitWords.BitMaskHas | include/bit_sets.h:205 | `_BITMASK(x)` holds exactly the positions above `x` |
| BitWords.HasZero | include/bit_sets.h:129-131 | an all-zero word holds no element |
| BitWords.HasAll | include/bit_sets.h:138-141 | an all-ones word holds every position |
| BitWords.BitCountTable | include/bit_sets.h:38-46 | the byte count table gives the number of set bits of every byte |
| BitWords.PopcountElems | include/bit_sets.h:166-169 | `_POPCOUNT` is the number of elements of the word |
| BitWords.RightBitTable | include/bit_sets.h:53-61 | the right-bit table gives the lowest set bit of every nonzero byte |
| BitWords.FirstBitNZLowest | include/bit_sets.h:191-198 | for a nonzero word, `_FIRSTBITNZ` is an element and nothing below it is |
| BitWords.FirstBitLowest | include/bit_sets.h:177-184 | `_FIRSTBIT` is 64 exactly for the empty word, and otherwise the least element |
| BitWords.ElemsEmpty | include/bit_sets.h:177-184 | a word has no elements exactly when it is zero |
| BitWords.ElemsAnd | include/bit_sets.h:212 | the and of two words stands for the intersection of their sets |
| BitWords.WIntersect | include/bit_sets.h:212 | `_WINTERSECT` stands for the intersection of the two words' sets |
| BitWords.WIntersectSize | include/bit_sets.h:219 | `_WINTERSECTSIZE` is the size of that intersection |
| BitWords.ElemsToggleOff | include/bit_sets.h:226 | toggling an element bit off removes exactly that element |
| BitWords.TakeBit | include/bit_sets.h:226 | `_TAKEBIT` yields the least element and leaves the word without exactly that element |
| BitSets.SetWd | include/bit_sets.h:70 | position `pos` lies in word `pos >> 6` |
| BitSets.SetBt | include/bit_sets.h:77 | the bit within the word, so that word and bit recompose `pos` |
| BitSets.TimesWordSize | include/bit_sets.h:84 | the first position of word `w` is in word `w` at bit 0 |
| BitSets.Position | include/bit_sets.h:70-84 | word and bit of `64w + b` are `w` and `b` |
| BitSets.SetWordsNeeded | include/bit_sets.h:93 | enough words for `n` positions and no more; for `n` of 0, taken as a 64-bit `size_t`, the wrap yields 2^58 |
| BitSets.IsElement | include/bit_sets.h:122 | true exactly when `pos` is in the set |
| BitSets.SamePosition | include/bit_sets.h:70-77 | two positions with equal word and bit are equal |
| BitSets.AddedMembers | include/bit_sets.h:100 | adding `pos` to the words adds exactly `pos` to the set |
| BitSets.DeletedMembers | include/bit_sets.h:107 | deleting `pos` removes exactly `pos` |
| BitSets.FlippedMembers | include/bit_sets.h:115 | flipping `pos` removes it when present and adds it otherwise |
| BitSets.FlipInvolution | include/bit_sets.h:115 | flipping the same position twice restores the words |
| BitSets.AddElement | include/bit_sets.h:100 | the set gains exactly `pos` |
| BitSets.DelElement | include/bit_sets.h:107 | the set loses exactly `pos` |
| BitSets.FlipElement | include/bit_sets.h:115 | the set toggles exactly `pos` |
| BitSets.EmptySet | include/bit_sets.h:129-131 | the first `m` words are cleared, the set they stand for is empty, and later words are untouched |
| BitSets.AllBits | include/bit_sets.h:138-141 | the first `m` words are all ones, the set is every position below `64m`, and later words are untouched |
| BitSets.SetCpy | include/bit_sets.h:148-150 | the first `m` words of `s1` become those of `s2`, so both stand for the same set |
| BitSets.ShiftCard | include/bit_sets.h:307-315 | moving every element up by a fixed distance keeps the set's size |
| BitSets.MembersCons | include/bit_sets.h:307-315 | a word array's set is its first word's elements plus the rest's set moved up by 64 |
| BitSets.MembersCard | include/bit_sets.h:307-315 | a set's size is the sum of its words' element counts |
| BitSets.MemberAt | include/bit_sets.h:122 | position `64w + j` is in the set exactly when bit `j` of word `w` is |
| BitSets.SetSize | include/bit_sets.h:307-315 | the count is the size of the set the first `m` words stand for |
| BitSets.MembersAnds | include/bit_sets.h:284-295 | the word-by-word and of two arrays stands for the intersection of their sets |
| BitSets.Intersect | include/bit_sets.h:284-295 | -1 exactly when the intersection has more than `num` elements, otherwise 1 |
| BitSets.MaskAbove | src/bit_sets.c:10-11 | masking a word with `_BITMASK(b)` keeps exactly its elements above `b` |
| BitSets.ElemsBitMask | include/bit_sets.h:205 | `_BITMASK(b)` holds exactly the positions `b+1` to 63 |
| BitSets.NextAfterUnique | include/bit_sets.h:228-239 | the next element after `pos` is determined by the set |
| BitSets.NextElement | src/bit_sets.c:3-30 | the least element above `pos`, or -1 exactly when there is none |
| BitSets.PermSetStep | src/bit_sets.c:46-56 | taking one more element of `s2` adds its image to the image built so far |
| BitSets.AddedPrefixMembers | src/bit_sets.c:53-54 | adding an image position to the words adds exactly it to the first `m` words' set |
| BitSets.PermSetOne | src/bit_sets.c:38-45 | for one word, `s1` becomes the image of `s2`'s set under `p` |
| BitSets.AddImages | src/bit_sets.c:49-55 | for one word of `s2`, adds the images of its elements to `s1` |
| BitSets.PermSet | src/bit_sets.c:32-57 | `s1` becomes the image of `s2`'s set under `p`, and words past `m` are untouched |
| BitSets.AutWordFails | src/bit_sets.c:74-78 | an element whose image is outside the set refutes that `p` maps the set into itself |
| BitSets.AutWord | src/bit_sets.c:63-80 | for one word, true exactly when every element of the set seen so far maps into the set |
| BitSets.PermAut | src/bit_sets.c:59-82 | 1 exactly when `p` maps every element of the set to an element of the set, otherwise -1 |

## Left out

- The `_r` variants of each operation (`queues_enqueu_r`, `hashtabs_find_r`, `stacks_map_r` and the rest) are not modelled separately. They call the same code with a comparator, hash or visitor that takes one extra argument. That is a comparator, hash or visitor chosen by the caller, which the model already has as a parameter.
- Memory management is not modelled: `malloc`, `calloc`, `realloc` and `free`, the `*_free` functions, and allocation failure. Buffers are Dafny arrays, and chains are sequences.
- Byte-level representation: shallow elements are abstract values, and deep elements are byte strings. `memcpy`/`memcmp` on array slots are modelled as value copy and equality. Only DeepStacks.DStack.Push copies a prefix of a longer string. DeepQueues.DQueue.Enqueue and DeepHashTables.DHashTable.Insert require the string to be exactly `size` bytes long. A shorter object would be read past its end. A longer object is accepted by the source: `dqueues_enqueu` stores only its first `size` bytes, as `dstacks_push` does, but the comparator and the hash still read the whole object. The queue would then be ordered by objects it does not store, which the model's sorted chains cannot express.
- `arrays_bsearch`, `arrays_sort` and `arrays_sort_r` call the C library's `bsearch` and `qsort`, which are not part of this model.
- The swap helpers and the internal node allocation helpers of the queues are folded into the operations that use them.
- Orders.TotalOrder, and so Queues.Queue.constructor, DeepQueues.DQueue.constructor, HashTables.HashTable.constructor and DeepHashTables.DHashTable.constructor: the comparator must answer exactly -1, 0 or 1, besides being a linear order. The headers ask only for a linear ordering, but `queues_enqueu`, `queues_remove` and their deep versions switch on those three values alone. With a comparator that answers any other value, the insertion and removal scans never advance and the call never returns (src/queues.c:88-103 and 262-273, src/deepqueues.c:93-108 and 272-283). An insert into a one-element queue is then silently dropped. The model does not capture either effect.
- Queues.Map, DeepQueues.Map, HashTables.Map, DeepHashTables.Map, Stacks.Map, DeepStacks.Map and Arrays.DynArray.Map: the visitor receives each element by address (`void **` or a slot pointer) and may rewrite it in place; the model's visitor only reads the element and threads its own state, so rewriting elements during a visit is not modelled.
- Queues.Queue.DequeueBack: requires that the tail is not stale. After `queues_remove` takes out the only element through its head branch, the source would read a freed node, which the model has no value for. The same holds for DeepQueues.DQueue.DequeueBack.
- Counters are unbounded. The `size`/`nmem`/`nmems` counters and the bit-set counts are not wrapped at `SIZE_MAX`; only the hash tables' `load` counter, which can be driven round, wraps explicitly.
- BitSets.NextElement: the `int` result is not bounded to 32 bits. For sets of more than 2^31 positions the source's `_TIMESWORDSIZE(w) + …` would overflow an `int`.
- BitSets.PermSet, BitSets.PermAut: the permutation is a `seq<nat>`, not a `uint32_t` table. Its entries are required to index inside the set's words, as the routines dereference them there.
- BitSets.SetSize, BitSets.Intersect, BitSets.NextElement, BitSets.PermSet and BitSets.PermAut: `m` is required not to exceed the arrays' lengths, which the source's `[static 1]` parameters leave to the caller. BitSets.Intersect does not require `s1` and `s2` to be distinct; the `restrict` qualifier forbids aliasing, but the routine only reads.
- The inner loops of `bit_permset` and `bit_permaut` are separate methods (BitSets.AddImages, BitSets.AutWord). The one-word branch of `bit_permaut` is that inner loop at word 0.
- HashTables.HashTable.constructor, DeepHashTables.DHashTable.constructor: the request `n` must be below the last prime. The ladder's final entry, SIZE_MAX, is not a usable capacity here. Rehash likewise requires a rung above the current one.
- The hash tables' queue objects are bucket values (`Option<seq<T>>`) in the bucket array, operated on with the same sorted-chain functions the queue methods are proved against.
- HashTables.HashTable.InsertEach, HashTables.HashTable.InsertFrom and their deep counterparts state that `load` counts the allocated buckets only when it did before the call. Once a removal has emptied a queue whose bucket stays allocated, `load` no longer counts them, so from then on the contracts state `load` only through each insert's increment.
- HashTables.HashTable.Size and DeepHashTables.DHashTable.Size count duplicates whose insert was ignored, because the source's `size++` runs whether or not the queue took the element; the model keeps a ghost count of those.

## Findings

| source | as written | input that shows it | evidently intended | confidence | as-written member | corrected member |
|---|---|---|---|---|---|---|
| src/deephashtabs.c:86-95 | `dhashtabs_insert` increments `t->size`, the byte size of the elements, instead of `t->nmems`, and gives each new bucket queue the current `t->size` as its element size; `dhashtabs_size` returns that field | a new table with element size 4, two inserts hashing to different slots: the second slot's queue copies 5 bytes per element and the size reported is 6 | count the elements in `nmems`, keep `size` as the fixed byte size, and report `nmems` | high (not executed) | DeepHashTables.WrittenWidthDrifts | DeepHashTables.DHashTable.Insert |
| src/deephashtabs.c:221-229 | `dhashtabs_size` returns `t->size`, which starts as the byte size and which every insert and every successful removal moves by one; `dhashtabs_loadfactor` divides that field by `load` | a new table with element size 4, two inserts and one removal: one element is stored, yet the size reported is 5 | report the number of elements, kept in `nmems` | high (not executed) | DeepHashTables.WrittenSizeCounts | DeepHashTables.DHashTable.Size |
| src/deephashtabs.c:189-199 | `dhashtabs_rehash` gives the new table `t->size` as its byte size, and by then that field also counts the inserts | a table with element size 4 holding one element, rehashed: the new table's queue copies 5 bytes from each 4-byte element and reports size 6 | give the new table the old table's byte size | high (not executed) | DeepHashTables.WrittenRehashDrifts | DeepHashTables.DHashTable.Rehash |
