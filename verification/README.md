# Verified models of the algorithms behind the DPDK traffic programs

This project models, in Dafny, the complete algorithms that the sending and receiving programs of this
repository build on, and proves what they promise:

* **The two-level bitmap** of `include/rte_bitmap.h` with its scan cursor: where it lies in memory, what
  its operations do to the set of positions it stands for, and that its scan enumerates, wraps around and
  is fair while bits change (`BitmapLayout`, `BitmapSpec`, `BitmapScan`, `BitmapSearch`,
  `BitmapRawScan`, `RteBitmap`, `BitmapAllSet`).
* **The ring** of `include/rte_avp_fifo.h`, as a class used by one thread (`Fifo`) and as a system of steps
  shared by one producer and one consumer (`FifoProtocol`, `FifoRuns`).
* **The 64-bit atomics** of `include/rte_atomic_32.h`: any number of threads in load-and-compare-and-swap
  loops whose plain loads may be torn, linearizable and lock-free all the same (`Atomic64`, `AtomicRuns`),
  and one thread's loop with other threads storing between its accesses (`AtomicLoop`).
* **The bucketed hash table** of `include/rte_fbk_hash.h`: a finite map with bounded buckets (`FbkHash`,
  `FbkHashRoom`, `FbkHashOps`, `FbkHashTable`, `FbkHashRun`), and one bucket of it under one writer and a
  concurrent lookup (`FbkConcurrent`).
* **The packet senders** of `main_pkt_send.cpp` on their shared buffer pool (`Sender`, `SenderLoop`).
* **Supporting code**: the power-of-two and logarithm tricks of `include/rte_common.h` (`Common`), the
  conversion of a segment chain to vectors of `include/rte_crypto_sym.h` (`CryptoVec`), and the in-place
  VLAN insertion and removal of `include/rte_ether.h` (`Vlan`).

`Words` holds machine words as natural numbers with explicit widths and the bit operators on them. Where
the source updates an object in place there is a class with its fields, and each method is tied to a
specification function; what the source promises is proved about those functions for every input, every
run or every reachable state.

`dafny verify dfyconfig.toml` checks everything.

## Where the code and its documentation disagree

The models follow the code.

* `rte_bitmap_set_slab` with a zero slab on an empty line marks the line as used although it is not
  (`SetSlabValidExactly` says exactly when, `ZeroSlabBreaksLevels` is the smallest case). A scan that
  comes to such a line returns 1 without writing pos or slab (`ScanRightExactly` says exactly when,
  `ScanAfterZeroSlab` is the smallest case).
* `rte_bitmap_init_with_all_set` compares sizes the other way round than `rte_bitmap_init` does: it refuses
  memory larger than the footprint and goes on with memory that the bitmap does not fit (`SizeTestsExactly`
  says exactly when, `AllSetOverruns` is a concrete case).
* The layout is sound exactly up to 2^32 - 512 bits; above that the number of lines wraps to 0 and
  `rte_bitmap_init` hands out a bitmap without room for any bit.
* Deleting the absent key 0 from a hash bucket with a free slot reports success and decrements the counter
  (`DeleteMeans` says exactly when, `DeleteOfAbsentZero` is a concrete case).
* A lookup may miss a key that is bound all along, when a delete of another key moves it behind the reader
  (`MissExactly` says exactly when, `MissWitness` shows that it happens).
* `avp_fifo_init` accepts size 0.
* The power-of-two alignments wrap to 0, and the logarithms are undefined, exactly above half the range.
* `rte_vlan_strip` returns -1, not 1, for an untagged frame; `rte_vlan_insert` returns -EINVAL where its
  documentation has -EPERM, and the round trip needs only the 12 bytes it checks for.

## Model

| member | source | states |
|---|---|---|
| BitmapLayout.FootprintDoesNotWrap | include/rte_bitmap.h:96-126 | for 1 to 2^32 - 512 bits no 32-bit step of the footprint computation wraps: neither rounding, nor the alignment, nor the placement |
| BitmapLayout.LayoutIsSound | include/rte_bitmap.h:96-126 | for 1 to 2^32 - 512 bits header, array1 and array2 do not overlap and each starts at the first place that suits it, array2 on a cache line and up to the returned size; array1 has the least power-of-two size with a bit for every line, array2 the least number of lines with room for the bits |
| BitmapLayout.LayoutSoundExactly | include/rte_bitmap.h:96-126 | that layout is sound if and only if the number of bits is at most 2^32 - 512 |
| BitmapLayout.EmptyLayout | include/rte_bitmap.h:96-126 | above that number both arrays are empty and 64 bytes are laid out |
| BitmapLayout.SizeTestsExactly | include/rte_bitmap.h:188-269 | the test of rte_bitmap_init passes if and only if the bitmap fits the memory; that of rte_bitmap_init_with_all_set passes with a fitting bitmap if and only if the memory has exactly the footprint's size, and with one that does not fit if and only if it is smaller |
| BitmapLayout.AllSetOverruns | include/rte_bitmap.h:268-269 | concrete case: one bit, whose footprint is 128 bytes, passes the test with 64 bytes of memory |
| BitmapSpec.SetKeepsValid | include/rte_bitmap.h:372-388 | setting a bit keeps array1 bit L equal to "line L of array2 has a set bit" |
| BitmapSpec.SetSlabValidExactly | include/rte_bitmap.h:400-415 | or-ing a slab keeps the two levels in step if and only if the slab is non-zero or its line was in use |
| BitmapSpec.ZeroSlabBreaksLevels | include/rte_bitmap.h:400-415 | concrete case: or-ing 0 into an empty bitmap leaves no members but a marked line |
| BitmapSpec.ClearKeepsValid | include/rte_bitmap.h:465-496 | clearing a bit keeps the two levels in step, dropping the summary bit only when the whole line is empty |
| BitmapSpec.SetSlabKeepsMarked | include/rte_bitmap.h:400-415 | or-ing any slab, a zero one too, keeps every used line marked in array1 |
| BitmapSpec.ClearKeepsMarked | include/rte_bitmap.h:465-496 | so does clearing, also beside marked empty lines |
| BitmapSpec.MarksAfter | include/rte_bitmap.h:372-496 | setting marks its line and clearing leaves that line marked exactly if it is still used; the marks of all other lines stay |
| BitmapSpec.ResetIsValid | include/rte_bitmap.h:315-321 | a reset bitmap has both levels empty and a valid cursor |
| BitmapSpec.HasWithBit | include/rte_bitmap.h:372-388 | setting changes exactly one position |
| BitmapSpec.HasWithoutBit | include/rte_bitmap.h:465-496 | clearing changes exactly one position |
| BitmapSpec.MembersWithSlab | include/rte_bitmap.h:400-415 | or-ing a slab adds exactly the positions of its set bits |
| BitmapScan.ScanKeepsValid | include/rte_bitmap.h:574-591 | a scan changes neither array and keeps the invariant |
| BitmapScan.ScanAnswers | include/rte_bitmap.h:574-591 | a scan fails if and only if no bit is set; otherwise pos is a multiple of 64 inside the array and slab is the non-zero array2[pos / 64] |
| BitmapScan.NextUsedIsNext | include/rte_bitmap.h:498-552 | the slab a scan finds is the first non-zero one at or cyclically after the cursor |
| BitmapScan.CursorAfterScan | include/rte_bitmap.h:533-552 | a successful scan leaves the line of the slab returned as the one visited, its slabs up to that one as used up, and the cursor just behind |
| BitmapScan.CursorAfterFailure | include/rte_bitmap.h:498-523 | a failed scan leaves both arrays as they are and the cursor on the first line of the array1 slab behind the present one, cyclically, with nothing left to read |
| BitmapScan.UsedIsExact | include/rte_bitmap.h:498-591 | the enumeration that scans are compared with is strictly ascending and holds exactly the non-zero slabs |
| BitmapScan.ScansEnumerate | include/rte_bitmap.h:498-591 | on an unchanged bitmap with K non-zero slabs scan number n after a reset returns non-zero slab number n mod K with its contents |
| BitmapScan.ResetRewinds | include/rte_bitmap.h:128-137 | after initialisation or reset the first line is looked at first |
| BitmapScan.ScanAfterFailure | include/rte_bitmap.h:498-591 | whatever is set and cleared after a failed scan, the next scan finds the first non-zero slab cyclically behind the line the failed one left on; that line itself comes last |
| BitmapScan.FirstLineComesLast | include/rte_bitmap.h:498-591 | concrete case: 1024 bits, reset, a failed scan, 0 and 512 set: the next scan returns 512 |
| BitmapScan.RunRefinesSet | include/rte_bitmap.h:315-591 | every run of set, set_slab (of a non-zero slab, or on a line in use), clear, reset and scan keeps the two-level invariant and does to the bitmap what it does to a plain set of positions |
| BitmapScan.ScanApproaches | include/rte_bitmap.h:498-591 | a scan returns a given non-zero slab or brings the cursor strictly nearer to it |
| BitmapScan.FairWithinDistance | include/rte_bitmap.h:498-591 | in any interleaving of operations without reset a slab that stays non-zero is returned by one of the next distance + 1 scans |
| BitmapScan.ScanIsFair | include/rte_bitmap.h:498-591 | hence by one of any array2_size scans, whatever is set and cleared in between |
| BitmapSearch.MaskedSlabBits | include/rte_bitmap.h:84-88 | the mask keeps exactly the bits behind offset1 |
| BitmapSearch.NextBitHoldsNextSlab | include/rte_bitmap.h:498-531 | if the line of the next array1 bit is in use, its first non-zero slab is the cyclically next one |
| BitmapRawScan.NextMarkedIsNext | include/rte_bitmap.h:498-523 | the search ends on the next marked line cyclically, the present one last, or none is marked |
| BitmapRawScan.ScanRightExactly | include/rte_bitmap.h:574-591 | with every used line marked, a scan does the right thing if and only if it finds a slab in the line being read, or the next marked line (if any) holds a set bit; otherwise it returns 1, writes neither pos nor slab and leaves that line as visited and used up |
| BitmapRawScan.RawScanFails | include/rte_bitmap.h:498-591 | a scan returns 0 if and only if no line is marked, and then leaves the cursor on the first line of the next array1 slab, cyclically |
| BitmapRawScan.ValidScanIsRight | include/rte_bitmap.h:574-591 | with both levels in step it always does, so that the unchecked second read finds a slab |
| BitmapRawScan.ScanAfterZeroSlab | include/rte_bitmap.h:400-591 | concrete case: after a zero slab on an empty bitmap a scan returns 1 and writes nothing |
| BitmapRawScan.RawRunRefinesSet | include/rte_bitmap.h:315-591 | every run, zero slabs included, keeps all used lines marked and the set of positions right |
| RteBitmap.Bitmap.Index1Inc | include/rte_bitmap.h:78-82 | masking with size - 1 is stepping cyclically through array1 |
| RteBitmap.Bitmap.Index2Set | include/rte_bitmap.h:90-94 | index2 becomes the first slab of the current line |
| RteBitmap.Bitmap.ScanInit | include/rte_bitmap.h:128-137 | the cursor is put on the last array1 bit with nothing left to read; with no array1 at all its index wraps |
| RteBitmap.Bitmap.Init | include/rte_bitmap.h:169-203 | null exactly for no bits, no or unaligned memory, or too little of it; otherwise an empty, rewound bitmap with arrays of the footprint's sizes, valid and with room for the bits if and only if they are at most 2^32 - 512, and without any room above |
| RteBitmap.Bitmap.Reset | include/rte_bitmap.h:315-321 | empties the set and puts the cursor on the last bit of array1 |
| RteBitmap.Bitmap.Get | include/rte_bitmap.h:352-362 | non-zero if and only if the position is a member, whatever array1 says |
| RteBitmap.Bitmap.Set | include/rte_bitmap.h:372-388 | adds exactly one member and keeps the cursor; levels in step stay so, and used lines stay marked |
| RteBitmap.Bitmap.SetSlab | include/rte_bitmap.h:400-415 | adds the slab's members; levels in step stay so if and only if the slab is non-zero or the line was used; used lines stay marked in any case |
| RteBitmap.Bitmap.LineNotEmpty | include/rte_bitmap.h:418-431 | non-zero if and only if one of the line's eight slabs is |
| RteBitmap.Bitmap.Clear | include/rte_bitmap.h:465-496 | removes exactly one member and keeps the cursor; levels in step stay so, and used lines stay marked |
| RteBitmap.Bitmap.Bsf64Safe | include/rte_common.h:722-730 | finds the lowest set bit, or reports that there is none and stores nothing |
| RteBitmap.Bitmap.ScanSearch | include/rte_bitmap.h:498-523 | finds the next set array1 bit cyclically after the cursor, the current one last, or fails only if all bits are clear |
| RteBitmap.Bitmap.ScanRead | include/rte_bitmap.h:533-552 | returns the next non-zero slab of the current line and advances behind it, or uses the line up |
| RteBitmap.Bitmap.Scan | include/rte_bitmap.h:574-591 | return value, what is written and the cursor (line visited, slabs used up in it) are those of the raw scan, and with both levels in step those of the specification; a failed scan steps index1 on by one, cyclically, and zeroes offset1; index2 follows the line whenever go2 says that it is read next; no index leaves array2 |
| BitmapAllSet.ClearSlabOverheadBits | include/rte_bitmap.h:219-235 | clears exactly the bits from pos to the end |
| BitmapAllSet.AllSetTwoLevel | include/rte_bitmap.h:253-288 | one array1 bit a line and n array2 bits satisfy the two-level invariant, for n on a line boundary or not |
| BitmapAllSet.InitWithAllSet | include/rte_bitmap.h:253-288 | null exactly for no bits, bad memory or a size other than the footprint; otherwise arrays of the footprint's sizes, rewound, and p is a member if and only if p < n_bits |
| Fifo.AvpFifo.Init | include/rte_avp_fifo.h:33-44 | accepts exactly 0 and the powers of two, and leaves an empty queue of that size; otherwise changes nothing |
| Fifo.InitAcceptsExactly | include/rte_avp_fifo.h:36-38 | size & (size - 1) == 0, with 32-bit wrap-around, holds exactly for 0 and the powers of two |
| Fifo.AvpFifo.Put | include/rte_avp_fifo.h:50-69 | appends exactly the first min(num, free) items, in order |
| Fifo.AvpFifo.Get | include/rte_avp_fifo.h:74-94 | removes and returns exactly the first min(num, count) items |
| Fifo.CountIsUsed | include/rte_avp_fifo.h:99-103 | the masked unsigned difference is the queue's length for every power-of-two size and every pair of positions |
| Fifo.FreeCountIsRest | include/rte_avp_fifo.h:108-112 | count + free count == len - 1, under wrap-around |
| Fifo.AvpFifo.CountOf | include/rte_avp_fifo.h:99-103 | returns the length of the queue |
| Fifo.AvpFifo.FreeCountOf | include/rte_avp_fifo.h:108-112 | returns len - 1 minus the length of the queue |
| FifoProtocol.NotFull | include/rte_avp_fifo.h:58-62 | a stale snapshot that says "not full" is right about the real state |
| FifoProtocol.NeverOverwrites | include/rte_avp_fifo.h:50-69 | the slot the producer is about to write holds no item the consumer has yet to copy |
| FifoProtocol.NeverStuck | include/rte_avp_fifo.h:50-94 | each side can go on in every reachable state, whatever the other does, with any call and inside the buffer |
| FifoProtocol.StepInv | include/rte_avp_fifo.h:50-94 | each snapshot, copy and publication step of either side keeps the invariant |
| FifoProtocol.RunIsSafe | include/rte_avp_fifo.h:50-94 | in every state of every interleaving the items received are a prefix of those sent, at most len - 1 are under way, and no copy hits an unread slot |
| FifoProtocol.QueueIsPublished | include/rte_avp_fifo.h:50-112 | the shared fields always stand for the items published and not yet released, in order |
| FifoProtocol.PutCount | include/rte_avp_fifo.h:58-68 | a put stops exactly when its items or the room of its snapshot are used up |
| FifoProtocol.GetCount | include/rte_avp_fifo.h:84-93 | a get stops exactly when it has as many items as asked for or all of its snapshot |
| FifoProtocol.StepOnQueue | include/rte_avp_fifo.h:50-94 | a step that publishes a put appends the first min(num, room at the snapshot) of the items the producer holds, one that publishes a get takes the first min(num, items at the snapshot); no other step changes the queue |
| FifoRuns.RunOnQueue | include/rte_avp_fifo.h:50-94 | in every run, from the arguments of the calls: a put appends, in one step, the first min(num, room at its snapshot) items of the last put called and returns their number; a get takes off and returns the first min(num, items at its snapshot) for the last get called; room and items are those of the queue anyone could see in the shared fields when the snapshot was taken; no other step changes that queue |
| FifoRuns.RunIsFifo | include/rte_avp_fifo.h:50-94 | in every state of every run what the puts have accepted is what the gets have returned, in order, followed by what is in the queue |
| Atomic64.LoopComputesOp | include/rte_atomic_32.h:72-191 | from the value really held, a loop stores and returns what the one-step operation of include/rte_atomic_64.h does: set and exchange store their argument, read leaves the counter, add and sub move it by theirs mod 2^64, read and exchange return the value before, add_return and sub_return the value after |
| Atomic64.OpIsMeant | include/rte_atomic_64.h:47-178 | so does the one-step operation, test_and_set included: it returns 1 and stores 1 if the counter was 0, and otherwise returns 0 and leaves it |
| Atomic64.CasIsEffect | include/rte_atomic_32.h:72-191 | a successful compare-and-swap is the whole operation in one step, a failed one changes nothing |
| Atomic64.StepInv | include/rte_atomic_32.h:72-211 | every half load, compare-and-swap, call and return of any thread keeps the invariant |
| Atomic64.NeverStuck | include/rte_atomic_32.h:72-211 | every thread can go on in every reachable state, with any call and with either half of the load first |
| Atomic64.FailureMeansProgress | include/rte_atomic_32.h:72-191 | lock-freedom: when a compare-and-swap fails another thread's operation has changed the counter since the load began |
| AtomicRuns.FailuresBounded | include/rte_atomic_32.h:72-191 | in every run a thread's failed retries are at most as many as the operations of other threads that changed the counter |
| Atomic64.TornLoad | include/rte_atomic_32.h:97-110 | a torn load does happen: a run in which the loaded value was never the counter's |
| AtomicRuns.OnePerCallStep | include/rte_atomic_32.h:72-211 | a step keeps every effect that of a call made in the run, and no call has two |
| AtomicRuns.AllHaveCallsStep | include/rte_atomic_32.h:72-211 | a step keeps every effect that of a call that has returned or is about to |
| AtomicRuns.EffectsMean | include/rte_atomic_32.h:72-211 | in every reachable state each effect in the history did to the counter, and returns, what its operation with its argument promises |
| AtomicRuns.ReturnsMean | include/rte_atomic_32.h:72-211 | each call that has returned did so too, with the value it really returned |
| AtomicRuns.RunIsLinearizable | include/rte_atomic_32.h:72-211 | in every run of any number of threads the effects form a sequential history ending in the counter, each doing and returning what its operation promises; every returned call is one entry of it, between its call and its return and with its result; a call that returned before another was made precedes that one's effect, returned or not; conversely every entry is the only effect of one call made in the run |
| AtomicRuns.CounterIsSum | include/rte_atomic_32.h:125-191 | over any stretch without a store the counter moves by everything added and subtracted, mod 2^64 |
| AtomicRuns.RunTotals | include/rte_atomic_32.h:72-211 | what the history adds up to is what the returned and the returning calls add up to, each counted once |
| AtomicRuns.CounterSinceLastStore | include/rte_atomic_32.h:72-191 | in every run the counter is the argument of the last set or exchange (0 after an init) plus what all later calls add and subtract, mod 2^64 |
| AtomicRuns.CounterWithoutStores | include/rte_atomic_32.h:125-206 | without a store it is the initial value plus what all calls add and subtract |
| AtomicRuns.AddsOfOne | include/rte_atomic_32.h:125-155 | N returned calls of add(1) from any threads leave the counter exactly N higher |
| AtomicLoop.Counter.Load | include/rte_atomic_32.h:97-110 | two 32-bit loads give the counter's value if no other thread interferes |
| AtomicLoop.Counter.CmpSet | include/rte_atomic_32.h:25-70 | stores if and only if the counter holds the expected value at that moment, and then nothing else comes between |
| AtomicLoop.Counter.Perform | include/rte_atomic_32.h:72-191 | each retry loop ends once the others pause; its one store and its result are what the operation with its argument promises for the very value held just before, and every other value held meanwhile is the others' own |
| FbkHash.BucketInRange | include/rte_fbk_hash.h:94-99 | every key's bucket lies inside the table |
| FbkHash.BucketOfHash | include/rte_fbk_hash.h:94-99 | a key's bucket is its hash modulo the number of buckets, times the bucket's size |
| FbkHash.BucketsDisjoint | include/rte_fbk_hash.h:94-99 | different buckets do not overlap |
| FbkHash.FindSlotMeans | include/rte_fbk_hash.h:247-265 | stopping at the first free slot or the key finds the key exactly if the map binds it, and runs off the end exactly if the bucket is full of other keys |
| FbkHash.StoreBinds | include/rte_fbk_hash.h:126-143 | the one store of an add binds one key and leaves the others alone |
| FbkHash.StoreKeepsInv | include/rte_fbk_hash.h:117-147 | an add keeps used slots in front with 1 in is_entry, keys distinct and in their bucket, free slots zero |
| FbkHash.MoveUnbinds | include/rte_fbk_hash.h:199-206 | moving the last entry into the hole and zeroing it removes exactly one key |
| FbkHash.MoveKeepsInv | include/rte_fbk_hash.h:184-214 | a delete keeps the table invariant |
| FbkHash.CountIsSize | include/rte_fbk_hash.h:70-82 | the number of active slots is the size of the map |
| FbkHash.ClearedInv | include/rte_fbk_hash.h:291-296 | a zeroed table is the empty map |
| FbkHashRoom.CongruentIsSameBucket | include/rte_fbk_hash.h:94-99 | two keys share a bucket if and only if their hashes are congruent modulo bucket_mask + 1 |
| FbkHashRoom.FullIsNoRoom | include/rte_fbk_hash.h:126-146 | a bucket is full exactly when the map binds entries_per_bucket keys with a hash congruent to its keys' |
| FbkHashOps.FindKeyMeans | include/rte_fbk_hash.h:191-192 | the delete's search, which ignores is_entry, ends on a free slot exactly when the delete does not conform |
| FbkHashOps.AddMeans | include/rte_fbk_hash.h:117-147 | returns -ENOSPC, changing nothing, exactly when the key is absent and entries_per_bucket bound keys have a hash congruent to its own; otherwise binds the key; the counter stays as far off as it was |
| FbkHashOps.DeleteMeans | include/rte_fbk_hash.h:184-214 | unbinds the key or returns -ENOENT; the counter stays as far off as it was if the key is not 0, is bound, or its bucket's number of keys with a congruent hash is bound, and falls one more short otherwise |
| FbkHashOps.LookupMeans | include/rte_fbk_hash.h:247-265 | returns the bound value or -ENOENT |
| FbkHashTable.Table.AddKeyWithBucket | include/rte_fbk_hash.h:117-147 | the loop over a bucket stores at the first slot that is free or has the key, and counts new entries |
| FbkHashTable.Table.AddKey | include/rte_fbk_hash.h:162-168 | on any table whose slots are right: the map afterwards, -ENOSPC exactly for an absent key with entries_per_bucket bound keys of congruent hash, no change on failure, the counter as right as before |
| FbkHashTable.Table.FindLast | include/rte_fbk_hash.h:194-198 | the backward loop finds the last used slot of the bucket |
| FbkHashTable.Table.DeleteKeyWithBucket | include/rte_fbk_hash.h:184-214 | the loop, the two stores and the counter, free slots with key 0 included |
| FbkHashTable.Table.DeleteKey | include/rte_fbk_hash.h:227-232 | on any table whose slots are right: removes exactly the key; the counter stays as right as it was if and only if the delete conforms |
| FbkHashTable.Table.LookupWithBucket | include/rte_fbk_hash.h:247-265 | the loop stops at the first free slot or the key |
| FbkHashTable.Table.Lookup | include/rte_fbk_hash.h:277-282 | map[key] or -ENOENT, on any table whose slots are right |
| FbkHashTable.Table.ClearAll | include/rte_fbk_hash.h:291-296 | leaves the empty map, whatever the table held |
| FbkHashRun.ApplyRefines | include/rte_fbk_hash.h:117-296 | each operation changes the map as the bounded map changes and answers as it does, except that a delete that does not conform answers 0 and takes one off the counter |
| FbkHashRun.RunRefinesMap | include/rte_fbk_hash.h:117-296 | every run of add, delete, lookup and clear_all ends in the table of the final map with the map's answers, except 0 for a delete that does not conform; used_entries falls short of the map's size by the number of deletes since the last clear_all that did not conform, mod 2^32 |
| FbkHashRun.RunConformsExactly | include/rte_fbk_hash.h:117-296 | all answers of a run are the map's if and only if all its deletes conform (key not 0, or bound, or its bucket full), and then used_entries is the map's size |
| FbkHashRun.DeleteOfAbsentZero | include/rte_fbk_hash.h:191-208 | concrete case: deleting key 0 from an empty table returns 0 and makes the counter 2^32 - 1 |
| FbkConcurrent.StoresAreOperations | include/rte_fbk_hash.h:121-206 | the single store of an add and the two of a delete add up to the sequential operation, on the slots and on the map, which a delete changes at one of its two stores |
| FbkConcurrent.ThreadsApart | include/rte_fbk_hash.h:121-265 | no store touches the reader, and a read changes nothing but the reader's own place |
| FbkConcurrent.ReadIsSearch | include/rte_fbk_hash.h:251-264 | without stores in between, the reads of a lookup are the sequential search and end with its answer |
| FbkConcurrent.StepKeeps | include/rte_fbk_hash.h:121-265 | after every single store, in the middle of a delete too, the bucket stands for the map the operations add up to |
| FbkConcurrent.NeverStuck | include/rte_fbk_hash.h:121-265 | writer and reader can go on in every reachable state, whatever the other does |
| FbkConcurrent.IdleIsContents | include/rte_fbk_hash.h:121-206 | outside a delete that map is the one the slots stand for |
| FbkConcurrent.HitWasBound | include/rte_fbk_hash.h:247-265 | any value a concurrent lookup returns was bound to its key at a moment of that lookup |
| FbkConcurrent.MissExactly | include/rte_fbk_hash.h:199-264 | a finished lookup misses a key that stays bound if and only if a delete moved its entry from ahead of the reader to behind it |
| FbkConcurrent.NoDeletesNoMiss | include/rte_fbk_hash.h:121-264 | with only adds and updates running, a key bound at the start of a lookup is never missed |
| FbkConcurrent.MissWitness | include/rte_fbk_hash.h:199-264 | with deletes running it can be missed |
| Sender.OwnedAfter | main_pkt_send.cpp:179-199 | what each step adds to or takes from a core's own buffers; it owns none when an iteration finishes |
| Sender.CoresApart | main_pkt_send.cpp:179-199 | a step touches one core at most, and never one that has stopped |
| Sender.NeverStuck | main_pkt_send.cpp:167-203 | every core that has not stopped can go on: with any buffer of the pool, a failed allocation, a burst of which any number is accepted, or the next free; the driver can complete any buffer it has |
| Sender.StepKeeps | main_pkt_send.cpp:179-199 | each allocation, failure, burst, free, iteration end and completion leaves every buffer in exactly one place |
| Sender.RunConserves | main_pkt_send.cpp:167-203 | hence at every moment of every run of any number of cores, with any accept counts and completion order |
| Sender.OwnerIsUnique | main_pkt_send.cpp:179-197 | a buffer that a core owns is in no other place, with no other core and once in its array |
| Sender.BurstIsNew | main_pkt_send.cpp:192 | the driver gains exactly nb_tx buffers it did not have |
| Sender.RunCirculates | main_pkt_send.cpp:167-203 | pool, driver and arrays always add up to all buffers; what stopped cores abandon is at most 63 each |
| Sender.CountersAreSums | main_pkt_send.cpp:198-199 | total_num and burst_num of each core are the sums over its finished iterations, mod 2^32 |
| Sender.SentIsDelivered | main_pkt_send.cpp:192-199 | what all cores' finished iterations and their bursts under way have handed over is what the driver has plus what it has completed |
| SenderLoop.SendCore.Fill | main_pkt_send.cpp:180-191 | takes distinct buffers from the pool until the array is full or an allocation fails, and stops short only then |
| SenderLoop.SendCore.FreeFrom | main_pkt_send.cpp:193-197 | gives back exactly the buffers from nb_tx on |
| SenderLoop.SendCore.Iteration | main_pkt_send.cpp:179-199 | a finished iteration leaves the core with nothing: nb_tx buffers are the driver's, the others back in the pool; exactly when an allocation fails, fewer than 64 are left in neither |
| Common.FillAllValue | include/rte_common.h:464-497 | the or-shift cascade sets every bit below the top set bit and no other |
| Common.Align32Pow2IsLeast | include/rte_common.h:527-534 | the least power of two at or above x up to 2^31, and 0 exactly for 0 and above |
| Common.Align64Pow2IsLeast | include/rte_common.h:562-569 | the same for 64 bits |
| Common.Align32PrevPow2IsGreatest | include/rte_common.h:545-551 | the greatest power of two at or below x, 0 for 0 |
| Common.Align64PrevPow2IsGreatest | include/rte_common.h:580-586 | the same for 64 bits |
| Common.Log2U32IsLeastExponent | include/rte_common.h:664-671 | the least k with 2^k >= v; defined if and only if v <= 2^31 |
| Common.Log2U64IsLeastExponent | include/rte_common.h:761-769 | the same for 64 bits |
| Common.IsPowerOf2Exact | include/rte_common.h:512-516 | true exactly for the powers of two |
| CryptoVec.PiecesInOrder | include/rte_crypto_sym.h:968-999 | one vector a segment, in order, inside the segment's data; the first starts at ofs, the others at the start of their segment, and all but the last reach to its end |
| CryptoVec.PiecesCount | include/rte_crypto_sym.h:968-999 | their number is the least positive number of segments that together hold ofs + len bytes, or all segments if these hold fewer |
| CryptoVec.PiecesGather | include/rte_crypto_sym.h:953-1004 | the pieces concatenate to exactly the packet's bytes from ofs on, len of them or as many as there are |
| CryptoVec.FillRest | include/rte_crypto_sym.h:979-999 | the loop over the later segments writes its vectors, as few as hold what is still wanted, and nothing else, and leaves what could not be covered |
| CryptoVec.MbufToVec | include/rte_crypto_sym.h:953-1004 | -nb_segs and no write if num is too small; otherwise the pieces and their number, the least that holds ofs + len bytes or nb_segs, the rest of vec untouched; the closing assertion holds if and only if ofs + len <= pkt_len |
| Vlan.UntaggedOfTagged | include/rte_ether.h:325-390 | taking a tag out of a frame it was put into gives the frame and the tag's value |
| Vlan.TaggedOfUntagged | include/rte_ether.h:325-390 | putting a tagged frame's own tag back gives the frame, byte for byte |
| Vlan.TagOnTheWire | include/rte_ether.h:325-390 | the tag is the bytes 0x81 and 0x00 and the control information, high byte first, behind the 12 address bytes |
| Vlan.InsertedFrame | include/rte_ether.h:375-380 | the overlapping move and the stores put the tag between the addresses and the rest |
| Vlan.StrippedFrame | include/rte_ether.h:334-340 | the overlapping move takes it out |
| Vlan.StripOfInsert | include/rte_ether.h:325-390 | strip after insert restores frame, lengths, offset and vlan_tci, and the buffer but for four bytes of headroom |
| Vlan.InsertOfStrip | include/rte_ether.h:325-390 | insert after strip restores the whole buffer and every field |
| Vlan.Mbuf.Prepend | include/rte_mbuf.h:1548-1564 | moves the front of the data, or changes nothing without headroom |
| Vlan.Mbuf.Adj | include/rte_mbuf.h:1612-1626 | moves it back, or changes nothing if there is too little data |
| Vlan.TagOfFrame | include/rte_ether.h:331-336 | for a frame of at least 16 bytes the tag looked at in the buffer is the frame's |
| Vlan.Mbuf.Strip | include/rte_ether.h:325-343 | -1 and no change if the buffer has no tag there; otherwise the whole new buffer and fields, for short frames too as long as the bytes looked at are in the buffer |
| Vlan.Mbuf.Insert | include/rte_ether.h:357-390 | the error returns with no change; otherwise the whole new buffer and fields |

## Left out

- BitmapAllSet.InitWithAllSet: requires at least the footprint's memory and at most 2^32 - 512 bits, because otherwise the source writes outside the memory handed over, which has no defined result; `SizeTestsExactly`, `AllSetOverruns` and `EmptyLayout` say when that is.
- BitmapLayout.LayoutIsSound: for 64-byte cache lines and 64-bit pointers; 128-byte cache lines and their variant of the line test are not modelled.
- `rte_bitmap_free` (a null check) and `rte_bitmap_prefetch0` (no effect on state).
- FifoProtocol.RunIsSafe: under sequential consistency; the write and read barriers of the ring and hardware reordering are not modelled.
- Fifo.AvpFifo.Init: the panic on a size that is not a power of two is a return value; a ring of size 0 is not used any further.
- AtomicRuns.RunIsLinearizable: the compare-and-swap is one atomic step; its inline assembly and the memory ordering around it are not modelled. int64_t values are their unsigned bit patterns. inc, dec, clear and the inc/dec-and-test operations are add, sub, set and add_return or sub_return with fixed arguments.
- AtomicLoop.Counter.Perform: one method for the eight retry loops, which differ in the stored and the returned value only; the values other threads store are a finite list, so the loop's termination is "once they pause".
- FbkHashTable.Table: tables as creation leaves them; `rte_fbk_hash_create`, `rte_fbk_hash_free`, `rte_fbk_hash_find_existing` and the load factor are not part of this model, nor is the quality of the hash function, which is any function. The 8-byte union is a record of its three fields.
- FbkConcurrent.StepKeeps: one writer, one bucket, entries stored and read whole, reads and writes sequentially consistent; `rte_fbk_hash_clear_all`, which is documented as not safe to run beside lookups, is not among the concurrent operations.
- Sender.RunConserves: allocation, transmission, completion and free are the nondeterministic steps of the pool and the driver; lcore launching, the per-lcore mempool caches, packet contents and the queue table are left out.
- SenderLoop.SendCore.Iteration: one iteration without interference from other cores; the endless repetition and the interleaving are in `Sender`.
- CryptoVec.MbufToVec: `iova` and `tot_len` are not modelled (for later segments `tot_len` is computed from the first buffer); `base` is a segment number and an offset.
- Vlan.Mbuf.Strip: requires that the bytes the source looks at lie in the buffer and that a tagged segment holds the four bytes taken off; otherwise the source reads outside the buffer or moves bytes to a null pointer.
- Vlan.Mbuf.Insert: offload flags and the l2_len fields are not modelled, they do not touch the frame.
- `__rte_crypto_sym_op_sym_xforms_alloc`: a loop that links array elements, an easy member.
- Port and EAL initialisation, receive paths, timing, printing and the vote update of `main.cpp`: I/O, calls into code that is not in the repository, or without a clear intended meaning.
- The headers that only declare functions or forward to drivers (acl, efd, distributor, eventdev, cryptodev and others), the address predicates of `include/rte_ether.h`, version packing and single-bit helpers: nothing to prove or easy members.
