# Verified model of libplctag's utility layer and of the tag browser on top of it

This project models the data structures, concurrency gates, hash arithmetic, worklists and parsers of the repository
and proves what they are for. Every `.dfy` file holds one module:

| file | models |
|---|---|
| `UtHashLinks`, `UtHashExpand`, `UtHashBloom`, `UtHashTable`, `UtHash` | the intrusive hash table of `uthash.h`: items that sit in a doubly linked application-order list and in a doubly linked bucket chain at once, bucket doubling, deletion in place, the optional Bloom filter |
| `StableMerge`, `UtHashSort` | its bottom-up merge sort, which relinks the application-order list in place |
| `UtHashFsck`, `UtHashRun` | its integrity check, and whole runs of operations |
| `ProbeSlots`, `ProbeTable` | the linear-probing table of `hashtable.c`: ten probes, holes left by removal, growth by rehashing |
| `JenkinsHash` | the hash of `hash.c` on 32-bit words |
| `RefCount`, `LibInit` | `rc.c` and `initialize_modules()` of `init.c` as the interleaved steps of any number of threads |
| `PlcBytes`, `TagListing`, `UdtWorklist`, `ListTags` | `list_tags.cpp`: the binary record decoder, the list that is extended in front while it is walked, the worklist over a possibly cyclic graph of types |
| `Splitter` | `split_string()` of `cli.c`, which cuts a copy of the string in place |
| `TagEvents` | the event latch of `tag.h` and the dispatcher of `lib.c` |
| `Attr`, `TagString` | the attribute lists and the parser of `attr.c`, and the printer `buildTagstring()` of `plctags.cpp` |
| `ExpandTags` | `expand_tags()` of `gui.cpp` |
| `Vector` | the growable array of `vector.c` |
| `Basics`, `Bits` | status codes, options, sequence facts; C's bitwise operators on naturals |

The code is modelled in its own form: classes with links, arrays and fields that methods update, loops where the source
loops. Each method is tied to a specification, and the results about whole runs, all interleavings, all keys or all
strings are lemmas about those specifications.

The main results:

- **uthash.** Adds, deletes, expansions and sorts keep the invariant that the library's own integrity check spells
  out; that check is content with a table exactly when its links back and its counts are right, and so with any valid
  one (`UtHashFsck.Fsck`, `UtHashFsck.FsckOfValid`). An expansion leaves multipliers and nonideal items that are known
  in closed form (`UtHashTable.Table.ExpandBuckets`), and the bound on chains that the expansions are for (as long as
  they are allowed and the ideal length is below ten) holds after any run (`UtHashRun.Run`). After any run a find
  gives the item of a key exactly when it is in the table, with the Bloom filter or without
  (`UtHashRun.FindAfterRun`). The sort gives the stable sort for any total preorder, which is unique
  (`UtHash.HashTable.Sort`, `StableMerge.StableSortIsUnique`).
- **hashtable.c** refines a finite map. A growth step ends at the first size that fits, or exactly when memory runs
  out before that (`ProbeTable.HashTable.ExpandTable`); with fewer than ten entries, and a slot to spare, a put never
  needs one (`ProbeTable.HashTable.Put`). Uses outside its intended domain are decided as well: removing key 0 leaves
  the count exact exactly when no dead slot is among its probes (`ProbeTable.HashTable.Remove`,
  `ProbeTable.RemoveZeroFromFresh`). Putting a key that is present, or 0, leaves an unsound table; a later get sees
  the new data of a present key exactly when a hole came before the old entry in the table as it was, growth or not
  (`ProbeTable.HashTable.Put`, `ProbeSlots.PutOfPresentKey`, with a table for each outcome).
- **hash.c.** `mix` is a bijection. Two keys of equal length that differ only in one block or only in the tail never
  share a final state, and neither do two distinct 8-byte keys, two seeds on one key, or a key and the same key with a
  zero byte more in its tail, since the length is added (`JenkinsHash.LengthIsAdded`, `JenkinsHash.PaddingIsSeen`).
- **rc.c, init.c.** In every interleaving the count is exact, cleanup runs once and last, and nothing touches the
  block after it was freed; every run can be brought to its end, where the block has been cleaned up and freed, and no
  schedule goes on for ever without new references (`RefCount.EveryRunCanEnd`, `RefCount.ScheduleIsBounded`). At most
  one mutex is created and the modules are initialized once, in order. A caller told OK has an initialized library
  exactly when no earlier call that got past mutex creation returned a failure; `LibInit.OkDespiteFailedInit` is a run
  in which a later caller is told OK although `lib_init` failed. No run gets stuck, and without failures the
  initialization completes (`LibInit.InitializationCompletes`).
- **list_tags.cpp.** The definitions fetched are exactly the reachable ones, each fetched once, and the loop ends;
  which ids tags and fields call for is stated in the bits of their types (`UdtWorklist.QueuedIffMissing`,
  `ListTags.RootsIff`), and records and definitions survive their wire formats (`TagListing.RecordsRoundTrip`,
  `UdtWorklist.DefinitionRoundTrip`). The walk over the programs visits each entry of the original list once and none
  that it adds. What a call leaves in the queue, when the PLC cannot describe an id, is what the next call also
  fetches (`ListTags.ListTwice`).
- **split_string, attr.c, buildTagstring.** Both passes agree, and the parts are the non-empty gaps of the only split
  at leftmost separators. What is printed is parsed back exactly when no printed field is empty or contains `&`.
- **tag.h.** Over any run of raised events, dispatches and callback changes: creation once and first, completions
  never more than starts and a start between any two, reads and writes independent. Each event latched is delivered,
  waits or was latched over, and each call of the callback carries the status of the raise that latched its event last
  (`TagEvents.EveryCallTellsStatus`). Delivered completions never exceed latched starts; they exceed delivered starts,
  once a run has come to rest, exactly when starts lost outnumber what makes up for them (`TagEvents.SettledIff`, with
  a run that fails), and never for a caller who dispatches right after each start
  (`TagEvents.DispatchingStartsIsEnough`).

Where code and documentation disagree the model follows the code: the comment above `rc_dec_impl` (`rc.c:193-195`) asks
the cleanup function to free the block, but `refcount_cleanup` frees it itself (`rc.c:247-251`), and so does the model.

## Model

| member | source | states |
|---|---|---|
| `Bits.MaskIsModulo` | libplctag/src/contrib/cli/uthash.h:418-419 | masking a hash value with a power of two less one is reduction modulo that power: the bucket rule of HASH_TO_BKT |
| `Bits.ShiftIsDivision` | libplctag/src/contrib/cli/uthash.h:811 | shifting right is division by a power of two |
| `Bits.AndBits` | libplctag/src/contrib/cli/uthash.h:418-419 | each bit of x & y is set exactly when it is set in both |
| `Bits.AndWithPow2` | list_tags.cpp:239 | masking with a power of two tests one bit |
| `Bits.ShiftAndMaskIsCeiling` | libplctag/src/contrib/cli/uthash.h:782-799 | the shift-and-mask expression is the quotient rounded up, as the comment above HASH_EXPAND_BUCKETS claims |
| `UtHashLinks.AppendLast` | libplctag/src/contrib/cli/uthash.h:267-273 | the list with the new item at its end is linked in both directions, from the same head |
| `UtHashLinks.UnlinkApp` | libplctag/src/contrib/cli/uthash.h:445-451 | the list without the deleted item is linked in both directions; head and tail are its ends |
| `UtHashLinks.PushFront` | libplctag/src/contrib/cli/uthash.h:749-754 | the chain with the new item in front is linked in both directions |
| `UtHashLinks.UnlinkChain` | libplctag/src/contrib/cli/uthash.h:762-769 | the chain without the deleted item is linked in both directions and its bucket count is exact |
| `UtHashExpand.ToBktInRange` | libplctag/src/contrib/cli/uthash.h:418-419 | with a power of two of buckets every hash value selects one of them |
| `UtHashExpand.CountItem` | libplctag/src/contrib/cli/uthash.h:819-825 | after one more item expand_mult is 0 up to the ideal length and beyond it the least of the excess and of count over ideal, rounded up; nonideal_items counts the item exactly when it lies beyond |
| `UtHashExpand.ExpandMultClosed` | libplctag/src/contrib/cli/uthash.h:819-825 | the multiplier that counting one item after the other leaves, in closed form |
| `UtHashExpand.SumExcessCounts` | libplctag/src/contrib/cli/uthash.h:819-821 | nonideal_items is the number of places in the chains beyond the ideal length |
| `UtHashExpand.MoveItem` | libplctag/src/contrib/cli/uthash.h:818-829 | moving one handle keeps everything moved so far linked, counted, in the bucket its hash selects, and nonideal_items the sum of the excesses |
| `UtHashExpand.MoveChain` | libplctag/src/contrib/cli/uthash.h:815-831 | the inner loop moves exactly the handles of one old chain, although it destroys the chain while it walks it |
| `UtHashExpand.Redistribute` | libplctag/src/contrib/cli/uthash.h:810-832 | the two loops end with every member in the doubled array, in the bucket its hash selects, linked and counted, and nonideal_items exact |
| `UtHashExpand.PlacedAfterDelete` | libplctag/src/contrib/cli/uthash.h:452-454 | taking one handle out of its chain leaves every other member in the bucket its hash selects |
| `UtHashBloom.MakeBloom` | libplctag/src/contrib/cli/uthash.h:178-188 | a filter with every bit clear |
| `UtHashBloom.IndexInFilter` | libplctag/src/contrib/cli/uthash.h:178-196 | a hash value is reduced modulo 2^HASH_BLOOM, and the bytes of the filter just suffice |
| `UtHashBloom.BloomAdd` | libplctag/src/contrib/cli/uthash.h:193-197 | the bit of the hash value becomes set and every other bit stays as it was |
| `UtHashBloom.BloomTest` | libplctag/src/contrib/cli/uthash.h:194-200 | the answer is whether the bit of the hash value is set |
| `UtHashTable.IdealChainMaxlen` | libplctag/src/contrib/cli/uthash.h:811-812 | ideal_chain_maxlen is the number of items over the doubled bucket count, rounded up |
| `UtHashTable.CountIneffective` | libplctag/src/contrib/cli/uthash.h:837-841 | over any history of expansions, noexpand is set exactly when two consecutive ones left more than half the items nonideal; ineff_expands counts the latest run of such |
| `UtHashTable.Table.constructor` | libplctag/src/contrib/cli/uthash.h:210-235 | a fresh table of 32 buckets holds nothing and is sound |
| `UtHashTable.Table.ExpandBuckets` | libplctag/src/contrib/cli/uthash.h:800-844 | twice the buckets, the same members, each in the bucket its hash selects; the ideal length, the multiplier of every bucket and nonideal_items in closed form; the expansion is recorded |
| `UtHashTable.ExpandedIsBelow` | libplctag/src/contrib/cli/uthash.h:755 | a bucket that an expansion to ideal chains of fewer than ten items leaves is below its threshold |
| `UtHashTable.Table.Install` | libplctag/src/contrib/cli/uthash.h:833-841 | the new buckets replace the old and the whole table invariant holds again |
| `UtHashTable.Table.PushIntoBucket` | libplctag/src/contrib/cli/uthash.h:747-754 | the item goes to the front of the chain its hash selects, and the table holds exactly one member more |
| `UtHashTable.Table.ExpandIfCrowded` | libplctag/src/contrib/cli/uthash.h:755-758 | the buckets double exactly when the chain has reached its threshold and expansion is not inhibited; afterwards the bound on chains holds, and without doubling nothing changed |
| `UtHashTable.Table.AddToBkt` | libplctag/src/contrib/cli/uthash.h:747-759 | the table holds exactly one member more; whether it doubled is decided by the state before the call; without doubling every multiplier is kept; the bound on chains is kept |
| `UtHashTable.Table.AddToTable` | libplctag/src/contrib/cli/uthash.h:324-332 | the same with the Bloom filter, if there is one: no member is ever hidden by it |
| `UtHashTable.Table.RemoveFromTable` | libplctag/src/contrib/cli/uthash.h:452-454 | the table holds exactly one member less and everything stays linked, placed and counted; every multiplier is kept |
| `UtHashTable.Table.FindInBkt` | libplctag/src/contrib/cli/uthash.h:727-744 | walking one chain finds the member with the key exactly when there is one |
| `UtHashTable.Table.FindByHashValue` | libplctag/src/contrib/cli/uthash.h:153-163 | asking the Bloom filter first does not change the answer |
| `UtHash.HashTable.constructor` | libplctag/src/contrib/cli/uthash.h:388-390 | a null head is a valid empty table |
| `UtHash.HashTable.Add` | libplctag/src/contrib/cli/uthash.h:384-404 | the application order gets the item at its end and the whole integrity invariant is kept; the bucket count doubles exactly when the item's chain fills up, and the multipliers are then those of the expansion, otherwise as before |
| `UtHash.HashTable.Find` | libplctag/src/contrib/cli/uthash.h:165-173 | the item with the key, and null exactly when no item has it |
| `UtHash.HashTable.Delete` | libplctag/src/contrib/cli/uthash.h:435-457 | the application order loses exactly that item and the whole integrity invariant is kept; multipliers and bucket count stay; the table goes with its last item |
| `UtHash.HashTable.UnlinkItem` | libplctag/src/contrib/cli/uthash.h:445-451 | the application-order part of a deletion |
| `UtHash.HashTable.Sort` | libplctag/src/contrib/cli/uthash.h:850-921 | for any total preorder the application order becomes its stable sort; table, chains and filter are untouched |
| `StableMerge.MergeSorted` | libplctag/src/contrib/cli/uthash.h:875-908 | merging two sorted runs gives a sorted run |
| `StableMerge.MergePermutes` | libplctag/src/contrib/cli/uthash.h:875-908 | merging keeps all elements |
| `StableMerge.MergeKeepsTies` | libplctag/src/contrib/cli/uthash.h:886-893 | merging keeps the order of elements that compare equal |
| `StableMerge.PassSortsRuns` | libplctag/src/contrib/cli/uthash.h:865-910 | a pass over sorted runs of one width leaves sorted runs of twice that width |
| `StableMerge.PassPermutes` | libplctag/src/contrib/cli/uthash.h:865-910 | a pass keeps all elements |
| `StableMerge.PassKeepsTies` | libplctag/src/contrib/cli/uthash.h:865-910 | a pass keeps the order of elements that compare equal |
| `StableMerge.StableSortIsUnique` | libplctag/src/contrib/cli/uthash.h:847-851 | sorted, a permutation and stable: only one sequence is all three, so the contract of the sort leaves no choice |
| `UtHashSort.CountRun` | libplctag/src/contrib/cli/uthash.h:867-873 | the counting loop finds the length of the first run and the start of the second |
| `UtHashSort.MergeStep` | libplctag/src/contrib/cli/uthash.h:876-907 | one turn of the merging loop moves the element that the merge puts next to the end of the output |
| `UtHashSort.MergeRuns` | libplctag/src/contrib/cli/uthash.h:866-909 | two runs of the list, relinked, follow the output in merged order |
| `UtHashSort.SortPass` | libplctag/src/contrib/cli/uthash.h:861-911 | one pass relinks the list to the merge of its runs two by two, with correct prev links, and counts its merges |
| `UtHashSort.SortList` | libplctag/src/contrib/cli/uthash.h:857-918 | the passes end, for any list, with the stable sort of the list |
| `UtHashSort.PassFromIsPass` | libplctag/src/contrib/cli/uthash.h:865-910 | a pass described by positions in the list is the pass on sequences |
| `UtHashSort.SortedByPass` | libplctag/src/contrib/cli/uthash.h:912-917 | what a pass keeps; when it made a single merge the list is sorted |
| `UtHashFsck.CheckChain` | libplctag/src/contrib/cli/uthash.h:502-517 | the walk along any chain counts it, and is content exactly when all hh_prev and the bucket count are right |
| `UtHashFsck.CheckBuckets` | libplctag/src/contrib/cli/uthash.h:497-521 | content exactly when every bucket is, and the item count is the sum of the chains |
| `UtHashFsck.CheckList` | libplctag/src/contrib/cli/uthash.h:522-534 | content exactly when all prev are right and the item count is the length of the list |
| `UtHashFsck.Fsck` | libplctag/src/contrib/cli/uthash.h:494-537 | on any table whose lists can be walked, the check is content exactly when the links back and the three counts fit |
| `UtHashFsck.FsckOfValid` | libplctag/src/contrib/cli/uthash.h:494-537 | so it finds nothing wrong with any valid table |
| `UtHashRun.Step` | libplctag/src/contrib/cli/uthash.h:384-457 | any operation its callers are allowed keeps the table valid and changes the set of items as intended |
| `UtHashRun.Run` | libplctag/src/contrib/cli/uthash.h:384-921 | after any run of adds with fresh keys, deletes and sorts, with the expansions they cause, the table is valid, holds exactly what the run left in it, and its chains are bounded |
| `UtHashRun.FindAfterRun` | libplctag/src/contrib/cli/uthash.h:153-173 | after any such run, finding a key gives its item exactly when it is in the table, with or without the Bloom filter |
| `ProbeSlots.SoundAfterInsert` | libplctag/src/utils/hashtable.c:150-158 | storing an absent key in a dead slot of its window holds the map with the pair added |
| `ProbeSlots.SoundAfterErase` | libplctag/src/utils/hashtable.c:229-236 | clearing a slot holds the map without its key: the hole hides no other key |
| `ProbeSlots.ProbeFacts` | libplctag/src/utils/hashtable.c:268-325 | what the two probe loops compute: the first of ten probes with the key, the first that is dead |
| `ProbeSlots.FirstProbe` | libplctag/src/utils/hashtable.c:265-275 | the first probe is the slot of the hash value modulo the size |
| `ProbeSlots.ProbesAreConsecutive` | libplctag/src/utils/hashtable.c:280-281 | each further probe is the next slot, and the first after the last |
| `ProbeSlots.WindowSize` | libplctag/src/utils/hashtable.c:280-284 | the window is all of a table of at most ten slots, and ten different slots of a larger one |
| `ProbeSlots.RoomBelowTen` | libplctag/src/utils/hashtable.c:303-325 | with fewer than ten entries, and a slot to spare, find_empty succeeds for every key |
| `ProbeSlots.KeyLoopDecidesMembership` | libplctag/src/utils/hashtable.c:268-299 | in a sound table the key loop finds a nonzero key exactly when the map has it, and then at its value |
| `ProbeSlots.LiveItemsAreTheMap` | libplctag/src/utils/hashtable.c:205-207 | the live slots are exactly the pairs of the map, each once |
| `ProbeSlots.PutOfPresentKey` | libplctag/src/utils/hashtable.c:129-161 | putting a key that is present: a later get sees the new data exactly when a hole came before the old entry in the table as it was, with or without growth |
| `ProbeSlots.LookupIsTheMap` | libplctag/src/utils/hashtable.c:104-126 | in a sound table a lookup gives what the map says, for every key |
| `ProbeSlots.LookupOfStored` | libplctag/src/utils/hashtable.c:152-158 | after storing into the first hole, a lookup of the key gives the new data unless the key was there before the hole |
| `ProbeSlots.LookupOfOthers` | libplctag/src/utils/hashtable.c:152-158 | storing into the first hole affects no lookup of another nonzero key |
| `ProbeSlots.SoundAfterStoreIff` | libplctag/src/utils/hashtable.c:152-158 | the table stays sound exactly for a nonzero key that was absent |
| `ProbeSlots.TightAfterStore` | libplctag/src/utils/hashtable.c:353-367 | in a grown table every key comes before the first hole of its window |
| `ProbeSlots.PutIsSeen` | libplctag/src/utils/hashtable.c:129-161 | a table of two slots in which the new data of a present key is seen |
| `ProbeSlots.PutIsHidden` | libplctag/src/utils/hashtable.c:129-161 | a table of two slots in which it is stored and never seen |
| `ProbeTable.FindKey` | libplctag/src/utils/hashtable.c:268-299 | the slot of the first matching probe, or not found |
| `ProbeTable.FindEmpty` | libplctag/src/utils/hashtable.c:302-325 | the slot of the first dead probe, or not found |
| `ProbeTable.GrowthStep` | libplctag/src/utils/hashtable.c:337-338 | one growth step doubles the table, from 10000 slots on it adds 10000 |
| `ProbeTable.GrownDoubles` | libplctag/src/utils/hashtable.c:337-338 | n steps multiply the size by 2^n as long as the step before the last starts below 10000 |
| `ProbeTable.CopyEntry` | libplctag/src/utils/hashtable.c:354-367 | an entry goes to the first dead slot of its window in the new table, if there is one |
| `ProbeTable.Rehash` | libplctag/src/utils/hashtable.c:353-370 | the copying loop succeeds exactly when every entry finds a slot and there is one; the new slots then hold the same map |
| `ProbeTable.NotStuck` | libplctag/src/utils/hashtable.c:336-371 | growing reaches a size that fits before an allocation fails, or not: never both |
| `ProbeTable.FitsHasEntries` | libplctag/src/utils/hashtable.c:330-371 | the loop of expand_table ends well only for a table with entries |
| `ProbeTable.FullWindowHasEntries` | libplctag/src/utils/hashtable.c:140-150 | a failed find_empty proves that there are entries |
| `ProbeTable.Create` | libplctag/src/utils/hashtable.c:71-101 | a fresh table holds the empty map; null exactly for a size that is not positive, or without memory |
| `ProbeTable.HashTable.Get` | libplctag/src/utils/hashtable.c:104-126 | the data of the first matching probe, in any table; in a valid one, what the map says |
| `ProbeTable.HashTable.Put` | libplctag/src/utils/hashtable.c:129-161 | for any key: an absent nonzero key is added to the map; a present key or 0 leaves an unsound table, in which a get of that key is decided exactly and other keys are found as before; on failure nothing changes but growth, and no growth step that memory allows would fit |
| `ProbeTable.HashTable.MakeRoom` | libplctag/src/utils/hashtable.c:140-150 | the probe-and-expand loop ends, with a dead slot in the key's window or with memory exhausted |
| `ProbeTable.HashTable.ExpandTable` | libplctag/src/utils/hashtable.c:328-380 | on success a strictly larger table of the first size that fits, with the same salt and the same map; on failure, which is exactly when memory runs out first, nothing changes |
| `ProbeTable.HashTable.Remove` | libplctag/src/utils/hashtable.c:213-238 | the map loses the key and its data is returned; the table stays valid exactly unless the key is 0 and a dead slot is among its probes |
| `ProbeTable.RemoveZeroFromFresh` | libplctag/src/utils/hashtable.c:213-238 | removing key 0 from a fresh table makes the count -1 |
| `ProbeTable.HashTable.OnEach` | libplctag/src/utils/hashtable.c:199-210 | the callback gets the live entries in slot order, each once, up to its first error |
| `JenkinsHash.MixIsBijective` | libplctag/src/utils/hash.c:93-122 | mix has an inverse on both sides: it is a bijection on triples of 32-bit words |
| `JenkinsHash.MixIsInjective` | libplctag/src/utils/hash.c:93-122 | different triples are mixed to different triples |
| `JenkinsHash.MixWords` | libplctag/src/utils/hash.c:93-122 | the lines of the macro compute the function mix |
| `JenkinsHash.AbsorbIsInjective` | libplctag/src/utils/hash.c:198-205 | one block: different blocks, or different states, lead to different states |
| `JenkinsHash.FinishIsInjective` | libplctag/src/utils/hash.c:208-246 | the tail: different tails, or different states, lead to different states |
| `JenkinsHash.RunKeepsDifference` | libplctag/src/utils/hash.c:198-246 | whatever common bytes follow, different states stay different to the end |
| `JenkinsHash.OnePartDifference` | libplctag/src/utils/hash.c:189-249 | two keys of equal length that differ only in one block or only in the tail reach different final triples |
| `JenkinsHash.TableKeysNeverCollide` | libplctag/src/utils/hash.c:189-249 | distinct 8-byte keys, those of the hash tables, never share a final triple |
| `JenkinsHash.SeedsNeverCollide` | libplctag/src/utils/hash.c:189-249 | distinct seeds never lead a key to the same final triple |
| `JenkinsHash.LengthIsAdded` | libplctag/src/utils/hash.c:208-246 | what goes into the last mix is, for every key, the words so far, the tail bytes, and in c the length of the whole key |
| `JenkinsHash.PaddingIsSeen` | libplctag/src/utils/hash.c:207-246 | a zero byte more adds one to c before the last mix and nothing else: the final triples differ |
| `JenkinsHash.ShortLengthInLowByte` | libplctag/src/utils/hash.c:208-212 | for a key under twelve bytes and seed 0 the lowest byte of c before the last mix is the length |
| `JenkinsHash.OnlyHashedPartCounts` | libplctag/src/utils/hash.c:189-198 | of a key of 2^32 bytes or more only as many bytes count as its 32-bit length says |
| `JenkinsHash.KnownHashes` | libplctag/src/utils/hash.c:189-249 | two values of the hash: of no bytes, and of one block with a full tail |
| `JenkinsHash.AddTail` | libplctag/src/utils/hash.c:209-245 | the switch with its fall-through cases adds the tail bytes to the three words |
| `JenkinsHash.AbsorbBlock` | libplctag/src/utils/hash.c:199-202 | the body of the block loop adds twelve bytes to the three words |
| `JenkinsHash.RunLoop` | libplctag/src/utils/hash.c:198-246 | loop, length and tail compute the function on whole keys |
| `JenkinsHash.HashBytes` | libplctag/src/utils/hash.c:189-249 | the code computes the hash function of which the above is proved |
| `RefCount.InitEstablishesInv` | libplctag/src/utils/rc.c:102-134 | an allocation starts with one reference and the invariant |
| `RefCount.StepKeepsInv` | libplctag/src/utils/rc.c:147-254 | every step of every thread keeps the invariant: one lock holder, an exact count, one last dropper at most |
| `RefCount.CountIsOutstanding` | libplctag/src/utils/rc.c:147-237 | at every moment of every interleaving the count is the number of outstanding references |
| `RefCount.CleanupOnlyAtTheEnd` | libplctag/src/utils/rc.c:223-254 | cleanup runs at most once, and only when no reference is left |
| `RefCount.NoTouchAfterFree` | libplctag/src/utils/rc.c:216-254 | no thread is about to touch lock, count or cleanup pointer once the block is freed |
| `RefCount.ZeroIsForever` | libplctag/src/utils/rc.c:163-172 | once the count is 0 it stays 0, so no inc succeeds any more |
| `RefCount.IncNeverFails` | libplctag/src/utils/rc.c:163-172 | an inc on a reference that its caller holds succeeds |
| `RefCount.QuietMeansFreed` | libplctag/src/utils/rc.c:216-254 | when all threads are done and no reference is left, the block was cleaned up once and freed |
| `RefCount.StepDoesWork` | libplctag/src/utils/rc.c:147-254 | every step but a new inc, or a reference changing hands, leaves less work |
| `RefCount.SomeStepIsEnabled` | libplctag/src/utils/rc.c:147-254 | as long as a thread is inside or has a reference, such a step is possible: no run gets stuck |
| `RefCount.EveryRunCanEnd` | libplctag/src/utils/rc.c:202-254 | any run can be continued until all threads have dropped their references and left; then the block has been cleaned up once and freed |
| `RefCount.ScheduleIsBounded` | libplctag/src/utils/rc.c:147-254 | however the threads are scheduled, the steps without a new inc or a passed reference are bounded by the work left |
| `LibInit.StepKeepsInv` | libplctag/src/libplctag/lib/init.c:170-229 | every step of every caller keeps the invariant |
| `LibInit.OneMutex` | libplctag/src/libplctag/lib/init.c:180-186 | at most one library mutex is ever created |
| `LibInit.InitsOnceAndInOrder` | libplctag/src/libplctag/lib/init.c:200-215 | over the whole run each module is initialized at most once, in order, and only after the earlier ones succeeded |
| `LibInit.LogGrows` | libplctag/src/libplctag/lib/init.c:200-215 | no init call is ever undone: the calls made at one moment are a prefix of those made later |
| `LibInit.MutualExclusion` | libplctag/src/libplctag/lib/init.c:180-224 | no two callers are inside the spin lock, or inside the mutex, at once |
| `LibInit.ReturnsInitialized` | libplctag/src/libplctag/lib/init.c:189-229 | a call that got past mutex creation returns only after library_initialized is set; a failure it returns is that of the last init call |
| `LibInit.OkMeansAllSucceededIff` | libplctag/src/libplctag/lib/init.c:198-229 | for a caller told OK, all modules were initialized exactly when no call that got past mutex creation has returned a failure before |
| `LibInit.GuardedAlongRun` | libplctag/src/libplctag/lib/init.c:198-229 | until a failed initialization has been told, the caller that met it carries the failure and no other call has got through the mutex |
| `LibInit.ToldMeansFailed` | libplctag/src/libplctag/lib/init.c:198-229 | once a failure has been told, the initialization stays incomplete for good |
| `LibInit.OkDespiteFailedInit` | libplctag/src/libplctag/lib/init.c:198-229 | a run in which lib_init fails and a later caller is told OK |
| `LibInit.StepDoesWork` | libplctag/src/libplctag/lib/init.c:170-229 | every step but a new call leaves less work, whatever the called functions return |
| `LibInit.SomeStepIsEnabled` | libplctag/src/libplctag/lib/init.c:180-224 | as long as a caller is inside, the holder of one of the locks or another caller can go on |
| `LibInit.EveryRunCanEnd` | libplctag/src/libplctag/lib/init.c:170-229 | any run can be continued, without a failure from there on, until every caller has returned |
| `LibInit.InitializationCompletes` | libplctag/src/libplctag/lib/init.c:170-229 | a caller on its way then returns with the library initialized, all four modules and the code OK if nothing failed before |
| `PlcBytes.ByteOrder` | libplctag/src/libplctag/lib/lib.c:2708-2735 | the lowest byte comes first |
| `UdtWorklist.UdtId` | list_tags.cpp:239-240 | the id taken from a type fits the table of definitions |
| `UdtWorklist.WantsUdtIff` | list_tags.cpp:239-240 | a type calls for a UDT exactly when bit 15 is set and bit 12 is not, and the id is its lowest twelve bits |
| `UdtWorklist.ChildIff` | list_tags.cpp:868-870 | the ids that a definition needs, in terms of the types of its fields alone |
| `UdtWorklist.DefinitionRoundTrip` | list_tags.cpp:766-1021 | a definition sent in the wire format of the comment is kept just as it was, exactly when no field name has 256 bytes or more |
| `UdtWorklist.QueuedIffMissing` | list_tags.cpp:868-876 | a definition queues an id exactly when it is not defined yet and some field has bit 15 set, bit 12 clear and this id in its lowest twelve bits |
| `UdtWorklist.FetchKeepsProgress` | list_tags.cpp:739-877 | fetching one definition keeps the worklist invariant: definitions right and reachable, roots and children defined or pending, each id fetched once |
| `UdtWorklist.SkipKeepsProgress` | list_tags.cpp:258-280 | skipping an id that is defined keeps it too |
| `UdtWorklist.RootKeepsProgress` | list_tags.cpp:239-243 | queueing the UDT of a tag keeps it, with one root more |
| `UdtWorklist.Drained` | list_tags.cpp:254-281 | once nothing is pending, the ids defined are exactly those reachable from the roots, around any cycles |
| `UdtWorklist.Cache.ReadField` | list_tags.cpp:851-876 | one field descriptor is kept, and its UDT queued unless it is defined |
| `UdtWorklist.Cache.ReadFields` | list_tags.cpp:849-877 | the field loop decodes all descriptors of the payload |
| `UdtWorklist.Cache.GetUdtDefinition` | list_tags.cpp:739-1021 | an id is fetched only if it is not defined; the call succeeds exactly when the answer of the PLC is a definition of that id whose names can be read |
| `UdtWorklist.Cache.ProcessNext` | list_tags.cpp:255-281 | one turn of the loop keeps the invariant, and either defines one id more or shortens the queue; where the PLC cannot describe an id, it stops before that id and keeps everything |
| `UdtWorklist.Cache.Drain` | list_tags.cpp:254-281 | the loop ends; it succeeds exactly when every reachable id has a good answer, and then defines exactly the reachable ids; no id is fetched twice; the queue grows by exactly what the definitions add; what is left when the PLC cannot describe an id |
| `UdtWorklist.KeptAndPending` | list_tags.cpp:254-281 | at any time what is defined is right, and what is defined or queued is reachable |
| `UdtWorklist.GrowthStep` | list_tags.cpp:868-876 | a fetch adds to the queue the UDTs of its fields that are not defined yet, and nothing without a good answer |
| `UdtWorklist.ReadNames` | list_tags.cpp:891-1021 | the names are read exactly when the fields end within the data and no field name has 256 bytes or more |
| `UdtWorklist.Cache.Clear` | list_tags.cpp:148-149 | all definitions are forgotten; the queue and its indices are not reset |
| `UdtWorklist.Cache.QueueTagType` | list_tags.cpp:236-251 | the id in the lowest twelve bits of a type is queued exactly when bit 15 is set and bit 12 is not; up to the limit of the array |
| `TagListing.RecordRoundTrip` | list_tags.cpp:559-605 | decoding an encoded record gives back the record and its end |
| `TagListing.RecordsRoundTrip` | list_tags.cpp:539-541 | decoding a concatenation of encoded records gives back all of them, in order |
| `TagListing.EncodedListing` | list_tags.cpp:528-541 | a listing of well-formed records is accepted and decodes to just these records |
| `TagListing.NegativeLengths` | list_tags.cpp:585-608 | of the lengths that C reads as negative only -1 passes; the next record then begins one byte early |
| `TagListing.ElementCounts` | list_tags.cpp:642-646 | the counts of a scalar and of arrays of one to three dimensions |
| `TagListing.RequestIsNameAndSuffix` | list_tags.cpp:203 | a program is asked for by its name and ".@tags", whole exactly for at most 249 bytes of name |
| `TagListing.RequestEndsAtZero` | list_tags.cpp:203 | of a name with a zero byte only the part before it counts |
| `TagListing.DimensionsAreTwoBits` | list_tags.cpp:637 | bits 13 and 14 of a type hold the number of dimensions, at most three |
| `TagListing.ProductModulo` | list_tags.cpp:642-646 | multiplying truncated values and truncating again gives the truncated product |
| `TagListing.CountElements` | list_tags.cpp:642-646 | elem_count is the product of the first num_dimensions dimensions modulo 2^16 |
| `TagListing.ProcessTagEntry` | list_tags.cpp:547-653 | a complete record is pushed onto the list as an entry with its 16-bit values, also one whose name length reads as -1; an incomplete one changes nothing |
| `TagListing.GetTagList` | list_tags.cpp:504-544 | the list gets one entry for each record, last record first, in front of what was there |
| `TagListing.LinkedIsDistinct` | list_tags.cpp:186-231 | no entry is on the list twice |
| `TagListing.PushedAreNew` | list_tags.cpp:188-191 | what was pushed onto the list is none of what was there |
| `TagListing.VisitEntry` | list_tags.cpp:192-231 | one turn of the walk: a program's records are added with it as parent, any other entry adds nothing |
| `TagListing.WalkPrograms` | list_tags.cpp:186-231 | the walk visits every entry that was on the list, once and in order, and no entry pushed meanwhile; each program is asked for once |
| `ListTags.QueueTags` | list_tags.cpp:233-252 | the UDTs of all listed tags become roots, one slot for each structure-typed tag; the loop stops early only when the queue is full |
| `ListTags.RootsIff` | list_tags.cpp:236-243 | the ids that the listed tags call for, in terms of the bits of their types |
| `ListTags.RootsOfRecords` | list_tags.cpp:236-243 | of a listing they are the ids in the symbol types of its records |
| `ListTags.CountStructsIsCount` | list_tags.cpp:236-243 | the slots taken by tags: one for each type with bit 15 set and bit 12 clear |
| `ListTags.ListAll` | list_tags.cpp:173-231 | the list is the controller's tags and those of all programs; it succeeds exactly when all of them can be listed |
| `ListTags.ListTags` | list_tags.cpp:123-281 | from end to end: the list, definitions for exactly the UDTs reachable from it and from what a former call left in the queue, the exact length of the queue, what a PLC without introspection leaves behind, and why the process would end |
| `ListTags.ListTwice` | list_tags.cpp:123-281 | a second call starts from nothing after a drained first one; after one that stopped it also defines all that is reachable from what was left, the id that stopped it included |
| `Splitter.GapsAreSplit` | libplctag/src/contrib/cli/cli.c:190-247 | the gaps, joined by the separator, are the string, and no separator starts inside a gap: the string is cut at its leftmost separators |
| `Splitter.SplitIsUnique` | libplctag/src/contrib/cli/cli.c:190-247 | no other sequence of gaps is such a split |
| `Splitter.CountParts` | libplctag/src/contrib/cli/cli.c:198-212 | the first pass counts the non-empty gaps |
| `Splitter.SameStrStr` | libplctag/src/contrib/cli/cli.c:224-250 | searching the partly zeroed copy finds the same separators as searching the original |
| `Splitter.CutAt` | libplctag/src/contrib/cli/cli.c:241-246 | zeroing a separator terminates the part before it and leaves the rest of the text alone |
| `Splitter.KeptFits` | libplctag/src/contrib/cli/cli.c:228-253 | the second pass never stores more pointers than the first pass counted |
| `Splitter.CutPart` | libplctag/src/contrib/cli/cli.c:232-246 | one turn of the second pass stores one more part, if it is not empty, and cuts the text |
| `Splitter.FillParts` | libplctag/src/contrib/cli/cli.c:228-253 | the second pass stores a pointer to every non-empty gap, in order, each terminated inside the copy |
| `Splitter.SplitString` | libplctag/src/contrib/cli/cli.c:190-258 | exactly num_parts pointers, to the non-empty gaps in order; without memory the count alone |
| `Splitter.PartsAreClean` | libplctag/src/contrib/cli/cli.c:190-258 | every part is non-empty and free of the separator |
| `Splitter.KeptOfConcat` | libplctag/src/contrib/cli/cli.c:228-253 | leaving out empty gaps keeps the order of the others |
| `TagEvents.Tag.RaiseEvent` | libplctag/src/libplctag/lib/tag.h:186-272 | the case analysis of the code latches exactly what the latch-by-latch specification says; without a callback nothing |
| `TagEvents.Tag.HandleStartsAndAbort` | libplctag/src/libplctag/lib/lib.c:404-436 | the first four flags: delivered in order if raised, and cleared |
| `TagEvents.Tag.HandleEventCallbacks` | libplctag/src/libplctag/lib/lib.c:398-466 | the callback gets the pending events in a fixed order, creation first, and their flags are cleared |
| `TagEvents.CallbackIff` | libplctag/src/libplctag/lib/tag.h:186-192 | a callback is registered exactly when the latest registration set one |
| `TagEvents.LatchedIff` | libplctag/src/libplctag/lib/tag.h:186-272 | which move latches which event, for every kind, in terms of the moves before it |
| `TagEvents.RoundIsInOrder` | libplctag/src/libplctag/lib/lib.c:404-456 | the calls of a round come in the order of the code, each kind at most once |
| `TagEvents.DeliveredIff` | libplctag/src/libplctag/lib/lib.c:404-456 | a round makes just the calls of the raised flags, each with the status of its flag |
| `TagEvents.WaitingStatus` | libplctag/src/libplctag/lib/tag.h:186-272 | what waits carries the status of the raise that latched it last, since when it was neither latched nor delivered |
| `TagEvents.RoundTellsStatus` | libplctag/src/libplctag/lib/lib.c:404-456 | the callback hears of each event with the status of the raise that latched it last, a synthesized creation with that of the completion or abort |
| `TagEvents.EveryCallTellsStatus` | libplctag/src/libplctag/lib/lib.c:398-466 | the same for every call of a whole run: there is a round that made it and a raise before that round |
| `TagEvents.HadCreatedIff` | libplctag/src/libplctag/lib/tag.h:193-212 | over any run, had_created_event is set exactly when creation has been latched |
| `TagEvents.CreationLatchedOnce` | libplctag/src/libplctag/lib/tag.h:203-212 | over any run creation is latched at most once |
| `TagEvents.CreationNotLate` | libplctag/src/libplctag/lib/tag.h:193-236 | creation is latched no later than the first completion or abort |
| `TagEvents.EnabledIff` | libplctag/src/libplctag/lib/tag.h:220-269 | a completion can be latched exactly when a start has been latched since the last one |
| `TagEvents.StartBetween` | libplctag/src/libplctag/lib/tag.h:220-269 | before the first latched completion, and between any two, a start was latched; for reads and for writes |
| `TagEvents.CompletionsNeverExceedStarts` | libplctag/src/libplctag/lib/tag.h:220-269 | latched completions never exceed latched starts |
| `TagEvents.HalvesAreIndependent` | libplctag/src/libplctag/lib/tag.h:220-269 | leaving all writes out of a run changes nothing about its reads, and the other way round |
| `TagEvents.LatchedAreAccountedFor` | libplctag/src/libplctag/lib/lib.c:398-466 | of each kind, the events delivered, waiting and latched over add up exactly to those latched |
| `TagEvents.CreatedIsKept` | libplctag/src/libplctag/lib/lib.c:405-411 | a latched creation is waiting or has been delivered, never lost |
| `TagEvents.CreatedIsDeliveredFirst` | libplctag/src/libplctag/lib/lib.c:398-456 | the callback hears of the creation at most once, and before any completion or abort |
| `TagEvents.DeliveredCompletionsAreBounded` | libplctag/src/libplctag/lib/lib.c:398-456 | delivered completions never exceed latched starts |
| `TagEvents.DeliveredCompletionsIff` | libplctag/src/libplctag/lib/lib.c:413-456 | delivered completions do not exceed delivered starts exactly when what was latched over or still waits makes up for it |
| `TagEvents.StartsAndCompletionsBalance` | libplctag/src/libplctag/lib/lib.c:413-456 | the exact balance of starts and completions that the callback has heard of: lost starts on one side, spare starts and completions latched over on the other |
| `TagEvents.WaitingStartIsOpen` | libplctag/src/libplctag/lib/tag.h:220-269 | while a start waits to be delivered, its completion can still be latched or waits as well |
| `TagEvents.NoStartLost` | libplctag/src/libplctag/lib/lib.c:413-456 | as long as no start is latched over a waiting one whose operation has completed, delivered completions never exceed delivered starts |
| `TagEvents.NoStartOverwritten` | libplctag/src/libplctag/lib/lib.c:413-456 | in particular without a start latched over a waiting one |
| `TagEvents.DispatchingStartsIsEnough` | libplctag/src/libplctag/lib/lib.c:1576-1579 | and so for a caller who dispatches right after each start, as a read does |
| `TagEvents.SettledIff` | libplctag/src/libplctag/lib/lib.c:413-456 | a run that is brought to rest has delivered more completions than starts exactly when lost starts outnumber spare starts and completions latched over |
| `TagEvents.LostStartShows` | libplctag/src/libplctag/lib/lib.c:413-456 | after a start is lost, bringing the run to rest shows too many completions exactly when the delivered starts were not ahead |
| `TagEvents.MoreCompletionsThanStartsDelivered` | libplctag/src/libplctag/lib/lib.c:413-445 | a named run that delivers one start and two completions |
| `Attr.Attrs.FindEntry` | libplctag/src/utils/attr.c:66-82 | the entry of the name, exactly when there is one |
| `Attr.Attrs.GetStr` | libplctag/src/utils/attr.c:282-295 | the value of the name, NULL if that was lost, or the default |
| `Attr.Attrs.SetStr` | libplctag/src/utils/attr.c:204-255 | the map with the name set; names stay unique; without memory 1, and the value of a name that was there is lost |
| `Attr.Attrs.Remove` | libplctag/src/utils/attr.c:336-372 | the map without the name; names stay unique |
| `Attr.TrimIsTrimmed` | libplctag/src/utils/attr.c:154-158 | trimming takes off exactly the spaces at both ends |
| `Attr.TrimmedIsUnique` | libplctag/src/utils/attr.c:154-158 | nothing else is the string without the spaces at both ends |
| `Attr.ParsePairIff` | libplctag/src/utils/attr.c:131-178 | what a pair means, without the functions of the model: cut at the first =, the key trimmed and not empty, the value as it is and not empty |
| `Attr.CutPair` | libplctag/src/utils/attr.c:131-178 | a pair is cut at its first = and its key trimmed; refused without =, key or value |
| `Attr.AcceptedIff` | libplctag/src/utils/attr.c:130-187 | a string is accepted exactly when each of its pieces is a pair |
| `Attr.WellFormedIff` | libplctag/src/utils/attr.c:104-187 | a string has a meaning exactly when it is not empty and each of its non-empty pieces is a pair |
| `Attr.KeysIff` | libplctag/src/utils/attr.c:130-187 | the keys of the result are those of the pairs |
| `Attr.LastPairCounts` | libplctag/src/utils/attr.c:130-187 | of several pairs with one key the last gives the value |
| `Attr.AttrCreateFromStr` | libplctag/src/utils/attr.c:104-195 | the parser returns the attributes that the string means, or null exactly when it is not well-formed or an allocation fails |
| `TagString.DecimalRoundTrip` | plctags.cpp:13-31 | the printed count can be read back |
| `TagString.BuildIsJoin` | plctags.cpp:13-31 | the printed string is its key=value pieces joined by & |
| `TagString.PlcExample` | plctags.cpp:13-31 | one printed string with cpu and path |
| `TagString.ModbusExample` | plctags.cpp:13-31 | one printed string for Modbus |
| `TagString.SplitOfJoin` | plctags.cpp:13-31 | clean pieces come apart again as they were |
| `TagString.ParsedIsClean` | libplctag/src/utils/attr.c:130-187 | no value that the parser accepts is empty or contains & |
| `TagString.RoundTripIff` | plctags.cpp:13-31 | the parser gives back the printed fields exactly when no printed field is empty or contains &, for both protocol shapes |
| `ExpandTags.TagTable.Classify` | gui.cpp:800-1030 | the first loop records the index of each entry to be removed, once, and all expansions in order |
| `ExpandTags.OfConcat` | gui.cpp:800-1030 | what two lists expand to, and what survives of them, one after the other, is that of the first followed by that of the second |
| `ExpandTags.ExpansionsInOrder` | gui.cpp:800-1030 | each expansion is there, whole, between those of the entries before and those of the entries after |
| `ExpandTags.RemovalsIff` | gui.cpp:800-1030 | the indices recorded are just those of the entries that do not stay |
| `ExpandTags.SwapRemovedMultiset` | gui.cpp:1033-1036 | one swap-removal takes out just that element and leaves everything before it in place |
| `ExpandTags.SweepStep` | gui.cpp:1033-1036 | in descending order each recorded index still denotes the entry it was recorded for |
| `ExpandTags.NothingElse` | gui.cpp:800-1030 | survivors and removed entries are all that there was |
| `ExpandTags.TagTable.RemoveAll` | gui.cpp:1032-1036 | the second loop takes out exactly the recorded entries |
| `ExpandTags.TagTable.Expand` | gui.cpp:795-1041 | the result is a permutation of the survivors, followed by all expansions in order |
| `Vector.Growth` | libplctag/src/utils/vector.c:280-284 | a growth step adds half the capacity, but at least 1 and at most max_inc slots |
| `Vector.UpdatedAt` | libplctag/src/utils/vector.c:150-181 | where each element is after an update |
| `Vector.InsertedAt` | libplctag/src/utils/vector.c:103-147 | where each element is after an insertion |
| `Vector.DeletedAt` | libplctag/src/utils/vector.c:204-235 | where each element is after a deletion |
| `Vector.Create` | libplctag/src/utils/vector.c:51-86 | an empty vector of the given capacity; null exactly for a size that is not positive, or without memory |
| `Vector.Vector.EnsureCapacity` | libplctag/src/utils/vector.c:260-302 | contents are kept; one step at most, which is enough exactly when the capacity asked for lies within it |
| `Vector.Vector.Set` | libplctag/src/utils/vector.c:150-181 | the sequence updated at the index, padded with NULL before it; error codes for a negative index and for missing memory |
| `Vector.Vector.Insert` | libplctag/src/utils/vector.c:103-147 | the sequence with the element inserted, padded with NULL before it |
| `Vector.Vector.Get` | libplctag/src/utils/vector.c:184-201 | the element, or NULL out of bounds |
| `Vector.Vector.Remove` | libplctag/src/utils/vector.c:204-235 | the sequence without the element, which is returned; slots past the end are NULL again |
| `Vector.InsertOutsideIsUpdate` | libplctag/src/utils/vector.c:122-126 | inserting outside the vector is setting there |
| `Vector.DeleteUndoesInsertIff` | libplctag/src/utils/vector.c:103-235 | a removal takes back an insertion exactly when that was not beyond the end |

## Left out

- ExpandTags.TagTable.Classify: the table of type names is a parameter, here and in `Expand`; the counter `tobefleshed`, the list `to_flesh` and the debugging signal are not part of this model.
- ProbeTable.HashTable.Remove: the table is valid before the call; removing from a table that a put of a present key has left is not modelled.
- ProbeTable.HashTable.OnEach: a callback that changes the table it is given is not modelled.
- ProbeTable.HashTable.MakeRoom: C's signed index arithmetic near 2^31 is not modelled; allocations are bounded by a C int byte count, which keeps tables far smaller.
- UtHashSort.SortList: the list is shorter than 2^32, as the 32-bit item count of a table demands; the run length wraps at 2^32 as in the source.
- UtHashTable.Table.ExpandBuckets: the bucket count is unbounded, so doubling 2^31 buckets, where the 32-bit count would wrap to 0, is not modelled.
- UtHash.HashTable.Delete: freeing is forgetting the table; use of freed memory by a caller is not modelled.
- uthash handles keep no pointer to their table and no offset of the handle in its item: a handle stands for its item. HASH_SELECT, HASH_ADD_INORDER, HASH_REPLACE and HASH_CLEAR are not modelled, since the programs here do not use them; any hash function may stand in for the one that HASH_FUNCTION names; running out of memory ends the process, as it does unless HASH_NONFATAL_OOM is defined.
- RefCount.StepKeepsInv: cleanup functions are a single step; one that releases references to other blocks is not modelled, nor is overflow of the count.
- LibInit.StepKeepsInv: no teardown runs concurrently (destroy_modules), and locks are ordinary mutual exclusion; memory ordering is not modelled.
- UdtWorklist.Cache.ReadField: the queue is a sequence without bound, in `ReadFields` and `Drain` as well. The source's array has 4096 slots and checks the bound only for tags, not for fields: the array is exceeded exactly when the queue length that `ListTags.ListTags` states (what was queued before, the structure-typed tags, and what the definitions add) is more than 4096.
- UdtWorklist.Cache.GetUdtDefinition: the names that follow the field descriptors are checked but not kept; allocation failures, which end the process, are not modelled.
- TagListing.ProcessTagEntry: a name length from -32768 to -2 makes the source ask for a buffer of more than four billion bytes; this, and no other, allocation is taken to fail. A length field that lies beyond the data counts as incomplete, where the source reads past its buffer.
- TagListing.CountElements: the product of two 16-bit numbers is computed in C's int, where it can exceed the range of a signed 32-bit number (list_tags.cpp:645); the model takes the usual wrapped result.
- ListTags.ListTags: connecting, opening tags and printing are parameters or left out, and so is the final copy into tagentries, which reads one element past the dimensions (list_tags.cpp:294).
- Splitter.SplitString: the separator is not empty, since the source would not end otherwise; strings have no zero byte inside.
- TagEvents.Tag.HandleEventCallbacks: a callback that raises events or changes the callback while it runs is not modelled; nor is that a status passes through an 8-bit number, which holds every status code.
- Attr.CutPair: the key is cut by moving its end, not by writing terminators into the copy; the copy itself is cut in place by the splitter.
- Attr.Attrs.SetStr: attr_set_int, attr_get_int and their float variants, which print and scan numbers around it, are not part of this model.
- TagString.RoundTripIff: fields without a zero byte, as in C strings.
- Vector.Vector.Set: the index lies within one growth step of the capacity, as `ensure_capacity` grows once; beyond that the source writes outside its array, by `Insert` as well; a null vector is not modelled.
- Sockets, the EIP, Modbus and Omron engines and the plc_tag_* operations, except the accessors that the decoder uses, are not part of this model; neither are the screens, key handling and files of gui.cpp, nor the example programs.
