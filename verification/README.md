# Smash: verified models

Dafny models of the parts of smash that are hardest to get right, with proofs for all inputs
and all interleavings.  `dafny verify dfyconfig.toml` checks everything.

| file | what it models |
|---|---|
| `PageMap.dfy` | the page map: radix tree, batched ranges and the flat mirror table, as classes over arrays |
| `PageMapPublish.dfy`, `TagOrder.dfy` | concurrent publication of second-level tables; concurrent `set` on tree, flat entry and tag |
| `Wkdm.dfy`, `Bits.dfy` | the WKdm page codec down to the packed words, and its round trip |
| `CompressStore.dfy`, `StoreSpec.dfy` | one shard of the blob store: in-band free lists, splitting, bump allocation, reset; its specification on values |
| `SmashCore.dfy` | the page state machine of allocator, decommit thread and compressor workers |
| `ForkPause.dfy`, `RestoreRace.dfy` | the fork-pause handshake; decompress-on-fault against lock-free readers |
| `PageTracker.dfy`, `PageTrackerRace.dfy` | the lock-free page tracker, sequentially and under concurrency |
| `LarsonRing.dfy` | the single-producer single-consumer ring and its shutdown |
| `AllocSetShim.dfy` | the PostgreSQL AllocSet shim on linked blocks |
| `Basics.dfy` | options, sets and sequences used by several models |
| `AliasTable.dfy` | Walker's alias table over exact reals |
| `Xoshiro.dfy`, `PartialShuffle.dfy`, `SmallVec.dfy`, `HistQuantile.dfy`, `WalkTree.dfy` | generators, the free phase of the benchmarks, the small vector, age quantiles, process trees |

Concurrent protocols are step systems: a total function `Fire` performs one atomic step, `Run` plays a
schedule, and theorems quantify over all schedules, with any number of threads and pages.  An action that
is not enabled leaves the state unchanged.  Atomics are sequentially consistent.  Sequential code that
updates state in place is a class or a method over arrays, proved against a plain map, sequence or set.

Where the code and its comments disagree, the code is modelled:

- The comment at `src/core/page_map.h:115` calls `setRange` identical to looping `set`.  For the tree it is.
  For the flat table it is so exactly for runs that fit (`PageMapSpec.RunIsEachIff`); a run that leaves the arena can
  reach the entries of external pages (`PageMapSpec.StraddlingRunHitsExternal`).
- The comment at `src/core/page_map.h:123` gives 262144 entries for a second-level table;
  `include/smash/config.h:263` gives 65536, which the model uses.
- The comment at `src/compress/wkdm.h:42` asks for page_size bytes of room in dst.  The exact
  need is that of `Wkdm.RoomIsExact`; `Wkdm.PageSizeIsNotEnough` shows a page of every size that exceeds page_size.
- The comment at `src/vm/vm_region.h:871` names the reverse of the store order in the code.
- `scripts/pressure_report.py:30` takes every bucket to be bounded; the last is not
  (`src/util/pressure_stats.h:72`), so the stated precision ends at 8389040 ms.
- The tracker uses a weak compare-exchange, under which some run stores a page twice (`PageTrackerRace.SetIffStrong`);
  runs without a spurious failure do not.
- The comment at `src/vm/vm_region.h:344` keeps the tag in step with the entry.  Between the stores of a set over a
  set it is not; the callers clear before they set (`src/core/slab.h:335-341`, `TagOrder.MatchesIff`).
- The comment at `src/compress/compress_store.h:167` takes every slot to be 16-byte aligned; an empty blob can break
  that for later ones (`StoreSpec.BoundaryIffNeverEmpty`).

## Model

| member | source | states |
|---|---|---|
| `AliasTable.BuildAlias` | bench/bench_zipf_reaccess.cpp:285-320 | for every weight vector with nonzero sum, the finished table is exact: the mass that the columns hand to index i is n*w[i]/sum, for every i; for nonnegative weights every entry of prob is in [0, 1] |
| `AliasTable.ColumnMassMeasuresSample` | bench/bench_zipf_reaccess.cpp:322-325 | the draws u in [0, 1) for which aliasSample returns i in column j are one half-open interval whose length is the mass counted above |
| `AliasTable.Total` | bench/bench_zipf_reaccess.cpp:291-292 | the summing loop returns the sum of the weights |
| `AliasTable.Deal` | bench/bench_zipf_reaccess.cpp:298-303 | scaled weights average one; each index is dealt to exactly one worklist, by its residual against 1 |
| `AliasTable.StartConserved` | bench/bench_zipf_reaccess.cpp:294-303 | after scaling, mass is conserved and the open residuals average one |
| `AliasTable.CloseConserves` | bench/bench_zipf_reaccess.cpp:307-309 | a round conserves mass for every index: what it keeps plus what it was given is what it is owed |
| `AliasTable.ShareRound` | bench/bench_zipf_reaccess.cpp:304-312 | a round finalises one index that was open, keeps the worklists duplicate-free, each on its side of one, and complete |
| `AliasTable.Share` | bench/bench_zipf_reaccess.cpp:304-312 | the rounds terminate with one worklist empty and conserve mass throughout |
| `AliasTable.OnlyLargeLeft` | bench/bench_zipf_reaccess.cpp:313 | when no residual below one is open, every open residual is exactly one |
| `AliasTable.OnlySmallLeft` | bench/bench_zipf_reaccess.cpp:314 | when no residual of at least one is open, nothing is open |
| `AliasTable.LastList` | bench/bench_zipf_reaccess.cpp:313-314 | when a worklist runs dry, everything open is on the large one with residual exactly one, so the small one is empty |
| `AliasTable.Finish` | bench/bench_zipf_reaccess.cpp:313-314 | the closing loops finalise every index left, each once, and conserve mass |
| `AliasTable.FinishedIsExact` | bench/bench_zipf_reaccess.cpp:285-320 | a conserved build with every index finalised is an exact table |
| `Spans.TagDecodes` | src/core/page_map.h:47-56 | given fewer than 64 size classes, a tag is zero exactly for no span or a large span, and otherwise yields arena and size class |
| `PageMap.PageMap.EnsureL2` | src/core/page_map.h:34-45 | returns the table of the slot; published slots never change and the map reads as before |
| `PageMap.PageMap.Set` | src/core/page_map.h:92-99 | the map changes at that page only, and the flat and tag tables get the mirror of one set |
| `PageMap.PageMap.Get` | src/core/page_map.h:101-108 | reads the abstract map at the page of the address, null for a page without span |
| `PageMap.PageMap.FillTable` | src/core/page_map.h:131-136 | the inner loop sets exactly the run of pages inside one second-level table |
| `PageMap.PageMap.WalkTables` | src/core/page_map.h:126-138 | the table-by-table walk terminates and equals setting the pages one by one, across any number of tables |
| `PageMap.PageMap.MirrorRange` | src/vm/vm_region.h:882-904 | the batched mirror writes the whole run or, when it passes the end, nothing |
| `PageMap.PageMap.SetRange` | src/core/page_map.h:116-144 | equals looping over single sets on the tree; on the flat tables it is one batched run decided by its first page |
| `PageMap.PageMap.ClearRange` | src/core/page_map.h:146-149 | a run of nulls |
| `PageMap.PageMap.Replay` | src/core/page_map.h:92-149 | after any sequence of writes every page reads back the span of the last write that covered it, null if none; with runs that fit, flat table and tags agree with the tree on every region page |
| `PageMap.OffsetIgnored` | src/core/page_map.h:101-104 | all addresses of a page have the same page index |
| `PageMapSpec.PutRangeAt` | src/core/page_map.h:110-138 | a run changes exactly its own pages |
| `PageMapSpec.RunIsEachIff` | src/core/page_map.h:115-144 | the batched mirror equals n single mirrors on every table content if and only if the run misses the region or maps into consecutive entries of it |
| `PageMapSpec.StraddlingRun` | src/vm/vm_region.h:888-896 | a run that begins in the arena and ends behind it is dropped as a whole if and only if it would pass the end of the table; otherwise its end is written into the entries of external pages |
| `PageMapSpec.StraddlingRunHitsExternal` | src/vm/vm_region.h:888-896 | an external page outside the run whose entry the run reaches gets the span of the run; single sets leave it alone |
| `PageMapSpec.StraddlingExample` | src/core/page_map.h:140-143 | such a run at an input, on a region with a tail of external entries |
| `PageMapSpec.FitsIffNotStraddling` | src/vm/vm_region.h:818-834 | without external pages, those are exactly the runs wholly inside or wholly outside the contiguous arena |
| `PageMapSpec.OneKeepsMirror` | src/core/page_map.h:58-71 | a single set keeps the flat table and the tags in agreement with the tree |
| `PageMapSpec.RunKeepsMirror` | src/core/page_map.h:140-143 | so does every run that fits |
| `PageMapPublish.SlotsAreWriteOnce` | src/core/page_map.h:34-45 | in every interleaving a first-level slot goes from null to one table and never changes again |
| `PageMapPublish.NoStoreIsLost` | src/core/page_map.h:92-98 | in every interleaving what an entry shows is the abstract map; none of it is lost to a table published later |
| `PageMapPublish.VisibleIsLastStore` | src/core/page_map.h:92-98 | in every interleaving an entry shows the span of the last set of that page that has done its store, as read off the schedule, and null if there is none |
| `PageMapPublish.SetTakesEffect` | src/core/page_map.h:34-98 | after any run with the lock free, a set left alone for seven steps shows its span in its entry and changes no other |
| `PageMapPublish.GetIsAtomic` | src/core/page_map.h:101-108 | a concurrent get returns the value its entry has at its last load |
| `PageMapPublish.RunKeeps` | src/core/page_map.h:34-45 | the lock is held at exactly the locked labels, published tables are never shared, and visible entries are the abstract map, in every run |
| `TagOrder.MatchesIff` | src/vm/vm_region.h:344-349 | in every run a nonzero tag is the tag of the flat entry, if and only if writes to one page do not overlap and a span is set only over a cleared entry (or there is no writer) |
| `TagOrder.NamedIffExclusive` | src/vm/vm_region.h:866-880 | in every run a nonzero tag names an entry already published, if and only if writes to one page do not overlap |
| `TagOrder.AgreesIff` | src/core/page_map.h:86-99 | in every run tree, flat entry and tag agree whenever no set is under way, if and only if writes to one page do not overlap |
| `TagOrder.WriteTakesEffect` | src/vm/vm_region.h:866-880 | a set or clear left alone leaves its span in the tree and the flat table, with the tag of that span |
| `TagOrder.SetOverSetMismatches` | src/vm/vm_region.h:866-876 | a run of one writer that sets a large span over a small one and leaves the old tag beside the new entry between its stores |
| `TagOrder.OverlapLosesEntry` | src/vm/vm_region.h:866-880 | a run in which an overlapping clear leaves a tag without an entry |
| `TagOrder.TreeAndFlatDisagree` | src/core/page_map.h:92-99 | a run in which two overlapping sets finish with one span in the tree and the other in the flat table |
| `TagOrder.RunKeeps` | src/core/page_map.h:58-99 | how far the stores of the one busy writer have come, in every run without overlap |
| `ProbeTable.TakeSlot` | src/smash_compress_only.cpp:68-74 | taking the first empty slot of the probe sequence adds exactly that page and keeps every page where a probe finds it |
| `ProbeTable.PlacedOnce` | src/smash_compress_only.cpp:61-79 | in a well-placed table no page occupies two slots |
| `ProbeTable.TrackedIsNotDropped` | src/smash_compress_only.cpp:61-79 | a tracked page never has its window full of other pages |
| `ProbeTable.WindowSpreads` | src/smash_compress_only.cpp:63-66 | the 128 slots of one window are different ones |
| `ProbeTable.DroppedMeansFull` | src/smash_compress_only.cpp:61-79 | a page is dropped only when at least 128 other pages are tracked |
| `ProbeTable.TrackKeepsHome` | src/smash_compress_only.cpp:61-79 | while all pages are from one run of at most 2^21 consecutive pages, each sits in the first slot of its window, so none is dropped |
| `PageTracker.Tracker.Track` | src/smash_compress_only.cpp:61-79 | the set gains the page unless it is 0 or its 128-slot window is full of others, which takes 128 other pages; slots are write-once; count is the cardinality |
| `PageTracker.Tracker.TrackRange` | src/smash_compress_only.cpp:118-121 | the loop terminates and tracks exactly the pages from start to end |
| `PageTracker.Tracker.TrackPages` | src/smash_compress_only.cpp:116-122 | the pages wanted grow by exactly the pages that meet [ptr, ptr+size) |
| `PageTracker.Tracker.Interpose` | src/smash_compress_only.cpp:126-162 | one malloc, calloc or realloc, with the 64-bit product of calloc |
| `PageTracker.Tracker.Replay` | src/smash_compress_only.cpp:116-162 | after any sequence of calls the tracked set is exactly the pages met by some returned range, except those whose window is full of other pages; with all of them in one run of 2^21 consecutive pages there is no exception |
| `PageTracker.MeetsIsPageRange` | src/smash_compress_only.cpp:118-119 | the masked bounds are the first and last page a range meets |
| `PageTracker.TrackKeepsExact` | src/smash_compress_only.cpp:61-79 | one tracked page keeps the set exact, whether or not it was dropped |
| `PageTrackerRace.RunAccounts` | src/smash_compress_only.cpp:61-79 | in every interleaving, weak or strong compare-exchange, occupied slots are count plus the successes not yet counted |
| `PageTrackerRace.SlotsAreWriteOnce` | src/smash_compress_only.cpp:66-71 | in every interleaving a taken slot keeps its page |
| `PageTrackerRace.StrongIsASet` | src/smash_compress_only.cpp:61-79 | when the compare-exchange fails only on a changed slot, no run puts a page into two slots and every slot probed before a page is taken by another |
| `PageTrackerRace.SetIffStrong` | src/smash_compress_only.cpp:61-79 | no run stores a page twice, if and only if the compare-exchange cannot fail spuriously or there is no thread |
| `PageTrackerRace.SteadyIsASet` | src/smash_compress_only.cpp:69-75 | a run of the weak machine without a spurious failure stores no page twice |
| `PageTrackerRace.WeakCanDuplicate` | src/smash_compress_only.cpp:69-75 | a run with one spurious failure that stores one page twice and counts it twice |
| `PageTrackerRace.AloneTracks` | src/smash_compress_only.cpp:61-79 | a call left alone takes the first empty slot of its window and counts it; it changes nothing when the page comes first or the window is full |
| `LarsonRing.RunIsSafe` | bench/bench_alloc_speed.cpp:85-135 | in every interleaving the slots from tail to head hold exactly the queued blocks, at most 4095; blocks are freed in production order, only while allocated, at most once |
| `LarsonRing.StepRefinesQueue` | bench/bench_alloc_speed.cpp:97-135 | every step is an enqueue, a dequeue of the block just freed, or invisible to the queue |
| `LarsonRing.ShutdownLeavesAtMostOne` | bench/bench_alloc_speed.cpp:128-135 | once both threads have exited after stop, at most one block is left unfreed |
| `LarsonRing.OneBlockCanRemain` | bench/bench_alloc_speed.cpp:103-135 | a run that leaves exactly one |
| `LarsonRing.ProducerRound` | bench/bench_alloc_speed.cpp:103-112 | a round of the producer left alone enqueues the block malloc gave it at head, or changes nothing when 4095 are pending |
| `LarsonRing.ConsumerRound` | bench/bench_alloc_speed.cpp:120-127 | a round of the consumer left alone frees and retires the front of the queue, or changes nothing when it is empty |
| `LarsonRing.DrainFreesAll` | bench/bench_alloc_speed.cpp:128-132 | from any reachable state the drain left alone frees everything published, in order, and exits with head equal to tail |
| `LarsonRing.RunKeeps` | bench/bench_alloc_speed.cpp:97-135 | the invariant over stale local copies of head and tail, in every run |
| `LarsonRing.AllocKeeps` | bench/bench_alloc_speed.cpp:108 | the producer never writes a slot that is not yet retired |
| `AllocSetShim.AllocSet.Alloc` | bench/postgres_shim_build.py:73-102 | links one new block behind the head, or as the head, of a well-formed doubly linked list and adds its size; changes nothing when malloc fails |
| `AllocSetShim.BlockSizeIs` | bench/postgres_shim_build.py:80-81 | a block is the headers and the bytes asked for, rounded up to the next multiple of 8 |
| `AllocSetShim.AllocSet.Free` | bench/postgres_shim_build.py:108-123 | takes exactly that block out and subtracts its size |
| `AllocSetShim.AllocSet.Realloc` | bench/postgres_shim_build.py:129-155 | the block keeps its place in the list, moved or not, and the count follows growth and shrinking; changes nothing when realloc fails |
| `AllocSetShim.AllocSet.LinkBehindHead` | bench/postgres_shim_build.py:91-95 | the four link stores insert the block between the first and second element |
| `AllocSetShim.AllocSet.Unlink` | bench/postgres_shim_build.py:115-120 | the link stores remove exactly the k-th element |
| `AllocSetShim.AllocSet.Relink` | bench/postgres_shim_build.py:143-151 | the link stores replace exactly the k-th element |
| `AllocSetShim.Replay` | bench/postgres_shim_build.py:69-158 | after any sequence of requests the list holds exactly the live blocks and mem_allocated is the sum of their sizes modulo 2^64 |
| `SmashCore.FixedIsSafe` | model/SmashCore.tla:67-97 | every reachable state, for any pages, threads and workers, satisfies BlobIntegrity, ProtectionSafety and ActiveImpliesRW; what the steps achieve is in the rows from FaultRestores on |
| `SmashCore.BuggyReachesUnsafe` | model/README.md:164-170 | without the PROT_RW restore on decommit some run violates safety, for every machine with a page, a thread and a worker |
| `SmashCore.SafeIffRestored` | model/SmashCore.tla:250-256 | the machine is safe in all reachable states if and only if decommit restores the protection |
| `SmashCore.RunKeeps` | model/SmashCore.tla:100-409 | the inductive invariant over page states, locks, program counters and queues holds in every run |
| `SmashCore.FireKeeps` | model/SmashCore.tla:100-409 | every step of every process keeps it |
| `SmashCore.CompOnLocal` | model/SmashCore.tla:275-406 | a worker step, at any label and with any of the three outcomes, leaves a good page and hands the lock over correctly |
| `SmashCore.CompFrame` | model/SmashCore.tla:272-409 | such a step disturbs no other process |
| `SmashCore.AppOnLocal` | model/SmashCore.tla:105-193 | an access, fault or free step leaves a good page, hands its lock over, and frees only unlocked, unqueued pages |
| `SmashCore.AppFrame` | model/SmashCore.tla:102-194 | such a step disturbs no other process |
| `SmashCore.DecommitKeeps` | model/SmashCore.tla:238-268 | the decommit thread with the restore keeps the invariant |
| `SmashCore.FaultRestores` | model/SmashCore.tla:122-157 | after any run, a fault handled on an unlocked page that is compressed, monitored or shadowed leaves it active, readable and writable, with memory and without a blob, accessed and unlocked, and no other page changed |
| `SmashCore.AccessAfterRestore` | model/SmashCore.tla:114-120 | a page in use that is readable and writable is accessed without a fault |
| `SmashCore.AccessFaults` | model/SmashCore.tla:105-120 | an access to one that is not faults and changes no page |
| `SmashCore.WorkerCompresses` | model/SmashCore.tla:295-344 | what phase 2 leaves of a cold page nobody holds, by outcome: compressed with a blob and no memory; a shadow with both; active again, with memory only |
| `SmashCore.WorkerTicks` | model/SmashCore.tla:278-293 | phase 1 resets the count of an accessed page, raises that of any other page in use up to its limit, and leaves empty pages alone |
| `SmashCore.ColdWhenLeftAlone` | model/SmashCore.tla:278-293 | a page left alone is cold after coldThreshold + 1 passes, and not before |
| `SmashCore.WorkerMonitors` | model/SmashCore.tla:346-365 | phase 3 puts an active page under read-only monitoring |
| `SmashCore.WorkerReclaims` | model/SmashCore.tla:367-406 | phase B gives up the memory of a shadow nobody touched, and the blob of one that was |
| `SmashCore.FreeQueues` | model/SmashCore.tla:164-191 | a free empties a page in use that nobody holds and queues it for decommit |
| `SmashCore.DecommitFrees` | model/SmashCore.tla:241-266 | the decommit thread left alone moves a queued page to the free list, readable and writable exactly when it restores |
| `SmashCore.PopActivates` | model/SmashCore.tla:207-223 | an allocation takes a page off the free list and puts it to use with memory |
| `ForkPause.NoForkIffPublishedFirst` | model/SmashForkPause.tla:52-110 | fork never fires inside a tick in any run, if and only if inTick is published before paused is checked |
| `ForkPause.CheckThenSetForks` | model/SmashForkPause.tla:58-67 | the violating run of the check-then-set order |
| `ForkPause.RunKeeps` | model/README.md:40-50 | the handshake invariant in every run of the fixed order |
| `ForkPause.CoordinatorTicks` | model/SmashForkPause.tla:54-93 | left alone and not paused, the coordinator enters its tick with inTick published and clears it behind, in either order; paused, it does not enter and leaves inTick clear |
| `ForkPause.HandlerForks` | model/SmashForkPause.tla:97-111 | left alone, the handler pauses the coordinator, waits exactly while inTick is set, and forks |
| `RestoreRace.NoStaleReadIff` | model/SmashRestoreRace.tla:98-250 | for any pages, contents, workers and handlers, no run reads stale backing if and only if the restore is not split or every page holds zeros |
| `RestoreRace.SplitReadsStale` | model/README.md:205-217 | the violating run of mprotect-then-memcpy, for any page with nonzero content |
| `RestoreRace.RunKeeps` | model/SmashRestoreRace.tla:98-250 | coherence of content, snapshot, backing and protection in every run |
| `RestoreRace.FireKeeps` | model/SmashRestoreRace.tla:98-250 | every step keeps it |
| `RestoreRace.RunIsSound` | model/SmashRestoreRace.tla:98-250 | in every run of every variant the content of a page stays its first content: an uncompressed page is readable and backed by it, a compressed one keeps a copy |
| `RestoreRace.HandlerRestores` | model/SmashRestoreRace.tla:138-218 | after any run and in every variant, a handler left alone with a compressed, unlocked page makes it readable with its first content, unlocks it, and changes no other page |
| `RestoreRace.WorkerSqueezes` | model/SmashRestoreRace.tla:103-131 | a worker left alone keeps a copy of the content, makes the page inaccessible and drops its backing |
| `WkdmTokens.WordRoundTrip` | src/compress/wkdm.h:84-114 | decoding a word undoes encoding it and leaves both dictionaries equal, in all four cases |
| `WkdmTokens.PageRoundTrip` | src/compress/wkdm.h:79-116 | the same for every page |
| `WkdmTokens.TokenIsHistory` | src/compress/wkdm.h:79-114 | the tag of word i from the words before it: 0 for a zero word; 1 if it equals the last nonzero word of its slot (0 if there is none); 2 if only the high 22 bits agree; 3 otherwise; with its slot, low bits or full word |
| `WkdmTokens.DictIsHistory` | src/compress/wkdm.h:77-112 | each dictionary slot holds the last nonzero word of that slot |
| `WkdmTokens.DictIndexBits` | src/compress/wkdm.h:34-38 | bit b of the slot is bit 10+b of the word exclusive-or bit 16+b |
| `WkdmTokens.SizeIs` | src/compress/wkdm.h:118-136 | the output takes 4 words, 2 bits a word, a word for each miss, 4 bits a match and 10 bits a partial match, each stream rounded up to its packing |
| `WkdmTokens.BlobTags` | src/compress/wkdm.h:81-115 | the two bits at 2*(i%16) of tag word i/16 are the class of word i |
| `Bits.FieldIs` | src/compress/wkdm.h:167-186 | a packed field is a quotient and remainder by powers of two |
| `WkdmTokens.ReadsNext` | src/compress/wkdm.h:172-205 | from a blob the decoder reads back exactly the next token, out of four packed streams |
| `WkdmTokens.BlobReadsBack` | src/compress/wkdm.h:172-205 | and so all tokens of the page |
| `Bits.PackNext` | src/compress/wkdm.h:90-115 | or-ing a field into the next place of packed words appends it and keeps all earlier fields |
| `Bits.PackedReads` | src/compress/wkdm.h:167-186 | shifting and masking a packed word reads the field back |
| `Wkdm.StoreEntries` | src/compress/wkdm.h:84-113 | one word: tag, dictionary and streams are those of its token, which TokenIsHistory gives from the words before it |
| `Wkdm.EncodeWords` | src/compress/wkdm.h:79-116 | the loop produces the token streams of the page; the three counts are the numbers of misses, of matches and of partial matches by history |
| `Wkdm.Compress` | src/compress/wkdm.h:44-141 | the output is a complete blob of the tokens, of the size counted from the page; the result is that size, or 0 exactly when it would not be below page_size or exceeds the capacity |
| `Wkdm.Decompress` | src/compress/wkdm.h:145-208 | 0 and dst untouched when the header is not accepted, otherwise the decoded tokens; all reads stay in the buffer if and only if the tag words and, by the counts of the tags, the used parts of the three streams end inside it |
| `Wkdm.RoomBound` | src/compress/wkdm.h:44-116 | the output fits header, tags, n words and one more, and the two areas of the scratch buffer hold their streams |
| `Wkdm.RoomIsExact` | src/compress/wkdm.h:40-45 | dst holds the output for every page of n 32-bit words, if and only if it has room for header, tags, n words and, for n > 0, one more |
| `Wkdm.ScratchFits` | src/compress/wkdm.h:43-76 | both areas fit a scratch of page_size bytes, if and only if the page has at least two words |
| `Wkdm.PageSizeIsNotEnough` | src/compress/wkdm.h:40-45 | for every page size, a page on which it writes more words than the page has |
| `Wkdm.ReadableIff` | src/compress/wkdm.h:166-205 | the reads of the first i words stay in the buffer, if and only if the tag words and the used parts of the streams, as counted by the tags, end inside it |
| `Wkdm.CountsFromTags` | src/compress/wkdm.h:172-203 | how much of each stream is used depends on the tag words alone |
| `Wkdm.HeaderIsNotEnough` | src/compress/wkdm.h:151-159 | a bare header passes the checks and leaves the buffer, for every page size |
| `Wkdm.OffsetsAreNotChecked` | src/compress/wkdm.h:154-164 | with one exact match, reads stay in the buffer if and only if the first offset is inside it |
| `Wkdm.BlobRoundTrip` | src/compress/wkdm.h:44-208 | decoding the blob of any page gives the page back |
| `Wkdm.RoundTrip` | src/compress/wkdm.h:44-208 | compress then decompress returns the page, for every page whose size, counted from its words, is below the page and within the capacity |
| `StoreRegion.TryFreeList` | src/compress/compress_store.h:153-205 | fails exactly when no free slot is large enough; otherwise takes the first that is, splitting a larger one; the slot overlaps no live blob and the in-band list stays exact |
| `StoreRegion.TakeSlot` | src/compress/compress_store.h:161-199 | splitting or taking a slot keeps live slots, free slots and the byte count consistent |
| `StoreRegion.TakePart` | src/compress/compress_store.h:164-188 | the split case |
| `StoreRegion.TakeWhole` | src/compress/compress_store.h:189-199 | the whole-slot case |
| `StoreRegion.BumpKeeps` | src/compress/compress_store.h:216-223 | a bumped slot lies above everything and keeps the region well formed |
| `StoreRegion.ReleaseKeeps` | src/compress/compress_store.h:329-347 | a release pushes the slot on the list, or resets the region exactly when it was the last blob |
| `StoreRegion.LastBlob` | src/compress/compress_store.h:330-336 | a blob that accounts for all live bytes is the only one |
| `StoreRegion.ReadsBack` | src/compress/compress_store.h:286-320 | every live blob of a well-formed region reads back as stored |
| `StoreRegion.Put` | src/compress/compress_store.h:306-307 | copying data into a fresh slot disturbs no other blob and no list node |
| `StoreRegion.TakeAligned` | src/compress/compress_store.h:164-199 | first fit hands out 16-byte boundaries; the region stays aligned if and only if no 8-byte granule is split off a longer slot |
| `StoreRegion.BumpAligned` | src/compress/compress_store.h:216-223 | a bumped slot is on a 16-byte boundary |
| `StoreRegion.ReleaseAligned` | src/compress/compress_store.h:332-347 | releases keep the alignment |
| `StoreRegion.TakeAfterSplit` | src/compress/compress_store.h:164-188 | an 8-byte request off a longer slot on a boundary, then any request that fits the rest: the second is 8 bytes off the boundary |
| `StoreSpec.PlaceReuses` | src/compress/compress_store.h:207-263 | a region is added, or a request refused, only when no region serves (FullIff says when); a fitting free slot of the current region is used without moving its bump pointer |
| `StoreSpec.FullIff` | src/compress/compress_store.h:207-263 | after any run a store is refused if and only if no memory can be mapped, no free slot anywhere is long enough, the current region has no room above its rounded bump pointer, and every older region still holds a blob; under the same condition, and only then, a region is added |
| `StoreSpec.RunOk` | src/compress/compress_store.h:153-347 | in every run live and free slots tile each region below its bump pointer, the live count is their sum, and a region without blobs is as new |
| `StoreSpec.ReleasedIsNext` | src/compress/compress_store.h:321-347 | the slot released last is the next one handed out to a request it covers; the last blob of a region leaves it as new |
| `StoreSpec.RequestIsUnit` | src/compress/compress_store.h:292-298 | the request is the least number of 16-byte units that covers the bytes, one granule for none |
| `StoreSpec.PlaceAligned` | src/compress/compress_store.h:207-263 | every slot handed out by an aligned shard is on a 16-byte boundary; the shard stays aligned if and only if the request does not take one granule off a longer free slot |
| `StoreSpec.BoundaryIffNeverEmpty` | src/compress/compress_store.h:292-347 | in every sequence of stores, releases and fresh regions all blobs are on 16-byte boundaries, if and only if empty blobs are not stored |
| `StoreSpec.EmptyBlobMisaligns` | src/compress/compress_store.h:294-298 | the run of two 32-byte blobs, a release, an empty blob and a 16-byte blob that ends 8 bytes off a boundary |
| `StoreSpec.RunAligned` | src/compress/compress_store.h:164-170 | runs without empty blobs keep every slot, live or free, aligned |
| `CompressStore.Shard.Allocate` | src/compress/compress_store.h:207-263 | takes a slot nobody holds, in the region and at the place that the specification names; reuses a fitting free slot of the current region without growing it, maps a new region only when no region has room, fails only when that mapping fails; 16-byte aligned, with the exact condition on the state before for staying so |
| `CompressStore.Shard.FromOlder` | src/compress/compress_store.h:227-250 | the scan of older regions terminates at the first that serves, and changes nothing when none does; a reset region serves (FullIff) |
| `CompressStore.Shard.PushRegion` | src/compress/compress_store.h:275-284 | a new region goes first and changes no content |
| `CompressStore.Shard.Store` | src/compress/compress_store.h:292-315 | adds exactly one blob under a key not in use; maps memory only when no region has room; the blob is 16-byte aligned and the shard stays so, if and only if this is not an empty blob that the state before would split off a longer slot |
| `CompressStore.Shard.Fetch` | src/compress/compress_store.h:286-315 | reads back what the contents hold under the key |
| `CompressStore.Shard.Release` | src/compress/compress_store.h:321-347 | removes exactly that blob |
| `CompressStore.Replay` | src/compress/compress_store.h:207-348 | after any sequence of stores, releases and fresh regions the blobs still held read back as stored, in order, and lie where the specification puts them; a store fails exactly when no memory can be mapped and the shard is full in the sense of FullIff |
| `Xoshiro.StepIsBijective` | bench/bench_coldhotmix.cpp:296-306 | the state step has an explicit two-sided inverse on four 64-bit words |
| `Xoshiro.OnlyZeroStepsToZero` | bench/bench_coldhotmix.cpp:296-306 | only the zero state steps to zero |
| `Xoshiro.NeverZero` | bench/bench_coldhotmix.cpp:288-306 | no run from a nonzero state reaches zero |
| `Xoshiro.RunsNeverMerge` | bench/bench_coldhotmix.cpp:296-306 | runs of equal length from different states never meet |
| `Xoshiro.OutputIsBijective` | bench/bench_coldhotmix.cpp:292-297 | the result is a bijection of the second word, with its inverse |
| `Xoshiro.KnownOutputs` | bench/bench_coldhotmix.cpp:296-306 | the first four results from the state 1, 2, 3, 4 are the published ones |
| `Xoshiro.Generator.Next` | bench/bench_coldhotmix.cpp:294-306 | the in-place updates perform that step; a nonzero state stays nonzero; the old second word can be recovered from the result |
| `Xoshiro.MixIsBijective` | bench/bench_coldhotmix.cpp:342-348 | the splitmix64 output map has an explicit two-sided inverse |
| `Xoshiro.DistinctOutputs` | bench/bench_coldhotmix.cpp:342-348 | different states give different outputs |
| `Xoshiro.Advances` | bench/bench_coldhotmix.cpp:342-344 | n calls advance the state by n times the increment |
| `Xoshiro.FullPeriod` | bench/bench_coldhotmix.cpp:342-348 | state and output repeat exactly when a 64-bit counter of the calls does |
| `Xoshiro.KnownMix` | bench/bench_coldhotmix.cpp:342-348 | the first output from state 0 is the published one |
| `Xoshiro.Seeded.Next` | bench/bench_coldhotmix.cpp:342-348 | the new state can be recovered from the output |
| `PartialShuffle.Pick` | bench/bench_coldhotmix.cpp:707-715 | one swap per draw; for all draws the indices stay a permutation |
| `PartialShuffle.DrawsDetermined` | bench/bench_coldhotmix.cpp:712-715 | different draws pick different ordered selections |
| `PartialShuffle.EverySelectionDrawn` | bench/bench_coldhotmix.cpp:712-715 | every ordered selection of k positions is picked by some draws, hence by exactly one: uniform draws pick uniformly |
| `PartialShuffle.FreeChosen` | bench/bench_coldhotmix.cpp:717-721 | frees and nulls exactly the objects at the first k shuffled positions |
| `PartialShuffle.Compact` | bench/bench_coldhotmix.cpp:723-729 | collects the non-null objects in order |
| `PartialShuffle.FreedOrKept` | bench/bench_coldhotmix.cpp:717-729 | conservation: every object is freed once or survives, and n - k survive |
| `PartialShuffle.KeptAfterNulling` | bench/bench_coldhotmix.cpp:720-729 | dropping the nulled entries leaves the unfreed objects in their original order |
| `PartialShuffle.FreeSome` | bench/bench_coldhotmix.cpp:707-731 | the whole phase, for all sizes and draws |
| `PartialShuffle.DealRanks` | bench/bench_zipf_reaccess.cpp:413-417 | one swap per draw from the top; for all draws every rank is dealt exactly once |
| `PartialShuffle.DealDetermined` | bench/bench_zipf_reaccess.cpp:413-417 | different draws deal different orders |
| `PartialShuffle.EveryOrderDealt` | bench/bench_zipf_reaccess.cpp:413-417 | every order is dealt by some draws, hence by exactly one |
| `SmallVec.SmallVec.Grow` | tools/stack_deque_vs_vector.cpp:73-79 | growth moves the contents to a buffer of twice the capacity |
| `SmallVec.SmallVec.PushBack` | tools/stack_deque_vs_vector.cpp:72-81 | appends one element, across the spill from the inline buffer to the heap |
| `SmallVec.SmallVec.PushOwn` | tools/stack_deque_vs_vector.cpp:72-81 | pushing a reference to an own element works unless the vector is full and already on the heap, exactly when the reference dangles |
| `SmallVec.SmallVec.PopBack` | tools/stack_deque_vs_vector.cpp:82 | drops the last element |
| `SmallVec.SmallVec.Back` | tools/stack_deque_vs_vector.cpp:83 | returns the last element |
| `SmallVec.SmallVec.Equals` | tools/stack_deque_vs_vector.cpp:87-91 | true exactly when the contents are equal |
| `SmallVec.Replay` | tools/stack_deque_vs_vector.cpp:60-92 | every run of pushes and pops equals the sequence; k > 0 pushes copy fewer than 2k elements and request fewer than 4k heap slots |
| `HistQuantile.Record` | src/util/pressure_stats.h:90-96 | a recorded age keeps the histogram the exact count of the samples |
| `HistQuantile.BucketSpan` | src/util/pressure_stats.h:69-73 | bucket b >= 1 covers [2^(b-1), 2^b), except that the last has no upper end |
| `HistQuantile.Quantile` | scripts/pressure_report.py:29-39 | None exactly for an empty histogram or q above 1; otherwise the first bucket whose running count reaches q*n |
| `HistQuantile.BucketOfRank` | scripts/pressure_report.py:34-38 | that bucket is the one of the ceil(q*n)-th smallest sample |
| `HistQuantile.MidpointNear` | scripts/pressure_report.py:30-38 | for a nonzero age the midpoint of its bucket is within a factor 1.4145 if and only if the age is at most 8389040 ms; for age 0 it lies between 0 and 1 |
| `HistQuantile.SampleQuantile` | scripts/pressure_report.py:29-39 | both, end to end |
| `WalkTree.Walk` | tools/footprint.py:141-150 | terminates for every finite map, cyclic or not, with exactly the reachable pids |
| `WalkTree.AddChildren` | tools/footprint.py:146-149 | the inner loop adds and queues exactly the unseen children |
| `WalkTree.ExploredAll` | tools/footprint.py:141-150 | with an empty queue the set is exactly the reachable pids |

## Left out

- Weak-memory effects: atomics are sequentially consistent steps.
- Floating-point rounding in the alias table and the quantile: exact reals.
- PageMap.PageMap.Set: sequential; concurrent set and get are in PageMapPublish and TagOrder.
- PageMap.PageMap.Replay: the region's tracking mode, pages that become external during the run, and unmapped flat tables are not modelled; spans are values whose arena and class do not change.
- PageMapPublish.RunKeeps: the flat mirror is not part of this model; TagOrder has it, for one page whose table exists.  setRange is not interleaved.
- PageTracker.Tracker.Replay: no spurious compare-exchange failure, ranges end at least one page below 2^64, and the dlsym bootstrap buffer of calloc is not modelled.
- ProbeTable.TakeSlot: a table on values; the class Tracker holds the array.
- AllocSetShim.AllocSet.Alloc: the two PostgreSQL header sizes are one constant; alignment is to 8 bytes; chunk headers are not modelled.
- CompressStore.Shard.Store: regions are values in a sequence and memory is counted in 8-byte granules; a blob must fit one region, as the source assumes; page pinning and the decommit system calls are left out, as is a spurious failure of the bump compare-exchange.
- SmashCore.FixedIsSafe: labels that touch only local variables are merged into the next step, and the bound on releases per page is dropped; so are the bounds on compressions and reads in RestoreRace.
- ForkPause.NoForkIffPublishedFirst: the 50 ms cap on the wait is not modelled.
- RestoreRace.NoStaleReadIff: the compressor's squeeze is one step, and application writes are not modelled.
- Wkdm.Decompress: the model stops at the first read outside the buffer, where the source has no check of its own; what such a read returns is not modelled.
- Wkdm.RoundTrip: words are natural numbers; the arithmetic never relies on wrap-around.
- PartialShuffle.FreeSome: counts and conservation assume that every malloc succeeded; draws are parameters.
- SmallVec.Replay: element construction and destruction are not modelled.
- SmallVec.SmallVec.PushOwn: what a dangling reference reads is not modelled.
- Slot-level allocation during compression and the remaining models (thread creation, deferred PROT_NONE, external-page race, free-pool race): further step systems of the same kind.
- The rest of the engine (slabs, thread caches, compressor scheduling), LZ4 and zstd, benchmark drivers, plotting, RSS sampling: foreign calls or no hard property.
