# DangSan: a verified model

DangSan tracks where pointers to heap objects are stored so that they can be invalidated when the
object is freed. It rests on three things this project models and proves correct in Dafny 4.11: a
modified tcmalloc (`gperftools-metalloc`), which pairs every span of objects with a span of
metadata; the meta-pagetable (`metapagetable`, `staticlib`), which leads from an address to its
metadata; and the compiler passes (`llvm-plugins`) that decide which accesses need instrumentation.
The allocator's own diagnostic tools, the leak checker, the profiler and the deferred-free queue of
the debug allocator, are modelled as well.

| file | what it models |
|---|---|
| `Spans.dfy`, `PageHeap.dfy` | the page heap: spans, page map, free lists, coalescing, carving, releasing, growing |
| `CentralList.dfy`, `Chains.dfy` | the central free list of a size class, with in-object links and other threads at work whenever the lock is dropped |
| `TransferCache.dfy` | the lock and capacity protocol of the transfer caches, as a state machine over all classes and threads |
| `SpanMetadata.dfy` | data spans and metadata spans, on the page heap and the meta-pagetable themselves |
| `MetaPagetable.dfy` | packed per-page entries, `metaset`, `metaget` and their base-relative forms |
| `SizeMap.dfy` | size classes, alignments, the class lookup table |
| `PageMap.dfy` | the three-level radix tree behind the page map |
| `AddressMap.dfy` | the hashed map from addresses to values, with its search for an enclosing range |
| `LeakChecker.dfy` | the mark phase of the leak checker and its snapshot of leaks |
| `Intervals.dfy` | subtracting memory regions from a library's global data |
| `ProfileData.dfy` | the CPU profile collector and its file format |
| `FreeQueue.dfy` | the debug allocator's ring of recently freed blocks |
| `UseGraph.dfy` | the reachability analysis over pointer uses |
| `Arithmetic.dfy`, `Basics.dfy` | division and shifts; options and lists without repeats |

`dafny verify dfyconfig.toml` checks everything.

## How to read it

Objects whose fields the original updates in place are classes, with the loops of the original;
what they are to compute is stated on values. The page heap's `Valid()` holds in every reachable
state: spans partition exactly the granted pages, which only growing adds to, the page map is exact
at span boundaries, every span is on the list for its length and location, and the counts are sums. `Regular()` adds what depends on the
mode: `unmapped + committed = system` and maximal coalescing with eager decommit off, and no normal
free span with it on and a release that works. Every operation keeps both, but for switching the
eager mode on.

The system is a free choice: an allocation, a release or an open may succeed or fail each time, unless
a constant (`systemWorks`, `releaseWorks`, `allocWorks`, `heapWorks`) says that it does not refuse.
Counts of bytes are kept in pages where the original keeps multiples of the page size.

Where the original drops a lock in the middle of an operation, the method calls `Interfere`: any
number of pieces that other threads run under the lock, and any writes they make to objects of their
own. An operation takes the objects its thread holds (`mine`) and shows them undisturbed, and it says
by how much exactly the objects (`Ours`) and unlisted spans (`Loose`) of this side change. With
`alone` (in `FreeQueue.dfy`, with `others == 0`) nothing interferes, and the contract says exactly
what the call does. Ghost fields (`granted`, `where`, `content`, `untouched`,
`pushed`, `popped`, `freed`, `pending`) record what the original leaves implicit. `theirs` and `away`, what other threads hold, and
`systemRange`, the pages the system has handed out, belong to the surroundings: only steps of other
threads and of the system read them.

Findings where the code does not do what a comment or a name suggests, each with its exact condition:

- Releasing in the eager mode decommits a span twice, so `unmapped + committed = system` drifts by
  exactly the pages released (`ReleaseLastNormalSpan`, `ReleaseAtLeastNPages`); `EagerDrift` is such a
  run from a new heap. Switching the eager mode on with normal free spans waiting breaks its
  invariant, and only then (`SetAggressiveDecommit`).
- The page-count loops of the size map compare an unsigned quotient with a signed batch. They end iff
  the batch is not negative, that is iff the cap read from the environment is at least -3
  (`StopsIff`, `BuildClasses`); `CapMinusFour` is a cap for which they do not. A cap of 0 passes, but
  leaves nothing to move at a time, and the central list divides by that (`MoveSizeSign`).
- The base-relative metadata forms are right iff page and offset do not carry into a granule
  (`BaseFormExact`); for granules larger than a page they can miss (`BaseFormLargeGranules`). The
  unsigned form differs from the signed one before the remembered page unless the granule size
  divides the slot size (`UnsignedBaseForm`, with an instance in `UnsignedBaseFormMisses`).
- `AccumulateUnsafeSideEffects` does not exempt lifetime markers, `IsSafeStackAlloca` does: an
  allocation can be safe and still have an unsafe effect (`LifetimeIsRecorded`, `NoEffectsIffSafe`).
- `Ensure(0, 0)` computes its last key as 2^64 - 1 and fails on every map, while any other range of no
  keys succeeds (`EnsureNone`); the contract of `Ensure` is stated with that 64-bit bound.

## Model

| member | source | states |
|---|---|---|
| `Spans.SpansApart` | gperftools-metalloc/src/page_heap.cc:229-408 | two live spans never share a page |
| `Spans.NeighbourIsLive` | gperftools-metalloc/src/page_heap.cc:330-385 | the page-map entry on either side of a live span is NULL iff that page was never granted, and otherwise names a live span that ends or starts right there, although interior entries may be stale |
| `Spans.RegisteredPagesResolve` | gperftools-metalloc/src/page_heap.cc:525-535 | every page of a span registered with a size class leads to it |
| `Spans.RelabelLayout` | gperftools-metalloc/src/page_heap.cc:306-318 | changing the location of a span keeps the partition and the page map exact |
| `Spans.SplitLayout` | gperftools-metalloc/src/page_heap.cc:229-245 | cutting a span in two and recording the tail keeps the partition of the granted pages and the page map exact at both new boundaries |
| `Spans.MergeLayout` | gperftools-metalloc/src/page_heap.cc:330-408 | swallowing an adjacent span keeps the partition and the boundary entries exact, with the stale interior entries left behind |
| `Spans.GrantLayout` | gperftools-metalloc/src/page_heap.cc:634-642 | recording a span over pages never granted before extends the partition |
| `Spans.HoldsRemove` | gperftools-metalloc/src/page_heap.cc:422-430 | unlinking a span leaves every other span on exactly the list for its length and location |
| `Spans.HoldsPrepend` | gperftools-metalloc/src/page_heap.cc:410-420 | linking a span puts it, and nothing else, on the list for its length and location |
| `PageHeaps.RefusedIsClear` | gperftools-metalloc/src/page_heap.cc:323-328 | a neighbour that is absent or may not be merged means there is nothing left to coalesce on that side |
| `PageHeaps.AbsorbClears` | gperftools-metalloc/src/page_heap.cc:330-385 | merging a neighbour clears that whole side: what lies beyond it was already not mergeable |
| `PageHeaps.PageHeap.SetAggressiveDecommit` | gperftools-metalloc/src/page_heap.h:196-198 | switching eager decommit off always keeps the heap regular; switching it on does iff no normal free span is waiting and release works |
| `PageHeaps.PageHeap.RemoveFromFreeList` | gperftools-metalloc/src/page_heap.cc:422-430 | one span off its list and off its page count, all else as before |
| `PageHeaps.PageHeap.PrependToFreeList` | gperftools-metalloc/src/page_heap.cc:410-420 | one span onto the front of its list and into its page count, all else as before |
| `PageHeaps.PageHeap.CommitSpan` | gperftools-metalloc/src/page_heap.cc:247-251 | committed pages grow by exactly the span |
| `PageHeaps.PageHeap.DecommitSpan` | gperftools-metalloc/src/page_heap.cc:253-261 | committed pages shrink by the span iff the system agreed |
| `PageHeaps.PageHeap.MergeNeighbour` | gperftools-metalloc/src/page_heap.cc:330-385 | the neighbour found through the page map is live and adjacent; afterwards nothing mergeable is left on that side |
| `PageHeaps.PageHeap.Coalesce` | gperftools-metalloc/src/page_heap.cc:330-385 | after both sides, a heap coalesced elsewhere is coalesced everywhere |
| `PageHeaps.PageHeap.DecommitMerged` | gperftools-metalloc/src/page_heap.cc:386-406 | the eager tail of a merge, with the exact change of committed pages |
| `PageHeaps.PageHeap.MergeIntoFreeList` | gperftools-metalloc/src/page_heap.cc:330-408 | the merged span is free and covers the old one, other in-use spans are untouched, page counts stay sums of the lists, and the heap stays maximally coalesced (lazy) or holds no normal span (eager, release working) |
| `PageHeaps.PageHeap.ReleaseLastNormalSpan` | gperftools-metalloc/src/page_heap.cc:463-476 | lazily, exactly `n` pages turn from free to unmapped and the books stay balanced; eagerly, with a release that works, the books drift by exactly the `n` pages decommitted twice; 0, a refusal, changes nothing; the span that is returned is the last one of the list |
| `PageHeaps.EagerDrift` | gperftools-metalloc/src/page_heap.cc:463-476 | on a new heap grown, switched to the eager mode and told to release, the books are short by exactly what was released; growing succeeds for every request the heap admits |
| `PageHeaps.PageHeap.RoundFindsSpan` | gperftools-metalloc/src/page_heap.cc:484-497 | while free pages remain, a round over all lists meets a non-empty one |
| `PageHeaps.PageHeap.ReleaseRound` | gperftools-metalloc/src/page_heap.cc:485-496 | a round lowers the number of free pages unless the system refuses |
| `PageHeaps.PageHeap.ReleaseAtLeastNPages` | gperftools-metalloc/src/page_heap.cc:478-499 | the passes end; in the lazy mode exactly the pages reported turn from free to unmapped, in the eager mode with a release that works the books drift by exactly the result; with a release that works the result falls short only if no free page is left; lazily it stops in time: without one of the spans released it would have been short |
| `PageHeaps.PageHeap.IncrementalScavenge` | gperftools-metalloc/src/page_heap.cc:432-461 | nothing but the counter changes until it runs out; then, with a release that works, something is released unless nothing is free, lazily no more than one span, no in-use span is disturbed and the heap stays regular; the counter starts again at the default iff nothing was released |
| `PageHeaps.PageHeap.Delete` | gperftools-metalloc/src/page_heap.cc:306-321 | only this span stops being in use, its pages end up inside one free span, and the heap stays regular |
| `PageHeaps.PageHeap.Carve` | gperftools-metalloc/src/page_heap.cc:263-304 | the first `n` pages become in use, the leftover is free where it was and was right not to be coalesced |
| `PageHeaps.PageHeap.CarvedPacked` | gperftools-metalloc/src/page_heap.cc:279-291 | after carving, no two adjacent free spans share a location |
| `PageHeaps.PageHeap.Split` | gperftools-metalloc/src/page_heap.cc:229-245 | an in-use span becomes two in-use spans that tile it |
| `PageHeaps.PageHeap.RegisterSizeClass` | gperftools-metalloc/src/page_heap.cc:525-535 | after the loop every page of the span leads to it, and only its size class changed |
| `PageHeaps.PageHeap.EnsureLimit` | gperftools-metalloc/src/page_heap.cc:501-523 | a yes is always right; without release, or in the lazy mode, so is a no; a no after releasing, with a release that works, leaves no free page; nothing changes without release, nor when the limit already holds; lazily no more is released than needed |
| `PageHeaps.PageHeap.FindBestFit` | gperftools-metalloc/src/page_heap.cc:172-204 | address-ordered best fit over both large lists, or nothing fits |
| `PageHeaps.PageHeap.AllocLarge` | gperftools-metalloc/src/page_heap.cc:171-227 | what it carves is always the address-ordered best fit of the heap it carves from, reached from the old one by releasing only; nothing changes when nothing fits; within the limit it succeeds iff something fits; over it, it recurses at most once, and in the lazy mode fails with something that fits only if the limit still cannot be met, with all free pages released when release works; unmapped pages are taken only within the limit |
| `PageHeaps.SettledStillFits` | gperftools-metalloc/src/page_heap.cc:216-221 | a returned large span that fits still fits, perhaps inside a larger one, after releasing |
| `PageHeaps.PageHeap.SearchFreeAndLargeLists` | gperftools-metalloc/src/page_heap.cc:81-112 | whenever the request is within the limit, the span carved has the least sufficient length in the whole heap, and failure means nothing fits; over it, lazily and with a release that works, failure means that nothing fitted or that the limit is not met with every free page released; unmapped pages are taken only within the limit |
| `PageHeaps.PageHeap.TryLength` | gperftools-metalloc/src/page_heap.cc:86-109 | a normal span of exactly that length is carved whenever there is one, the first of its list; else, within the limit, the first returned one; else there is none and nothing changes; over the limit, lazily and with a release that works, a round that finds one and cannot take it has the limit in its way with everything released, or leaves a longer span for the rounds ahead |
| `PageHeaps.PageHeap.GrowHeap` | gperftools-metalloc/src/page_heap.cc:597-651 | success leaves a free span of at least `n` pages, and exactly a run of so many pages never handed out before joins those granted, with none lost; failure grants nothing and counts as lost what was obtained; every page obtained stays granted or lost; with a system that works it succeeds whenever the request is within the limit and there is address space; with the limit in the way and nothing to release it fails and stays so; it asks for the minimum chunk first; a request past the largest valid one changes nothing |
| `PageHeaps.PageHeap.SystemAlloc` | gperftools-metalloc/src/page_heap.cc:597-616 | pages never handed out before, and with a system that works always some when there is a run of them in the address space |
| `PageHeaps.PageHeap.New` | gperftools-metalloc/src/page_heap.cc:116-169 | a fitting free span within the limit is used before the heap grows, and it is the closest fit; the caller gets a fresh in-use span of exactly `n` pages, no other in-use span changes and no page granted is lost; with a system that works and no limit it succeeds as long as there is address space; without a limit it fails only if nothing fits; with one, lazily and with a release that works, only if the limit is not met with every free page released, or nothing was long enough when the heap was last searched; lazily, within the limit and with a release that works, a request that meets many free pages and the next 128MB makes it release everything first: the closest fit of the heap so coalesced is carved without growing, and it grows only if there is none; otherwise, without a limit, a failure releases nothing |
| `PageHeaps.PageHeap.Compact` | gperftools-metalloc/src/page_heap.cc:124-149 | everything is released, so that no normal span is left, and within the limit the closest fit of that heap is carved, iff there is one |
| `PageHeaps.PageHeap.constructor` | gperftools-metalloc/src/page_heap.cc:65-79 | the empty heap, with nothing granted, satisfies all invariants |
| `SpanMetadata.MetaPagesSuffice` | gperftools-metalloc/src/central_freelist.cc:345-347 | the number of metadata pages asked for has room for a slot for every granule, for every size and slot width, and one page less would not |
| `SpanMetadata.LinkedAdd` | gperftools-metalloc/src/central_freelist.cc:348-350 | entering one pair leaves all other pairs linked |
| `SpanMetadata.LinkedRemove` | gperftools-metalloc/src/central_freelist.cc:145-146 | clearing the entries of one data span unlinks exactly it, and every entry of its range is 0 |
| `SpanMetadata.FirstEntryRecovers` | gperftools-metalloc/src/central_freelist.cc:145-148 | the first entry of a data span, shifted right by 8, is the start of its metadata span |
| `SpanMetadata.ObjectSlots` | gperftools-metalloc/src/central_freelist.cc:345-350 | the metadata of the i-th object is the i-th stretch of the metadata span and lies inside it |
| `SpanMetadata.ObjectsDoNotShare` | metapagetable/defaulthooks.c:11-32 | no two heap objects, of one span or of two, share a byte of metadata |
| `SpanMetadata.SpanSource.Populate` | gperftools-metalloc/src/central_freelist.cc:335-357 | a data span and a metadata span become in use and paired one to one, or neither, with all other in-use spans and pairs unchanged; with a system that works and no limit, neither only if there is no address space for one of them |
| `SpanMetadata.SpanSource.Release` | gperftools-metalloc/src/central_freelist.cc:140-153 | the metadata span found through the page map is the right one; both spans are free again, exactly this pair is gone, and every entry of the range is 0 |
| `SpanMetadata.SpanSource.MetadataIsPrivate` | gperftools-metalloc/src/central_freelist.cc:335-357 | in every reachable state each object has its metadata inside its own metadata span, and no two objects share a byte |
| `CentralLists.State.LastReference` | gperftools-metalloc/src/central_freelist.cc:130-137 | when the last reference to a span comes back every other object of it is on its list: none is in the transfer cache, none is handed out |
| `CentralLists.State.Owner` | gperftools-metalloc/src/central_freelist.cc:105-108 | the span found for a handed-out object is listed, owns it, and has a positive reference count |
| `CentralLists.State.FetchKeeps` | gperftools-metalloc/src/central_freelist.cc:299-327 | fetching keeps: each object in exactly one place, every place a chain in memory, free + references = objects per span, counters equal to sums, `nonempty_` iff the list is not NULL |
| `CentralLists.State.ReturnKeeps` | gperftools-metalloc/src/central_freelist.cc:110-157 | returning an object keeps the same invariant, unless it was the last reference; part of the invariant is that a listed span without references is one nothing has been taken from since it was added |
| `CentralLists.State.DetachKeeps` | gperftools-metalloc/src/central_freelist.cc:130-137 | so does taking a span with no references off the list |
| `CentralLists.State.AdoptKeeps` | gperftools-metalloc/src/central_freelist.cc:388-393 | so does adding a new span |
| `CentralLists.State.PopKeeps` | gperftools-metalloc/src/central_freelist.cc:258-267 | so does emptying a transfer-cache slot |
| `CentralLists.State.PushKeeps` | gperftools-metalloc/src/central_freelist.cc:242-250 | so does filling one while a slot is free |
| `CentralLists.CentralList.constructor` | gperftools-metalloc/src/central_freelist.cc:48-81 | defined for every batch but 0; the empty list satisfies the invariant; the transfer cache is limited to 64 entries, and to as many as fit 1MB but at least one, and starts at 16 or that limit |
| `CentralLists.CentralList.FetchFromOneSpans` | gperftools-metalloc/src/central_freelist.cc:299-327 | exactly the first `n` objects of the first non-empty span, or all it has, as a chain now handed out; 0 iff no span has objects; nothing else moves |
| `CentralLists.CentralList.ReturnObject` | gperftools-metalloc/src/central_freelist.cc:105-157 | the object is back on the list of its span, or, iff this was its last reference, the whole span is off the list and no object of it is left anywhere |
| `CentralLists.CentralList.CutUp` | gperftools-metalloc/src/central_freelist.cc:374-386 | the loop chains exactly floor(bytes / size) objects in address order and writes nothing else |
| `CentralLists.CentralList.Interfere` | gperftools-metalloc/src/central_freelist.cc:134-153 | any number of steps of other threads, page-map writes outside the held spans included, keeps the invariant and leaves alone the objects handed out to this thread, their words, and a span it holds privately; the objects handed out to this side, and the spans it has on no list, are exactly those of before |
| `CentralLists.CentralList.ReleaseToSpans` | gperftools-metalloc/src/central_freelist.cc:105-158 | whatever others do while the lock is dropped inside, the invariant is kept, this side holds exactly this object less, and a span taken off has gone to the page heap; alone, exactly this object moves, and it and its span are gone iff it was the last one out |
| `CentralLists.CentralList.ReleaseListToSpans` | gperftools-metalloc/src/central_freelist.cc:83-89 | the whole chain is given back, whatever others do between two objects: this side holds exactly its objects less, and every span left empty has gone to the page heap; alone, exactly its objects move, and no span is left on a list with nothing out that had something out before |
| `CentralLists.CentralList.ShrinkCache` | gperftools-metalloc/src/central_freelist.cc:209-238 | under any interleaving the invariant is kept, nobody is disturbed and no object is left astray; alone: gives an entry up iff there is one and, when the cache is full, only if forced; then exactly the top slot is emptied and its objects go back to their spans, none of which stays listed with nothing out |
| `CentralLists.CentralList.InsertRange` | gperftools-metalloc/src/central_freelist.cc:240-253 | cached or given back, under any interleaving this side holds exactly the objects of the chain less, and nobody else is disturbed; when the lock is not dropped, or nobody interferes, the chain is cached iff `N` is a full batch and a slot is free or the capacity is below the maximum and an entry can be evicted elsewhere; then it is exactly the new top slot with its head and tail; otherwise no span stays listed with nothing out that had something out |
| `CentralLists.CentralList.MakeCacheSpace` | gperftools-metalloc/src/central_freelist.cc:176-195 | a yes means a free slot under the lock now held, although the lock was dropped in between; the capacity grows by one iff it had to, and nothing else changes when nobody interferes |
| `CentralLists.CentralList.Populate` | gperftools-metalloc/src/central_freelist.cc:330-394 | keeps the invariant with the lock dropped throughout, and leaves no object and no span astray; alone, it adds one new span in front of `nonempty_` with all its objects in address order and counts them, or, refused, changes neither; with a page heap that works it is not refused |
| `CentralLists.HeldByHeap` | gperftools-metalloc/src/page_heap.cc:525-535 | the layout of the page heap gives what the list relies on: every page of a registered span leads to it, and any further span of that length is clear of them |
| `CentralLists.CentralList.FetchFromOneSpansSafe` | gperftools-metalloc/src/central_freelist.cc:290-297 | the first `n` objects of the first non-empty span if there is one; otherwise, alone, exactly one span is added and the chain is its first `n` objects, or the page heap refused and there is none; with a page heap that works there always is; under any interleaving this side holds exactly the objects of the chain more |
| `CentralLists.CentralList.RemoveRange` | gperftools-metalloc/src/central_freelist.cc:255-287 | a chain of exactly the reported number of distinct objects, at most `n`, none of them held by anyone; under any interleaving this side holds exactly these more, and no span is left off the lists; a full batch is the top slot when there is one; fewer than `n` only if no span has objects left; alone, nothing else moves, and with a page heap that works there is at least one object |
| `CentralLists.CentralList.FetchRest` | gperftools-metalloc/src/central_freelist.cc:273-283 | later chunks are linked in front and the tail stays the tail |
| `Chains.ChainNoDup` | gperftools-metalloc/src/linked_list.h:44-90 | a chain of in-object links that ends visits no object twice |
| `Chains.ChainUnique` | gperftools-metalloc/src/linked_list.h:44-90 | a chain is determined by its head |
| `Chains.ChainJoin` | gperftools-metalloc/src/linked_list.h:86-90 | pushing a range links it in front of the chain |
| `TransferCache.StepInv` | gperftools-metalloc/src/central_freelist.cc:160-253 | every step of every thread keeps the protocol invariant |
| `TransferCache.RunSafe` | gperftools-metalloc/src/central_freelist.cc:160-253 | in every state of every run: used <= capacity <= maximum for every class, no thread holds two class locks, and the sum of all capacities is at most the initial one |
| `TransferCache.RunSlotInBounds` | gperftools-metalloc/src/central_freelist.cc:242-250 | a slot granted by `MakeCacheSpace` is in bounds when it is stored into, although the lock was dropped in between |
| `TransferCache.RunGuarded` | gperftools-metalloc/src/central_freelist.cc:196-238 | slots and capacity of a class change only under its lock |
| `TransferCache.NoDeadlock` | gperftools-metalloc/src/central_freelist.cc:197-206 | while some thread is busy, some busy thread can step |
| `ProfileData.DecodeRoundTrip` | gperftools-metalloc/src/profiledata.cc:92-130 | header, records and end marker decode to exactly what was written |
| `ProfileData.ReadRecordsBack` | gperftools-metalloc/src/profiledata.cc:180-189 | only the end marker has count zero, so a reader neither stops early nor runs on |
| `ProfileData.Collector.Start` | gperftools-metalloc/src/profiledata.cc:92-130 | succeeds iff the file opens and the collector is not enabled; otherwise nothing changes; then nothing is counted yet, the period is 1000000 divided by the frequency, rounded toward zero, and the stream is the header with it |
| `ProfileData.Collector.Evict` | gperftools-metalloc/src/profiledata.cc:66-78 | the entry is appended to the stream and the buffer never overflows, which is flushed only when the entry does not fit |
| `ProfileData.Collector.FlushTable` | gperftools-metalloc/src/profiledata.cc:240-259 | everything goes to the file and the balance of samples is kept |
| `ProfileData.Collector.FlushEvicted` | gperftools-metalloc/src/profiledata.cc:324-332 | pending slots move to the file in order |
| `ProfileData.Collector.FindVictim` | gperftools-metalloc/src/profiledata.cc:300-307 | the entry with the smallest count, the first of them |
| `ProfileData.Collector.MakeRoom` | gperftools-metalloc/src/profiledata.cc:279-311 | nothing is evicted if the bucket already counts the trace; otherwise exactly the entry with the smallest count is, if it counts anything |
| `ProfileData.Collector.Add` | gperftools-metalloc/src/profiledata.cc:261-320 | exactly one more sample of the trace, cut to 64 frames, whatever had to be evicted |
| `ProfileData.Collector.Stop` | gperftools-metalloc/src/profiledata.cc:165-197 | the file decodes to header, records, end marker and map, and for every trace the record counts sum to the number of its `Add` calls |
| `AddressMap.Map.FindCluster` | gperftools-metalloc/src/addressmap-inl.h:214-223 | the cluster of an address, iff the table has one |
| `AddressMap.Map.MakeCluster` | gperftools-metalloc/src/addressmap-inl.h:224-231 | a cluster is there afterwards and the contents are unchanged |
| `AddressMap.Map.Find` | gperftools-metalloc/src/addressmap-inl.h:290-306 | the value the plain map holds, or nothing iff it holds none |
| `AddressMap.Map.Insert` | gperftools-metalloc/src/addressmap-inl.h:309-338 | the plain map with this one key updated; a key already there keeps its place in its list |
| `AddressMap.Map.FindAndRemove` | gperftools-metalloc/src/addressmap-inl.h:341-357 | the plain map with this one key removed, and its old value, iff it was there |
| `AddressMap.Map.FindInside` | gperftools-metalloc/src/addressmap-inl.h:360-403 | terminates; for any ranges, overlapping or not, the answer is a range in reach that contains the key and has no key at or below it in a later block, and there is none only if no range is such |
| `AddressMap.Map.AnswerApart` | gperftools-metalloc/src/addressmap-inl.h:359-403 | with ranges that do not overlap, the answer is the one range in reach that contains the key, iff there is one |
| `AddressMap.Map.AnswerPicks` | gperftools-metalloc/src/addressmap-inl.h:359-403 | for any ranges the search finds exactly the first range that contains the key in the last block with a key at or below it, if that is in reach |
| `AddressMap.MaxSizeSuffices` | gperftools-metalloc/src/addressmap-inl.h:389-398 | with `max_size` bounding every range, the search reaches every range that contains the key |
| `AddressMap.Map.SmallerKeyEnds` | gperftools-metalloc/src/addressmap-inl.h:374-384 | a smaller key in a block without a container ends the search: every container left has a later key after it |
| `AddressMap.Map.OutOfReach` | gperftools-metalloc/src/addressmap-inl.h:387-396 | giving up beyond `max_size` misses nothing |
| `AddressMap.Map.Iterate` | gperftools-metalloc/src/addressmap-inl.h:407-420 | every entry of the map exactly once |
| `LeakGraph.FloodEnd` | gperftools-metalloc/src/heap-checker.cc:1397-1500 | with the stack empty, exactly the reachable allocations have been added |
| `LeakGraph.ScanEnds` | gperftools-metalloc/src/heap-checker.cc:1412-1421 | the aligned words looked at are exactly those that lie inside the piece |
| `LeakChecker.Checker.RecordAlloc` | gperftools-metalloc/src/heap-profile-table.cc:210-223 | the allocation is recorded, not live, in place of what was recorded at its address; recorded ranges stay apart iff this one is apart from the others |
| `LeakChecker.Checker.RecordFree` | gperftools-metalloc/src/heap-profile-table.cc:225-234 | exactly this allocation is forgotten |
| `LeakChecker.Checker.MarkAsLive` | gperftools-metalloc/src/heap-profile-table.cc:263-270 | true iff the allocation exists and was not live; then it is |
| `LeakChecker.Checker.Lookup` | gperftools-metalloc/src/heap-checker.cc:2365-2380 | exactly the allocation that counts as pointed to: one the word points into with none at or below the word in a later block, iff there is one, for any recorded ranges; when they do not overlap, the allocation the word points into, iff there is one |
| `LeakChecker.Checker.Scan` | gperftools-metalloc/src/heap-checker.cc:1447-1499 | for any recorded ranges, every aligned word of a piece is looked at and what it reaches is marked and stacked, and what counts as a pointer does not change |
| `LeakChecker.Checker.IgnoreLiveObjects` | gperftools-metalloc/src/heap-checker.cc:1392-1507 | for any recorded ranges, the flood terminates and has marked exactly what was marked before and what is reachable from the roots |
| `LeakChecker.Checker.SoundView` | gperftools-metalloc/src/heap-checker.cc:2365-2380 | when recorded ranges do not overlap, what counts as a pointer to an allocation is exactly a word that points into it |
| `LeakChecker.Checker.NonLiveSnapshot` | gperftools-metalloc/src/heap-profile-table.cc:502-517 | exactly the unmarked allocations absent from the base, and every live bit is clear afterwards |
| `MetaPagetable.PackedIsFlat` | metapagetable/metapagetable.c:91-102 | for every address of a configured region and every shift, the packed per-page lookup is the flat index ((p - start) >> alignment) * M |
| `MetaPagetable.GranulesAddUp` | metapagetable/metapagetable.c:91-102 | granules counted by page and within the page add up, for shifts below and above the page shift |
| `MetaPagetable.BaseFormExact` | staticlib/metaset.c:72-94 | a base-relative lookup is right iff page and offset do not carry into a granule |
| `MetaPagetable.BaseFormSmallGranules` | staticlib/metaset.c:72-94 | for shifts up to 12 it is always right, in both directions |
| `MetaPagetable.BaseFormLargeGranules` | staticlib/metaset.c:72-94 | for a shift of 13, two addresses of a configured region that fits its metadata, and a lookup that lands one slot short |
| `MetaPagetable.UnsignedBaseForm` | staticlib/metaget.c:86-106 | the unsigned form agrees with the signed one modulo 2^64 iff the address is not before the page, or the granule size divides the slot size |
| `MetaPagetable.UnsignedBaseFormMisses` | staticlib/metaget.c:86-106 | an address of a configured region, before the remembered page, for which the signed form is right and the unsigned one is not |
| `MetaPagetable.SetThenGet` | staticlib/metaget.c:13-33 | for every shift an `int` can be shifted by, setting a granule-aligned object makes every byte of it read the value and changes no other granule |
| `MetaPagetable.Metadata.SetEntries` | metapagetable/metapagetable.c:79-103 | exactly the entries of the range are written, each with its own offset; a range not made of whole pages is refused |
| `MetaPagetable.Metadata.MetaSet` | staticlib/metaset.c:5-25 | for every such shift, exactly the slots of the object are filled |
| `SizeMap.LgFloor` | gperftools-metalloc/src/common.cc:64-76 | the binary search finds the highest bit of every 32-bit number |
| `SizeMap.AlignmentIsPowerOfTwo` | gperftools-metalloc/src/common.cc:78-102 | the alignment of every size is a power of two from 8 up to the page size, and its bit count is exact |
| `SizeMap.SpanBytes` | gperftools-metalloc/src/common.cc:148-160 | with the batch compared as an unsigned number, the loops end iff the batch is not negative; then with the least whole number of pages that leaves at most 1/8 over and holds a batch, and an object fits |
| `SizeMap.NeverEnough` | gperftools-metalloc/src/common.cc:148-160 | no number of bytes below 2^64 satisfies the exit test for a negative batch |
| `SizeMap.StopsIff` | gperftools-metalloc/src/common.cc:148-160 | for every size the loops end, within a bounded number of rounds, iff the batch is not negative |
| `SizeMap.CapMinusFour` | gperftools-metalloc/src/common.cc:46-60 | with a cap of -4 from the environment the loops already never end for the first size |
| `SizeMap.MoveSizeSign` | gperftools-metalloc/src/common.cc:104-125 | the number of objects moved at a time, by which `Init` of the central list divides, is 0 iff the cap is 0 |
| `SizeMap.MoveSizeIs` | gperftools-metalloc/src/common.cc:104-125 | as many objects as 64K hold, two at least, and then no more than the cap |
| `SizeMap.NextAligned` | gperftools-metalloc/src/common.cc:144-146 | the sizes the loop visits stay multiples of their alignment, and the last one is the maximum |
| `SizeMap.BuildClasses` | gperftools-metalloc/src/common.cc:141-183 | ends iff the cap is at least -3; then classes ascend to exactly the maximum size, each a multiple of its alignment with at least one object per span; every size visited is served by the smallest class large enough, with the pages it asked for and no object lost to merging; no two neighbouring classes could be merged |
| `SizeMap.Granularity` | gperftools-metalloc/src/common.h:175-181 | class sizes are multiples of 8, and above 1024 of 128 |
| `SizeMap.IndexDeterminesClass` | gperftools-metalloc/src/common.h:199-208 | sizes with the same table index belong to the same class |
| `SizeMap.FillClassArray` | gperftools-metalloc/src/common.cc:189-197 | for every size up to the maximum the table gives the smallest class that is large enough |
| `PageMaps.PageMap3.Get` | gperftools-metalloc/src/pagemap.h:248-257 | the value of the flat map, NULL where nothing was ensured or beyond the range |
| `PageMaps.PageMap3.Set` | gperftools-metalloc/src/pagemap.h:259-265 | the flat map with this one key updated |
| `PageMaps.PageMap3.Ensure` | gperftools-metalloc/src/pagemap.h:267-295 | a range of `n` > 0 keys below 2^64 is ensured, so that every key of it is settable, only if it fits, and with an allocator that works iff it does; ranges that wrap ask for what the 64-bit bound gives; existing values never change and leaves are added for the range only |
| `PageMaps.PageMap3.EnsureNone` | gperftools-metalloc/src/pagemap.h:267-295 | a range of no keys is ensured, changing nothing, iff it does not start at 0; at 0 the last key is 2^64 - 1 and the call fails on every map |
| `PageMaps.PageMap3.Next` | gperftools-metalloc/src/pagemap.h:300-321 | terminates with the value at the least key from `k` on that is not NULL, or NULL if there is none |
| `PageMaps.PageMap3.constructor` | gperftools-metalloc/src/pagemap.h:243-246 | no key is settable yet |
| `UseGraph.IsSafeStackAlloca` | llvm-plugins/Utils.cpp:146-237 | terminates on every finite graph; true iff no use reached is unsafe |
| `UseGraph.AccumulateUnsafeSideEffects` | llvm-plugins/Utils.cpp:289-362 | exactly the reached unsafe uses, each with the value it uses; non-empty whenever the allocation is not safe |
| `UseGraph.AccumulateSideEffects` | llvm-plugins/Utils.cpp:239-287 | exactly the loads, stores, returns and calls reached |
| `UseGraph.Graph.ReachThrough` | llvm-plugins/Utils.cpp:228-230 | a user that is no load, store, return, call or `va_arg` of a value reached is itself reached |
| `UseGraph.Graph.ReachedIsMade` | llvm-plugins/Utils.cpp:228-230 | nothing else is reached, besides the allocation, and only as a user of a value reached |
| `UseGraph.MemIntrinsicSafe` | llvm-plugins/Utils.cpp:132-141 | unsafe iff the pointer is the destination and the length is not constant or the access not within bounds |
| `UseGraph.Graph.UnsafeHasEffects` | llvm-plugins/StackTracker.cpp:144-150 | an allocation that is not safe has a first unsafe effect to look at |
| `UseGraph.Graph.NoEffectsIffSafe` | llvm-plugins/Utils.cpp:289-362 | there is no unsafe effect iff the allocation is safe and no lifetime marker of it is recorded |
| `UseGraph.LifetimeIsRecorded` | llvm-plugins/Utils.cpp:193-197 | a safe allocation with an unsafe effect, because of a lifetime marker |
| `UseGraph.Graph.RecordedTouches` | llvm-plugins/Utils.cpp:239-287 | every unsafe effect is a side effect |
| `FreeQueues.FreeQueue.Full` | gperftools-metalloc/src/debugallocation.cc:172-174 | full iff 1023 entries are queued |
| `FreeQueues.FreeQueue.Push` | gperftools-metalloc/src/debugallocation.cc:176-179 | appends to the contents |
| `FreeQueues.FreeQueue.Pop` | gperftools-metalloc/src/debugallocation.cc:181-186 | takes the oldest entry off |
| `FreeQueues.FreeQueue.Size` | gperftools-metalloc/src/debugallocation.cc:188-190 | the number of entries |
| `FreeQueues.Reclaimer.Drain` | gperftools-metalloc/src/debugallocation.cc:596-604 | exactly the oldest entries, in order, at most four, stopping as soon as the queue is within the limit and not full, and never sooner |
| `FreeQueues.Reclaimer.FreeBatch` | gperftools-metalloc/src/debugallocation.cc:610-613 | each block of a batch is freed, in the order it was taken off, whatever others do in between, and this thread is left with the others it held; alone, nothing else is freed |
| `FreeQueues.Reclaimer.Interfere` | gperftools-metalloc/src/debugallocation.cc:605-615 | steps of other threads keep: pushed = popped + queued, size = sum, every popped block freed at most once, not full while the lock is free; and they free nothing this thread has taken off |
| `FreeQueues.Reclaimer.ProcessFreeQueue` | gperftools-metalloc/src/debugallocation.cc:579-624 | keeps those invariants under any interleaving, and whatever it took off is freed when it returns; alone, it queues the block, frees the oldest blocks in push order and no more than needed, and ends within the byte limit; a negative limit is one below 2^64 |
| `Intervals.Subtracts` | gperftools-metalloc/src/heap-checker.cc:1169-1183 | a region is subtracted iff it is a stack, has no caller, or the first trusted range that ends after its caller does not contain it, for any ranges keyed by their ends |
| `Intervals.OneRangeIsEnough` | gperftools-metalloc/src/heap-checker.cc:1169-1183 | looking at that one range gives the right answer for every caller iff no range is hidden behind an earlier one |
| `Intervals.ApartTrusts` | gperftools-metalloc/src/heap-checker.cc:1169-1183 | for ranges that do not overlap, as the mappings of a process, looking at that one range recognises exactly the trusted callers |
| `Intervals.Cut` | gperftools-metalloc/src/heap-checker.cc:1189-1214 | the pieces cover exactly the bytes of the interval outside the region, inside it, non-empty and apart |
| `Intervals.SubtractRegion` | gperftools-metalloc/src/heap-checker.cc:1184-1220 | one region off every interval: coverage exact, pieces non-empty and pairwise apart if they began so |
| `Intervals.Subtract` | gperftools-metalloc/src/heap-checker.cc:1158-1221 | all selected regions in turn: exactly the original bytes in none of them, still non-empty and pairwise apart |

## Left out

- PageHeaps.PageHeap.AllocLarge: does not claim the assertion that no normal span fits once the limit cannot be met, because pages taken for metadata may exceed the limit, as the code's own note says.
- PageHeaps.PageHeap.IncrementalScavenge: the delay computed in floating point from the release rate is any bounded number.
- SpanMetadata.SpanSource.Populate: covers spans of small objects; entries made for large objects, stacks and globals are not part of this model.
- CentralLists.CentralList.Populate: with other threads at work it does not say that the new objects are still there, because they may take them first.
- CentralLists.CentralList.constructor: a batch of 0 is excluded, because the original divides by it.
- CentralLists.CentralList.TakeSpan: takes from the page heap what `HeldByHeap` derives from its layout (spans apart, every page leading to its span) instead of running the page heap inside every list operation.
- PageHeaps.PageHeap.New: success is promised without a heap limit; under one it is promised of `GrowHeap` only, because the search after it may meet a returned span first and release the new pages for it in vain.
- CentralLists.CentralList.MakeCacheSpace: whether an entry can be taken from another size class is a parameter here; the classes together are `TransferCache.dfy`.
- AddressMap.Map.Insert: entries and clusters are sequences; recycling of entry memory through the free list is not modelled.
- PageMaps.PageMap3.Ensure: the lengths of nodes and leaves are any positive numbers; that they are powers of two is not used.
- MetaPagetable.SetThenGet: is about configured pages and shifts below 31; a zero entry, where `metaget` for slots below 8 bytes returns an uninitialised value, and larger shifts, where the setter's shift of an `int` is undefined, are outside it.
- MetaPagetable.Metadata.MetaSet: as `SetThenGet`, takes shifts below 31.
- SizeMap.SpanBytes: loops that need not end are followed for a given number of rounds, wrapping at 2^64 as the original does; the contract says when they have ended.
- SizeMap.BuildClasses: does not show that the number of classes is the configured constant, which the original tests at start-up; nor a waste bound, which the 32-page minimum overrides.
- LeakChecker.Checker.RecordAlloc: per-call-stack statistics are not kept.
- UseGraph.IsSafeStackAlloca: what scalar evolution says of an access, and call attributes, are part of the graph.
- FreeQueues.Reclaimer.ProcessFreeQueue: byte counts do not wrap at 2^64, other threads take finitely many steps during a call, and the check for writes to freed blocks is not modelled.
- ProfileData.Collector.Stop: the memory map appended to the file is opaque text.
- Thread caches, sampling, hooks, statistics and the C++ front end of the allocator: many small operations over the parts modelled here.
- `metadata_page_heap`, fixed compression and deep metadata: variants of the page heap and of the metadata lookup that depend on constants this repository does not show, or that scale setter and getter differently.
- `memory_region_map.cc`: its removal is not an exact set difference; the subtraction in the leak checker is modelled instead.
- The instrumentation itself (building instructions, pointer logging, loop heuristics): it targets a run-time library that is not part of this model.
- Operating-system plumbing, `/proc` parsing, logging, benchmarks and scripts.
- Real-time behaviour: locks are fair only in that some busy thread can always step (`TransferCache.NoDeadlock`).
