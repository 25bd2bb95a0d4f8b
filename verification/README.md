# A verified model of the IO Catcher

The IO Catcher is a write-back cache in front of a remote object store. Clients read, write, flush and copy byte ranges of
objects over libfabric; the server keeps segments of the objects in (possibly persistent) memory, shares segment buffers
between objects after a copy-on-write, and writes dirty segments back on a flush. This project models that server and the
protocols around it in Dafny and proves what they promise. `dafny verify dfyconfig.toml` checks everything.

## What is proved

**The cache refines a flat store.** `FlatStore` describes what clients should see: flat byte objects, of whose caching only
the ranges and flags of segments show, not buffers and sharing. `Cache.CacheServer.RunAll` proves that requests (eager and RDMA
writes, reads, flushes, full and range copies on any number of objects) are served as a run of the flat store up to the first
one that goes wrong, and that this one is outside `InScope`, or it is one that `NeedsStorage` and a storage call has failed. Both
are conditions on the state before the request; without a storage failure exactly the requests in scope go well. From this follow, for whole runs: `RunIsolated` (objects that share buffers stay isolated),
`LastWriteRead` and `FreshWriteReads`, `LastWriteCopied` (everything written before a copy is in the copy), `CopyFlushed` (and in its
storage once it is flushed, if the segments could be shared), `SnapshotStable`,
`RunSafe` (when the write-back invariant is kept, step by step an if and only if) and `DurableAfterFlush`. The proof rests on
one invariant of the shared heap (`SharedHeap.Inv`): every segment map is keyed by last byte, disjoint and block-aligned, no slot
dangles, nothing leaks, and each reference count is the number of owning slots.

**Protocols around it.** The client connection pool under every interleaving; the range-lock tracker and its clean-up while
another thread serves messages; the RDMA fan-out with completions in any order and one acknowledgement; the completion-queue
cache and its counter; the allocator stack (balance over free lists over NVDIMM files); the registered-memory index; the wire
format; and the maximum bipartite matching of the vendored googlemock.

**How the model is laid out.** All state of a server (objects, their segment maps, reference-counted buffers) is in one class,
`CacheServer`, whose fields are maps that the methods reassign; a segment map is the `std::map` of an object, `Heap` the buffers
with their `shared_ptr` counts, and the ghost field `owners` records which slots hold each buffer. A segment carries the size
that the source keeps in the shared control block; the invariant says they agree. `LowerBound` stands for `lower_bound` and for
iterator increments. Lemmas about one step live in the module of the concept they are about (`SegmentIndex`, `Shapes`,
`GapFilling`, `SegmentLoading`, `ViewUpdates`, `WriteBack`, `Flushing`, `CopyOnWrite`, `RangeCow`, `RangeWalk`, `RequestExact`),
methods in `Cache`, and runs of the server on failing inputs in `Witnesses`. The storage answers each call as an arbitrary
function `outcome` says, which makes it succeed or fail after some bytes, and its ghost counter `failures` lets contracts say
what cannot go wrong unless a call fails; memory comes from arbitrary fresh addresses with arbitrary former content.

## Where the code does less than it intends

Each of these is stated as the code behaves, with the exact condition where it is right and an input where it is not.

- A flush clears the dirty flag of a segment even if writing it failed. The write-back invariant survives if and only if the storage holds what was to be written (`ClearedIff`, `FlushSafeIff`); which bytes reach the storage is exact (`Flush`, `Stores`). `FailedFlushLosesData` runs a write, a refused flush and an acknowledged one, after which the storage does not hold the data.
- The copy length of a range copy ignores where in the destination segment the copy starts. A request overruns a buffer if and only if `RangeOverruns` holds of source and destination before it (`MakeObjectRangeCow`, per segment `FirstSegmentFits` and `CopyPart`); a new destination is always safe (`FreshNeverOverruns`); `RangeCopyOverruns` runs into it.
- A range copy does not mark what it copied as dirty. It keeps the write-back invariant of its destination if and only if every source segment in the range is shared and dirty, shared and already stored there, or copied under dirty segments or over equal stored bytes (`MakeObjectRangeCow`, `RangeCopyWriteBackIff`, `RangeCopySafeIff`); in `RangeCopyLosesData` every request is acknowledged and the data never reaches the storage.
- A full copy of an object onto itself deletes it first: the null pointer it leaves is dereferenced (`NullDereference`) if and only if the object exists and the request allows that (`MakeObjectFullCow`). A full copy shows the source only up to its last cached byte and the destination's own stored bytes beyond (`FullCowStep`).
- A write tolerates a failed load. It calls the storage if and only if `NeedsLoad` holds of the segments before it, that is, if and only if some byte of its first or last block is neither cached nor written (`WriteMessage`, `NeedsLoadIff`). Where it does not hold, the write changes exactly its own bytes whatever the storage does; where it holds, such a byte shows what a call read, or former memory content from where that call failed (`LeftBytes`, `FailedLoadShows`), and all other bytes are right (`PatchedCached`). `FailedLoadSpoils` is an acknowledged write that spoils its neighbour.
- A range copy is acknowledged even if a load fails. It calls the storage if and only if `RangeLoads` holds of the segments before it, and it is complete if and only if none of these calls fails; otherwise exactly the source segments whose load failed are missing from the copy (`MakeObjectRangeCow`). `FailedCopyAcknowledged` runs into it.
- The eager reply to a read of at most 32 KiB never advances its fragment index. It is right if and only if one segment serves the request (`EagerReplyExactIff`), that is, if and only if before the request no segment overlaps the aligned range or one contains it (`OneSegmentIff`, `ReadMessage`). Otherwise the reply starts with the bytes of the last segment (`EagerReplyStarts`); in `ShortReadGarbled` it starts with the second byte that was written.
- The iovec entries are cut with 32-bit `int`s. They are right if and only if what is cut off fits one (`BuildIovec`), told from the segments before the request (`CutsFitIff`); `LongSegmentCutWrong` runs two writes of which the second is cut wrong.
- An RDMA transfer is acknowledged if and only if it has a segment (`SingleAck`, `FetchByRdma`), which for a write is told from the segments before it (`NothingThereIff`, `WriteMessage`).
- `pollMessage` does not count down for completions sent without wake-up. In every run the counter of pending actions is exact if and only if no round of `pollMessage` took one (`CounterExactIff`), and after one it never reaches zero again (`WaitNeverEnds`); `CounterGoesWrong` is a run.
- If the authentication check and the registration of a range were separate steps, a range could outlive its client for ever (`SplitCheckLeaks`, `OrphanStays`); `LateRegisterIff` says exactly when a late registration is harmless.
- Registering a memory region checks only that its first byte is free; `RegisterKeepsIff` and `StepFoundIff` say what is needed, `StartCheckIsNotEnough` shows the difference.
- A message comes back if and only if its data has the announced size (`MessageRoundTrip`). `computeSize` does not count strings (`SizeExact`); a string with a NUL inside is cut (`NulTextIsCut`); fragments come back if and only if their sizes add up to the announced one (`FragmentsRoundTrip`).
- The first NVDIMM file is eight times the first request whatever the limit (`OpenNewFile`).
- The overlap test of range locks treats an empty range that starts inside another one as a conflict (`OverlapExact`).

## Model

| member | source | states |
|---|---|---|
| `Cache.CacheServer.RunAll` | src/server/hooks/HookObjectWrite.cpp:142-177 | over every sequence of requests and every choice of failing storage calls, those served before the first that goes wrong are a run of the flat store, all in scope, and the last state is the abstraction of the server; the first that goes wrong is out of scope, or needs the storage (a write or a range copy that has to load, a full copy) and a call has failed; without a failure no read, write or flush is refused |
| `Cache.CacheServer.Execute` | src/server/hooks/HookObjectCow.cpp:26-58 | one request keeps the heap invariant while the process lives; it is a step of the flat store, reply included, only if in scope, and always if in scope and no storage call fails or it does not need the storage; a read is refused if and only if one of its calls fails; a flush makes one call per selected segment, stores exactly what they reach and is acknowledged if and only if none fails |
| `FlatStore.RunIsolated` | src/server/core/ObjectSegment.cpp:125-164 | over any part of a run, a byte that no request targets keeps its value, however buffers were shared or made private |
| `FlatStore.LastWriteRead` | src/server/hooks/HookObjectRead.cpp:158-190 | a read that is not refused returns at every byte the data of the last write to it if the segments before the read make it exact, and a garbled reply otherwise |
| `FlatStore.FreshWriteReads` | src/server/hooks/HookObjectRead.cpp:158-190 | after a write into a range without segments, every later short read in its aligned range is exact or refused, whatever ran in between, unless a full copy replaced the object |
| `FlatStore.LastWriteCopied` | src/server/core/Object.cpp:450-512 | a byte written to an object is in every later full copy, and in every later range copy over it, until the byte of the copy is targeted again |
| `FlatStore.CopyFlushed` | src/server/core/Object.cpp:404-438 | over every run: a byte is written, its whole segment is copied before a flush to an object with no segment from there on, or one of its range, and the copy is flushed; from then on the storage of the copy holds the data until the byte is targeted again |
| `FlatStore.CopiedFlag` | src/server/core/Object.cpp:383-439 | a copied byte is dirty as its source segment if that could be shared, and as the destination was otherwise |
| `FlatStore.WriteDirties` | src/server/core/Object.cpp:79-88 | a write makes dirty exactly the bytes of the segments it touches, and leaves all other flags alone |
| `FlatStore.FlushTouches` | src/server/core/Object.cpp:255-268 | a flush of a range cleans exactly the segments with a byte in it; all others keep flag and stored bytes |
| `FlatStore.SnapshotStable` | src/server/core/Object.cpp:477-512 | later writes to source or copy do not reach the other; the copy shows the source up to its last cached byte |
| `FlatStore.DurableAfterFlush` | src/server/core/Object.cpp:255-268 | after an acknowledged flush over a byte that was stored or dirty, the byte is stored as seen until it is targeted again, over every run |
| `FlatStore.StepSafeIff` | src/server/core/Object.cpp:79-88 | an object whose clean bytes are all stored stays so over a request if and only if the request is not a failed flush of it that left a byte unwritten or a range copy into it of bytes that are neither stored nor dirty |
| `FlatStore.RunSafe` | src/server/core/Object.cpp:79-88 | the same over every run |
| `FlatStore.FlushSafeIff` | src/server/core/Object.cpp:255-268 | a flush keeps the write-back invariant if and only if every byte it was to write is stored; an acknowledged one always does |
| `FlatStore.RangeCopySafeIff` | src/server/core/Object.cpp:383-439 | a range copy keeps the write-back invariant of its destination if and only if each copied byte is stored there already or dirty afterwards |
| `Refinement.SafeIsWriteBack` | src/server/core/Object.cpp:255-268 | the invariant in bytes is the invariant in segments: each non-dirty segment holds exactly its stored bytes |
| `Refinement.RangeCopyWriteBackIff` | src/server/core/Object.cpp:383-439 | on the segments before a range copy: it keeps each clean destination segment equal to its storage if and only if every source segment is shared and dirty or stored, or copied under dirty segments or over equal stored bytes |
| `Refinement.ReadEffect` | src/server/core/Object.cpp:133-206 | fetching for a read changes no view of any object |
| `Cache.CacheServer.GetBuffers` | src/server/core/Object.cpp:133-206 | keeps the heap invariant; on success returns a sorted, gapless list of exactly the segments overlapping the aligned range, which they cover; buffers for writing have one owner; cached bytes and other objects are kept; loaded segments hold what their call read, and agree with the storage if it succeeded; a write makes no call unless `NeedsLoad` held before and never fails; any other request makes one if and only if the range was not covered, and fails if and only if a call does |
| `Cache.CacheServer.Collect` | src/server/core/Object.cpp:147-161 | the `lower_bound` walk lists in order exactly the overlapping segments, and makes each private if it will be written; a read changes nothing, and segments outside the range keep their slots |
| `Cache.CacheServer.VisitSegment` | src/server/core/Object.cpp:148-160 | a shared segment is copied before it is handed out for writing; nothing else of the map changes, and nothing at all for a read or for a buffer with one owner |
| `Cache.CacheServer.FillGap` | src/server/core/Object.cpp:166-178 | one gap gets one segment, and one call is made unless a write covers the gap entirely, which it does in every gap unless `NeedsLoad`; a write never fails on a failed load, a read exactly then |
| `Cache.CacheServer.FillGaps` | src/server/core/Object.cpp:163-199 | after one load per gap the aligned range is covered, each new segment holding what its call read; a read makes a call if and only if the range was not covered, and stops with the invariant intact if and only if one fails; a write makes none unless `NeedsLoad` |
| `SegmentIndex.WalkDone` | src/server/core/Object.cpp:148-161 | the walk over end keys stops with exactly the segments a linear scan finds, in order |
| `SegmentIndex.WalkEnds` | src/server/core/Object.cpp:464-467 | past a segment that does not overlap the range, none does |
| `SegmentIndex.OverlapIff` | src/server/core/ObjectSegment.cpp:92-96 | the overlap test of a segment and a range means a common byte |
| `SegmentIndex.ListingTiles` | src/server/core/Object.cpp:201-205 | a sorted listing of the segments of a covered range has exactly adjacent neighbours and reaches from start to end |
| `SegmentIndex.AlignedRange` | src/server/core/Object.cpp:139-145 | the aligned range starts and ends on blocks and contains the request |
| `GapFilling.GapIsFree` | src/server/core/Object.cpp:164-180 | no segment lies between consecutive listed ones |
| `RequestCover.TilesServe` | src/server/core/Object.cpp:133-206 | a tiling of the aligned range serves the request itself: each segment touches it, an empty request gets at most one |
| `SegmentLoading.FetchedView` | src/server/core/Object.cpp:221-247 | with successful loads, fetching shows the same bytes except those a write is about to replace |
| `Cache.CacheServer.LoadSegment` | src/server/core/Object.cpp:221-247 | an uncached range becomes one clean private segment indexed by its last byte, holding the stored bytes as far as the load got and former memory content beyond; one call is made if a load is asked for and none otherwise; a load is refused if and only if it fails and failure is not accepted, and then leaves no trace |
| `Cache.CacheServer.ApplyCow` | src/server/core/ObjectSegment.cpp:136-155 | the slot gets a private buffer with the same bytes; every other slot, object and buffer keeps its content |
| `SharedHeap.SoleOwner` | src/server/core/ObjectSegment.cpp:161-164 | a buffer with a use count of one is held by one slot of one object only |
| `SharedHeap.DroppedSlotKeepsHeap` | src/server/core/ObjectSegment.cpp:40-48 | giving up a slot frees the buffer exactly when it was the last owner |
| `SharedHeap.ViewCached` | src/server/core/Object.cpp:241-246 | a byte in a segment is seen from that segment: no two segments disagree |
| `Cache.CacheServer.CopyInto` | src/server/hooks/HookObjectWrite.cpp:127-131 | a copy into a private buffer changes exactly those bytes of that object's view |
| `Cache.CacheServer.EagerExtract` | src/server/hooks/HookObjectWrite.cpp:101-139 | scattering sets exactly bytes [offset, offset+size) of the object's view to the data; every other byte of every object is unchanged |
| `Cache.CacheServer.FetchGroup` | src/server/hooks/HookObjectWrite.cpp:57-86 | filling the entries of one group sets exactly the bytes of that group |
| `Cache.CacheServer.FetchByRdma` | src/server/hooks/HookObjectWrite.cpp:43-91 | groups completing in any order end in exactly the write that was asked for, with one acknowledgement unless there is no segment |
| `RdmaFetch.AllArrived` | src/server/hooks/HookObjectWrite.cpp:54-86 | when no group is pending, every byte of the request has arrived |
| `RdmaFetch.GroupArrived` | src/server/hooks/HookObjectWrite.cpp:66-81 | whichever group arrives next, the arrived bytes are in place and no others changed |
| `Cache.CacheServer.MarkDirty` | src/server/core/Object.cpp:79-88 | exactly the segments that start before the end of the range and end after its start become dirty; nothing else changes |
| `Cache.CacheServer.WriteMessage` | src/server/hooks/HookObjectWrite.cpp:142-177 | a write marks exactly what it touches and fills the gaps of its aligned range; it calls the storage if and only if `NeedsLoad` held of the segments before; if not, or if no call fails, it sets exactly its bytes in every view whatever the storage does; else the bytes left to load, and no others, may be former memory content, exactly where the calls did not get; the RDMA path is right if and only if the cuts told from the segments before fit an `int`, and is acknowledged once unless no segment serves the request, then never |
| `Cache.CacheServer.Transfer` | src/server/hooks/HookObjectWrite.cpp:160-165 | the data is put in place from the message or by RDMA, the latter exactly if every entry fits |
| `WriteBack.WriteEffect` | src/server/core/Object.cpp:79-88 | fetch, patch and mark together change the views by the write alone |
| `WriteBack.AgreesByView` | src/server/core/Object.cpp:258-263 | a segment agrees with the storage if and only if the view does on its bytes |
| `Shapes.NeedsLoadIff` | src/server/core/Object.cpp:139-197 | the condition on the two ends of the aligned range holds if and only if some byte of it is neither cached nor written |
| `SegmentLoading.GapInside` | src/server/core/Object.cpp:169-197 | if it does not hold, every gap of the aligned range lies inside the write, so none is loaded |
| `WriteBack.WriteLoads` | src/server/core/Object.cpp:221-247 | every byte left to load shows what one of the calls of the write read, or former memory content where it did not get; if there is such a byte, there was a call |
| `WriteBack.FailedLoadShows` | src/server/core/Object.cpp:226-240 | the converse: where `NeedsLoad` holds and the calls fail at once, some byte outside the write shows former memory content |
| `Witnesses.FailedLoadSpoils` | src/server/core/Object.cpp:226-240 | on a fresh server with blocks of two bytes, a write of one byte whose load fails is acknowledged, and the byte beside it shows what the memory held before in place of the stored one |
| `Cache.CacheServer.FlushSegment` | src/server/core/Object.cpp:259-265 | no view changes; a chosen segment takes one call and the storage gets it as far as the call reaches, any other segment takes none; the flag is cleared whatever the result |
| `Cache.CacheServer.Flush` | src/server/core/Object.cpp:255-268 | exactly the dirty segments in the range become clean and no view changes; one call is made for each of them, in the order of their keys, exactly the bytes these calls reach are stored, as seen, and the result is good if and only if none of them fails |
| `Shapes.QuietStores` | src/server/core/Object.cpp:255-268 | if none of its calls fails, a flush stores exactly the bytes it selects |
| `Flushing.ClearedIff` | src/server/core/Object.cpp:261-263 | clearing a flag keeps the write-back invariant if and only if the storage now holds the segment's bytes |
| `Witnesses.FailedFlushLosesData` | src/server/core/Object.cpp:261-263 | from a fresh server whose first storage call fails: a write, a refused flush and an acknowledged flush, after which clients see the data and the storage does not hold it |
| `Cache.CacheServer.GetObject` | src/server/core/Container.cpp:71-84 | an unknown object is created empty; nothing else changes |
| `Cache.CacheServer.OpenRange` | src/server/hooks/HookObjectRead.cpp:158-181 | the object, created if it is new, and the segments that serve the range; whether there is none, at most one, or one whose cut does not fit, is told from the segments before; a read breaks no sharing |
| `RequestExact.NothingThereIff` | src/server/core/Object.cpp:133-206 | no segment serves a request if and only if its aligned range is empty and inside no segment |
| `Cache.CacheServer.DeleteObject` | src/server/core/ObjectSegment.cpp:40-48 | every slot gives up its reference; buffers of other objects survive unchanged |
| `CopyOnWrite.SurvivingView` | src/server/core/ObjectSegment.cpp:40-48 | an object that kept its slots keeps its view while other owners let go |
| `Cache.CacheServer.ShareSegment` | src/server/core/ObjectSegment.cpp:125-130 | the new slot shares the buffer, whose count goes up; no byte changes |
| `Cache.CacheServer.MakeCowSegment` | src/server/core/StorageBackend.cpp:26-68 | the stored range of the destination becomes the source's, by one read and one write; no other stored byte changes; it fails if and only if one of them does |
| `Cache.CacheServer.CopySegment` | src/server/core/Object.cpp:488-507 | one round extends the finished part of the copy to the end of the segment: two calls if a gap comes before it, one if it is clean; it fails if and only if a call does |
| `Cache.CacheServer.CopySegments` | src/server/core/Object.cpp:486-508 | the loop ends with every segment of the source shared, every gap copied on the storage, every clean segment written out |
| `CopyOnWrite.CopyShows` | src/server/core/Object.cpp:486-511 | the finished copy shows the source below the end of its last cached segment and its own storage beyond |
| `CopyOnWrite.FullCowViews` | src/server/core/Container.cpp:173-202 | the copy has the source's segments and bytes, its storage changes only below their end and not under dirty ones; every other view and stored byte is unchanged |
| `Cache.CacheServer.MakeObjectFullCow` | src/server/core/Container.cpp:173-202 | each outcome if and only if its condition holds; a refusal changes nothing; a finished copy shows the source up to its last cached byte, has its segments, changes no other object, and of what it shows exactly the bytes that are not dirty get stored; it makes one call to create the copy, two for each gap before a segment and one for each clean segment, and aborts if and only if one of them fails, a failed creation only if the copy may not exist |
| `RangeCow.FirstSegmentFits` | src/server/core/Object.cpp:415-427 | the first `memcpy` of a range copy stays in its buffer if and only if the destination met `CopyFits` before the call |
| `Cache.CacheServer.CopyRange` | src/server/core/Object.cpp:418-433 | the copy loop stays in its buffers if and only if the first segment starts at the copy or holds all of it, and then writes exactly the data |
| `Cache.CacheServer.ShareInto` | src/server/core/Object.cpp:434-438 | the slot is replaced or created by the shared segment; a buffer it held is freed only if nobody else holds it |
| `Cache.CacheServer.CopyPart` | src/server/core/Object.cpp:409-433 | copies exactly the given bytes, fails as a whole if and only if a load fails, calls the storage if and only if the destination lacks part of the aligned range, overruns a buffer if and only if `CopyFits` was false, and leaves destination segments from the end of the source segment on alone |
| `Cache.CacheServer.RangeCopySegment` | src/server/core/Object.cpp:383-439 | the segment is shared, buffer and flag included and without a call, if and only if it lies in the range and the destination has no segment from its start on or one of its range; otherwise the destination keeps its flags; either way exactly the overlap of segment and range now shows the source, with the flag of a shared segment; overrun if and only if `Overruns`; calls the storage if and only if `CopyLoads`, and copies nothing if and only if one of the calls fails |
| `RangeWalk.RangeStateStep` | src/server/core/Object.cpp:463-467 | what each round does to its segment, whether it loads and whether it overruns, is what the destination before the whole request asked for |
| `Shapes.MustCopyIff` | src/server/core/Object.cpp:387-413 | a segment is shared if and only if it lies in the range and the destination has no segment that ends at or after its start, or has one with exactly its range |
| `RangeWalk.SlotsByRange` | src/server/core/Object.cpp:434-438 | what a finished range copy did to each slot of the destination, told from the ranges of the segments before it |
| `RangeWalk.SharingNeedsNoLoad` | src/server/core/Object.cpp:404-438 | if every segment of the range can be shared, the copy does not need the storage |
| `RangeWalk.RangeSkips` | src/server/core/Object.cpp:415-433 | a round whose load failed leaves all that was copied before in place and copies nothing of its own segment |
| `RangeWalk.AccountedEnds` | src/server/core/Object.cpp:463-467 | over the whole walk, the storage is called if and only if some segment had to load, and a segment is missing if and only if a call failed |
| `Cache.CacheServer.RangeCopyRound` | src/server/core/Object.cpp:463-467 | one round of the walk extends what is copied, what is missing and which calls were made by its segment |
| `Cache.CacheServer.RangeCopyOnWrite` | src/server/core/Object.cpp:450-468 | exactly the bytes of the range that the source has cached, except in the segments whose load failed, now show the source and are cached; only segments whose copy had to load can fail, and none does if and only if no call fails; without a load failure the request overruns a buffer if and only if `RangeOverruns` held before it |
| `Cache.CacheServer.SelfCopySegment` | src/server/core/Object.cpp:383-439 | copying a segment of an object onto itself changes no byte and no range and makes no call; a segment inside the range is left alone, any other gets a private buffer |
| `Cache.CacheServer.RangeCopyOntoItself` | src/server/core/Object.cpp:450-468 | a range copy of an object onto itself changes no view and makes no call |
| `Cache.CacheServer.MakeObjectRangeCow` | src/server/core/Container.cpp:134-163 | refused if and only if the source is missing or the destination exists and may not; otherwise every source segment in the range for which the destination had no segment from its start on, or one of its range, is in the destination's slot, buffer and flag included, and every other slot keeps its flag; the copy is exact but for the source segments whose load failed, other views are kept, the storage is called if and only if `RangeLoads` held before, nothing is missing if and only if no call fails, a buffer is overrun only if `RangeOverruns` held before, always then unless a load fails, and the write-back invariant of a complete copy is kept if and only if `AllSegmentsStored` held before |
| `RangeWalk.FreshNeverOverruns` | src/server/core/Object.cpp:401-433 | a new destination takes every range copy |
| `Witnesses.RangeCopyOverruns` | src/server/core/Object.cpp:418-427 | two writes and a range copy that writes past the end of a buffer |
| `Witnesses.RangeCopyLosesData` | src/server/core/Object.cpp:434-438 | from a fresh server, without a storage failure: a write, its flush, a range copy and a flush of the copy are all acknowledged, and the storage of the copy does not hold the data |
| `Witnesses.RangeCopyStoresData` | src/server/core/Object.cpp:434-438 | from a fresh server: a write, a range copy of the dirty segment into a new object and a flush of the copy, after which the storage of the copy holds the data |
| `Witnesses.FailedCopyAcknowledged` | src/server/core/Object.cpp:413-433 | from a fresh server whose first storage call fails: a write and a range copy of part of it, both acknowledged, after which the copy does not show the data |
| `Cache.CacheServer.ReadMessage` | src/server/hooks/HookObjectRead.cpp:158-190 | no client sees a change and every slot keeps its buffer; the storage is called if and only if the aligned range was not covered, and the read is refused if and only if a call fails; the reply holds exactly the requested bytes of the view if and only if `ReadExact` held of the segments before (one segment for a short read, cuts that fit for a long one), and an inexact short reply starts with the bytes of the last segment |
| `Cache.CacheServer.BuildReply` | src/server/hooks/HookObjectRead.cpp:175-181 | the reply is exact if and only if a short read has at most one segment, or every entry of a long one fits; an inexact short reply starts with the requested bytes of the last segment, which does not hold the first of them |
| `RequestExact.OneSegmentIff` | src/server/core/Object.cpp:133-206 | `getBuffers` returns at most one segment if and only if before it no segment overlaps the aligned range or one contains it |
| `RequestExact.CutsFitIff` | src/server/core/Object.cpp:345-359 | all iovec entries of a request are exact if and only if the cuts told from the segments before it fit an `int` |
| `RequestExact.ShortCutsFit` | src/server/core/Object.cpp:348-359 | with segments and aligned requests below 2^31 bytes, every RDMA request is in scope |
| `Witnesses.ShortReadGarbled` | src/server/hooks/HookObjectRead.cpp:118-145 | writes of 1 and 2 to neighbouring bytes and a read over both, from a fresh server: the reply starts with 2 |
| `Witnesses.LongSegmentCutWrong` | src/server/core/Object.cpp:348-359 | on a fresh server, after an RDMA write of 2^31 + 1 bytes, an RDMA write of the last of them is cut wrong |
| `ScatterGather.BuildIovec` | src/server/core/Object.cpp:345-371 | an entry is the segment without what is cut off at either end, each cut taken modulo 2^32 as an `int`; it is the exact intersection of segment and request if and only if both cuts fit an `int` |
| `ScatterGather.BuildEntry` | src/server/core/Object.cpp:348-359 | one round of the loop: the same for a single entry |
| `ScatterGather.GatherExact` | src/server/core/Object.cpp:345-371 | the clamped entries concatenate to exactly bytes [offset, offset+size) of the view |
| `ScatterGather.ShortSegmentsFit` | src/server/core/Object.cpp:348-359 | segments below 2^31 bytes always fit |
| `ScatterGather.EagerPush` | src/server/hooks/HookObjectRead.cpp:109-155 | only the first fragment is ever written, and it ends as that of the last segment |
| `ScatterGather.EagerReplyExactIff` | src/server/hooks/HookObjectRead.cpp:118-145 | the eager reply is right for every content of the fresh array if and only if at most one segment serves the request |
| `ScatterGather.EagerReplyStarts` | src/server/hooks/HookObjectRead.cpp:118-145 | with several segments, the eager reply starts with the requested bytes of the last one, whatever the fresh array held |
| `RdmaFanOut.BuildPlan` | src/server/hooks/HookObjectRead.cpp:43-99 | the counter is the number of groups, all but the last have four entries, and they land one after the other and carry all the data |
| `RdmaFanOut.CountGroups` | src/server/hooks/HookObjectRead.cpp:50-53 | the counter starts with the number of groups of four |
| `RdmaFanOut.LandOnce` | src/server/hooks/HookObjectRead.cpp:60-92 | no two groups overlap in the client's memory |
| `RdmaFanOut.SingleAck` | src/server/hooks/HookObjectRead.cpp:66-88 | in every run of issues and completions in any order, at most one acknowledgement is sent, exactly when all groups have finished and there was one, and the counter is alive while any is outstanding |
| `RdmaFanOut.AckMeansDelivered` | src/server/hooks/HookObjectRead.cpp:43-99 | at the acknowledgement the client's memory holds exactly the data and nothing else of it changed |
| `RdmaReply.ReadDelivered` | src/server/hooks/HookObjectRead.cpp:43-99 | end to end: at the acknowledgement the client's buffer holds exactly the requested bytes of the object's view |
| `BipartiteMatching.MaxBipartiteMatchState.TryAugment` | extern-deps/googletest-release-1.10.0/googlemock/src/gmock-matchers.cc:180-206 | failure changes nothing and exhausts everything reachable; success keeps the arrays mutually inverse and takes only `ilhs` from unused to used; a search that starts in exhausted nodes fails; terminates as unseen nodes shrink |
| `BipartiteMatching.MaxBipartiteMatchState.Compute` | extern-deps/googletest-release-1.10.0/googlemock/src/gmock-matchers.cc:130-161 | the result is a matching of the graph, and no matching has more edges, although each left node is tried once |
| `BipartiteMatching.LinkFreed` | extern-deps/googletest-release-1.10.0/googlemock/src/gmock-matchers.cc:197-202 | relinking a right node whose partner found another one keeps the two arrays inverse |
| `BipartiteMatching.MatchingBound` | extern-deps/googletest-release-1.10.0/googlemock/src/gmock-matchers.cc:133-146 | every matching charges its edges to distinct edges of the result |
| `ConnectionPool.PoolSafe` | src/client/ioc-client.cpp:52-104 | under every interleaving at most eight connections exist, none is held by two threads, and a held one is marked used |
| `ConnectionPool.FiniSeesAllIdle` | src/client/ioc-client.cpp:129-150 | when `ioc_client_fini` has all permits, no connection is in use and no thread is inside the pool |
| `ConnectionPool.InUseAtLock` | src/client/ioc-client.cpp:52-90 | a thread that starts its scan finds at most seven connections in use |
| `ConnectionPool.NewOnlyIfBusy` | src/client/ioc-client.cpp:64-90 | a connection is created only if every existing one was in use when the scan began |
| `ConnectionPool.NextOk` | src/client/ioc-client.cpp:52-104 | every step of every thread keeps the pool invariant, the unlocked release during a scan included |
| `RangeLocks.OverlapExact` | src/server/core/ConsistencyTracker.cpp:121-128 | the test holds exactly for a common byte or an empty range that starts in the other one |
| `RangeLocks.ConflictExact` | src/server/core/ConsistencyTracker.cpp:43 | two ranges conflict if and only if they meet and one of them is for writing |
| `RangeLocks.WritersExclusive` | src/server/core/ConsistencyTracker.cpp:39-50 | a byte registered twice is registered for reading only |
| `RangeLocks.ConsistencyTracker.HasCollision` | src/server/core/ConsistencyTracker.cpp:39-50 | true if and only if a registered range has a byte in common with the given one, or one of the two is empty and starts inside the other, and one of the two is for writing |
| `RangeLocks.ConsistencyTracker.RegisterRange` | src/server/core/ConsistencyTracker.cpp:60-83 | fails if and only if such a range is registered, and then changes nothing; otherwise adds the range under a new identifier; readers always get their range among readers; exclusivity is kept |
| `RangeLocks.ConsistencyTracker.UnregisterRange` | src/server/core/ConsistencyTracker.cpp:94-110 | removes exactly the matching range, if there is one |
| `RangeLocks.ConsistencyTracker.ClientDisconnect` | src/server/core/ConsistencyTracker.cpp:136-156 | the remaining ranges are those of other clients, in order, still exclusive |
| `RangeLocks.WithoutContents` | src/server/core/ConsistencyTracker.cpp:142-154 | disconnecting removes a client's ranges and no others |
| `Disconnect.NoLeftovers` | src/server/core/Server.cpp:269-288 | in every run, each range belongs to a registered client or one whose disconnect is in progress, so none remains when it has finished |
| `Disconnect.LocksHold` | src/server/core/Container.cpp:107-111 | in every run, with clients coming and going, a byte locked for writing is locked once and identifiers are unique |
| `Disconnect.CollidesExact` | src/server/core/ConsistencyTracker.cpp:39-50 | the tracker of an object refuses a range if and only if it meets a registered one and one of the two is for writing |
| `Disconnect.ReadersShare` | src/server/core/ConsistencyTracker.cpp:60-83 | a client that locks for reading an object without writers gets its range, whatever other readers hold |
| `Disconnect.ConflictRefused` | src/server/core/ConsistencyTracker.cpp:60-83 | a range that has a byte in common with a registered one, one of the two for writing, leaves the locks alone |
| `Disconnect.NextOk` | src/server/hooks/HookRangeRegister.cpp:28-61 | every step, also one that creates an object during the walk of a disconnect, keeps the ownership invariant |
| `Disconnect.LateRegisterIff` | src/base/network/LibfabricConnection.cpp:764-789 | executing a message checked earlier keeps the invariant if and only if the client is still registered, its walk has yet to reach the object, or the range is refused |
| `Disconnect.SplitCheckLeaks` | src/base/network/LibfabricConnection.cpp:764-789 | a run, with check and registration as separate steps, that leaves a range of a client that is gone |
| `Disconnect.OrphanStays` | src/server/core/ConsistencyTracker.cpp:94-156 | a range of a client that is neither registered nor leaving stays in every continuation |
| `NvdimmGrowth.MemoryBackendNvdimm.OpenNewFile` | src/server/backends/MemoryBackendNvdimm.cpp:76-125 | the new file has room for the request; it is eight requests at first, then twice the last file, at most 32 GiB, rounded up to whole requests |
| `NvdimmGrowth.MemoryBackendNvdimm.Allocate` | src/server/backends/MemoryBackendNvdimm.cpp:133-162 | the room assertion never fires; a new file is opened exactly when the chunk does not fit; every chunk is in its file, on pages and disjoint from all others |
| `AllocatorStack.MemoryBackendBalance.Allocate` | src/server/backends/MemoryBackendBalance.cpp:60-86 | the chunk comes from the first least used backend and is held by nobody; if that backend tracks a chunk of the size that nobody holds, it is such a chunk and no mapping is made, otherwise it is a new mapping; exactly one counter grows by its size; the free list loses its head and no other list changes |
| `AllocatorStack.MemoryBackendBalance.CacheAllocate` | src/server/backends/MemoryBackendCache.cpp:80-104 | a spare chunk of the size is reused, the head of its free list; a new one is mapped if and only if there is none |
| `AllocatorStack.SpareIff` | src/server/backends/MemoryBackendCache.cpp:80-125 | the free list of a size has exactly the tracked chunks of that size that nobody holds |
| `AllocatorStack.Recycle` | src/server/backends/MemoryBackendCache.cpp:80-125 | a chunk that is given back is the next one of its size its backend hands out, without a mapping |
| `AllocatorStack.RecycleAll` | src/server/backends/MemoryBackendCache.cpp:80-125 | chunks of one size given back come out in the reverse order, without a mapping |
| `AllocatorStack.MemoryBackendBalance.Deallocate` | src/server/backends/MemoryBackendBalance.cpp:94-114 | an unknown address is refused; otherwise the chunk becomes the head of the free list of its size in its own backend, and exactly that counter shrinks |
| `AllocatorStack.MemoryBackendBalance.LeastUsed` | src/server/backends/MemoryBackendBalance.cpp:65-75 | the first index of a smallest counter: none is smaller, and all before it are larger |
| `AllocatorStack.MemoryBackendBalance.Map` | src/server/backends/MemoryBackendNvdimm.cpp:133-162 | a new mapping overlaps no other and has its own chunk of a file |
| `AllocatorStack.MemoryBackendBalance.RegisterBackend` | src/server/core/Server.cpp:291-310 | adds an empty cache over a new low-level backend with a counter of zero, and changes nothing else |
| `AllocatorStack.PopOk` | src/server/backends/MemoryBackendCache.cpp:80-104 | reusing the head of a free list hands out a chunk nobody holds and keeps the accounting |
| `AllocatorStack.PushOk` | src/server/backends/MemoryBackendCache.cpp:113-125 | a returned chunk is on the free list of its size and held by nobody |
| `AllocatorStack.LiveDisjoint` | src/server/backends/MemoryBackendCache.cpp:80-125 | chunks held by callers are disjoint in memory, within and across backends |
| `AllocatorStack.BackingApart` | src/server/backends/MemoryBackendNvdimm.cpp:133-162 | two mappings never share bytes of an NVDIMM file |
| `AllocatorStack.Conservation` | src/server/backends/MemoryBackendCache.cpp:48-73 | tracked chunks are the held ones plus the free ones; the destructor's check passes if and only if none is held |
| `AllocatorStack.GreedyBound` | src/server/backends/MemoryBackendBalance.cpp:60-86 | over every allocation-only run from equal counters, two backends differ by at most the largest request so far |
| `WireFormat.FieldRoundTrip` | src/base/network/Serializer_inlined.hpp:86-350 | a field read where it was written comes back, and the cursor with it, a string if and only if it has no NUL inside |
| `WireFormat.RoundTrip` | src/base/network/Protocol_inlined.hpp:21-158 | every message of every kind comes back from its packed bytes followed by anything, and the cursor stops at the packed length |
| `WireMessages.PackMessage` | src/base/network/Protocol_inlined.hpp:21-158 | packing a message of any kind gives exactly the bytes of its named fields in their order: integers least significant byte first and in two's complement, flags as one byte, texts with length and NUL, data as it is |
| `WireMessages.MessageRoundTrip` | src/base/network/Protocol_inlined.hpp:21-158 | these bytes, followed by anything, unpack to these fields and up to their end if and only if the data has the announced size (`eagerSize`, `size` or `msgDataSize`) and a text has no NUL inside |
| `WireMessages.MessagesByName` | src/base/network/Protocol_inlined.hpp:21-158 | the complete messages of the description of each kind are exactly the messages by name with data of the announced size |
| `WireMessages.Exchange` | src/base/network/Serializer_inlined.hpp:86-527 | a message packed into a buffer that it fits, and unpacked from there, comes back under the same condition |
| `WireFormat.NulTextIsCut` | src/base/network/Serializer_inlined.hpp:271-350 | an error text comes back if and only if it has no NUL inside |
| `WireFormat.SizeExact` | src/base/network/Serializer_inlined.hpp:621-627 | the computed size is the packed length if and only if the message has no string, and never more |
| `WireMessages.FragmentsRoundTrip` | src/base/network/Protocol_inlined.hpp:120-135 | a response packed from fragments unpacks to their concatenation if and only if their sizes sum to the announced size |
| `WireFormat.PackInto` | src/base/network/Serializer_inlined.hpp:380-527 | packing field by field succeeds if and only if the packed bytes fit, writes exactly them and leaves the rest of the buffer alone |
| `WireFormat.UnpackAll` | src/base/network/Serializer_inlined.hpp:86-527 | reading with a cursor gives what the message description asks for, or stops at the first failed check; what the description asks for is what `WireMessages.MessagesByName` says |
| `CompletionQueue.Connection.PollForCompletion` | src/base/network/LibfabricConnection.cpp:1063-1104 | the oldest cached entry if allowed, else the oldest of the fabric, which it removes |
| `CompletionQueue.Connection.PollAllCqInCache` | src/base/network/LibfabricConnection.cpp:1037-1057 | draining moves every completion to the cache in order |
| `CompletionQueue.Connection.Send` | src/base/network/LibfabricConnection.cpp:361-389 | after any number of refused attempts one more operation is pending; after a refused one the fabric is empty and its completions are behind the cached ones in order, otherwise both are as before |
| `CompletionQueue.Connection.Round` | src/base/network/LibfabricConnection.cpp:647-734 | the oldest completion is taken, its callback issues its operations, and then the counter goes down by one, except for a received message and for a completion without wake-up in `pollMessage` |
| `CompletionQueue.HandledInOrder` | src/base/network/LibfabricConnection.cpp:647-734 | in every run of sends, completions and rounds, each completion is handled once and in the order the fabric produced it, and the counter never goes negative |
| `CompletionQueue.CounterExactIff` | src/base/network/LibfabricConnection.cpp:689-734 | in every run the counter equals operations issued minus completions handled if and only if no round of `pollMessage` before took one without wake-up |
| `CompletionQueue.WaitNeverEnds` | src/base/network/LibfabricConnection.cpp:682-687 | after such a round the counter stays positive in every continuation, so waiting for zero never ends |
| `CompletionQueue.CounterGoesWrong` | src/base/network/LibfabricConnection.cpp:700-731 | a run of three steps after which nothing is outstanding and the counter is one |
| `MemoryRegions.FoundIffRegistered` | src/base/network/LibfabricDomain.cpp:307-321 | the entry `lower_bound` finds holds the address if and only if some registered region does, and it is that one |
| `MemoryRegions.FoundIffAlone` | src/base/network/LibfabricDomain.cpp:307-321 | a region is found at all of its addresses if and only if its entry is in place and no other region ends inside it |
| `MemoryRegions.StepFoundIff` | src/base/network/LibfabricDomain.cpp:169-264 | over one registration or removal a region stays found if and only if the new one ends outside it, or the removed one is another |
| `MemoryRegions.RegionStays` | src/base/network/LibfabricDomain.cpp:169-328 | over every run after a registration, each address of the region is looked up to its own handle, base and size, through any registrations that do not end in it and any removals elsewhere |
| `MemoryRegions.RegisterKeepsIff` | src/base/network/LibfabricDomain.cpp:177-217 | registering a region whose first byte is free keeps the index and all regions if and only if it overlaps none |
| `MemoryRegions.StartCheckIsNotEnough` | src/base/network/LibfabricDomain.cpp:177-180 | two regions that pass the check and break the index |
| `MemoryRegions.LibfabricDomain.GetMR` | src/base/network/LibfabricDomain.cpp:294-328 | finds a region if and only if one holds the address, and then that one with its handle |
| `MemoryRegions.LibfabricDomain.RegisterSegment` | src/base/network/LibfabricDomain.cpp:169-226 | stops if and only if the first byte is found in a region; otherwise the region is entered with its handle, base and size under its last byte; over a free range exactly its addresses are then looked up to it and all others as before |
| `MemoryRegions.LibfabricDomain.UnregisterSegment` | src/base/network/LibfabricDomain.cpp:235-264 | removes exactly the region that is found at the address, and stops if and only if there is none |

## Left out

- The case without a storage backend: every object here has one; with none, reads of uncached bytes return unspecified memory.
- Changing the segment alignment after start-up (`setObjectSegmentsAlignement`, `forceAlignement`): one alignment holds for all objects.
- Interleaving of an RDMA transfer with later requests: raw pointers outlive the call in the source; here a transfer is part of its request, so a write that frees or reshares a buffer under a running transfer is not covered.
- `memcpy` of a buffer onto itself when a range is copied onto its own object is taken as leaving it unchanged, although C does not promise that.
- A failed storage call is taken to get through some first bytes and leave the rest alone; corruption of other bytes is not covered.
- RangeLocks.ConsistencyTracker.RegisterRange: asks for fewer than 2^31 - 1 registrations so far, because the source's identifier is a signed counter whose overflow is undefined.
- AllocatorStack.MemoryBackendBalance.Deallocate: asks callers to give back a held chunk with the size they asked for, as the source's users do.
- The caches of the allocator stack are values owned by the balancing backend, so aliasing between cache objects is not captured; giving mappings back (`munmap`, `ftruncate`) at exit is not modelled.
- NVDIMM mappings are registered with the network domain in the source; the two models are not joined.
- Wrap-around of `offset + size` in `size_t`: offsets and sizes are natural numbers.
- A full copy onto an existing object also deletes the lock tracker of that object; `Disconnect` has no such step, so ranges that vanish this way, and unregistering them later, are not covered.
- Keys and sessions of the client registry, and reposting receive buffers, also after a failed authentication.
- CompletionQueue.Connection.Round: one round of the polling loops; whether to poll again is the caller's choice, and completion-queue errors, which stop the process, are not modelled.
- libfabric, libevent, sockets, `mmap`, the Mero/Motr storage backend: foreign code, represented by queues, fresh disjoint chunks and a byte map whose calls succeed or fail.
- Statistics, configuration, debug and formatted messages, stringification and ping-pong: they read the modelled state or send messages of their own, and no object, buffer, lock or counter modelled here depends on them.
- Main programs, demos, and all of googletest but the matching algorithm: they use the modelled code from outside and add no state to it.
