# Verified model of the allocators, lifecycles and data formats of a small 64-bit operating system

The project models, in Dafny 4.11, the parts of the kernel and its user-space runtime whose correctness is not
visible from any single function, and proves what they keep over whole runs.  State that the C and C++ code
changes in place is a class with the same fields; its methods are proved against functions of the old state, and the
run-level theorems are about those functions.

| files | component |
|---|---|
| HeapBlocks, HeapRuns, HeapBytes, SharedHeap, CrtAlloc | the in-process shared heap, from block lists over whole runs down to header bytes, and aligned allocation on top |
| LaunchRegistry, LaunchProtocol | asynchronous launch callbacks: three lists under one lock, and every interleaving over them |
| EventQueue, EventBroker | growable drop-oldest rings, and publishing to all subscribers |
| RecordPool, HeapGaps, UserHeap | the kernel's slab pool, the first-fit gap search, demand-mapped heap pages |
| FileMapping, SharedMemory | file mappings that grow with roll-back over several processes; named shared memory |
| ProcessTable, ProcessTree | mutually recursive teardown of processes and threads; ending a launcher tree |
| RasterFont, SharedFont, Outline, Curve, OutlineBuilder | the raster-font writer and its two readers; outline flattening against the exact curve, and even-odd fill |
| Numerals, ParseLaws, Format, FormatLaws, Calendar | number text, bounded printf, strtol and strtoul with their laws; calendar conversion |
| Arith, Words, Seqs | word sizes and division, little-endian words, sequence vocabulary |

Conventions.  Outcomes of code outside the model (a physical page, a record, a page-table update, a thread start)
are parameters, so that every claim holds however they turn out.  A critical section under a lock is one step.
Integers are unbounded; where the width of the source's type matters (64-bit sums of sizes and addresses, 32-bit
capacities and pixel sizes, the int result of printf) the wrap-around is written out.  Constants whose definition is not
in the sources (page size, window bounds, queue limits, slot sizes) are parameters; the window of the user heap is
taken to end below 2^63.

Where the code does not meet the statement one would expect, the model keeps the code and the exact condition is proved:

- A shrinking realloc in front of a free block leaves two adjacent free blocks (`HeapRuns.ResizeApart`, `HeapRuns.StepApart`).
- The rounding inside malloc wraps for totals that aligned_alloc's guards accept (`CrtAlloc.RawRoomIff`).
- A realloc to a size whose rounding wraps cuts the block to nothing (`HeapRuns.ResizeKeepsRoomIff`).
- The gap search accepts a wrapped sum (`HeapGaps.GapIsLowestIff`), and mapping a wrapping range stops early (`UserHeap.Heap.RangeReachedIff`).
- A completion whose node cannot be allocated strands its request (`LaunchProtocol.NoneStranded`, `LaunchProtocol.UnstoredStrands`, `LaunchProtocol.StrandedRun`).
- A growing resize hands back physical pages the object still lists (`FileMapping.GrowthKeepsOwnershipIff`); a view behind an offset is not fully unmapped (`FileMapping.OffsetUnmapsIff`).
- Ending a process tree destroys only its topmost members at once, which is the root alone unless the root is exempt; the others stay marked until they are reaped (`ProcessTree.OnlyTheRoot`, `ProcessTree.TerminateTree`).
- The digit scratch is too small for base 2 (`Numerals.ScratchSuffices`, `Numerals.BinaryOverruns`); no caller uses it.
- mktime counts 29 days for every month of a year divisible by 400 (`Calendar.RoundTripIff`).

`dafny verify dfyconfig.toml` checks everything.

## Model

| member | source | states |
|---|---|---|
| `HeapBlocks.AlignUpCovers` | applications/include/user_runtime.h:400-404 | rounding to 16 covers the request, by less than 16 bytes, exactly when the 64-bit sum does not wrap |
| `HeapBlocks.AllOrdered` | applications/include/user_runtime.h:379-384 | blocks that tile the window are pairwise disjoint, in address order, inside the window |
| `HeapBlocks.BytesConserved` | applications/include/user_runtime.h:492-510 | headers plus payloads of any tiling add up to the window |
| `HeapBlocks.FirstFit` | applications/include/user_runtime.h:623-631 | the first free block that is large enough; nothing before it is |
| `HeapBlocks.SplitShape` | applications/include/user_runtime.h:554-575 | a split keeps the tiling; the front part has n to n+48 bytes and every other block is untouched |
| `HeapBlocks.SplitTiles` | applications/include/user_runtime.h:564-574 | whatever list has the two parts in place of the block and the other blocks unchanged tiles the window |
| `HeapBlocks.AbsorbShape` | applications/include/user_runtime.h:588-606 | taking over the successor keeps the tiling and every other block |
| `HeapRuns.LiveDisjoint` | applications/include/user_runtime.h:616-634 | two held blocks never overlap and lie inside the window |
| `HeapRuns.TakeLive` | applications/include/user_runtime.h:616-634 | allocation adds exactly one held block, of n to n+48 bytes, and removes or changes none |
| `HeapRuns.CoalesceLive` | applications/include/user_runtime.h:583-607 | coalescing keeps the tiling and the set of held blocks |
| `HeapRuns.ReleaseLive` | applications/include/user_runtime.h:642-652 | freeing removes exactly the freed block from the held ones |
| `HeapRuns.ResizeLive` | applications/include/user_runtime.h:696-757 | realloc replaces the held block by one of n to n+48 bytes, or fails and changes nothing |
| `HeapRuns.ResizeFateIff` | applications/include/user_runtime.h:722-740 | the block stays if and only if the stretch up to the end of its free successor holds n bytes, and realloc fails if and only if it does not and no free block has n bytes; otherwise the first free block with n bytes is used |
| `HeapRuns.ResizeKeepsRoomIff` | applications/include/user_runtime.h:713-757 | the resized block has room for min(old, new) bytes if and only if the size is at most 2^64-16 or the block was too small to be cut; otherwise it is cut to nothing |
| `HeapRuns.StepGood` | applications/include/user_runtime.h:616-757 | every single malloc, free or realloc on a held pointer keeps tiling, window and request bounds |
| `HeapRuns.RunGood` | applications/include/user_runtime.h:492-757 | in every run of malloc, free and realloc the blocks tile the window, all bytes are accounted for, and every held payload exceeds its aligned request by at most 48 bytes |
| `HeapRuns.ResizeApart` | applications/include/user_runtime.h:713-756 | realloc keeps free blocks apart if and only if it does not split in front of a free block |
| `HeapRuns.StepApart` | applications/include/user_runtime.h:583-735 | one step keeps free blocks apart if and only if it is not that shrinking split |
| `HeapRuns.RunApart` | applications/include/user_runtime.h:554-735 | every run without that step never has two adjacent free blocks |
| `HeapRuns.ShrinkFragments` | applications/include/user_runtime.h:716-719 | a concrete shrinking realloc that leaves 128 contiguous free bytes unable to serve 96 |
| `HeapRuns.NullOnlyWhenFull` | applications/include/user_runtime.h:616-634 | with free blocks apart, malloc returns null if and only if no contiguous free stretch is large enough |
| `HeapRuns.FreeUndoesMalloc` | applications/include/user_runtime.h:583-652 | with free blocks apart, free after malloc restores the block list exactly |
| `HeapRuns.AllFreeIsInitial` | applications/include/user_runtime.h:492-510 | nothing held and free blocks apart means the single initial block |
| `HeapRuns.FreeingAllRestores` | applications/include/user_runtime.h:583-652 | freeing every held block, in any order, is legal and restores the single initial block |
| `HeapBytes.HeaderWritesKeep` | applications/include/user_runtime.h:379-384 | any list of header stores leaves every payload byte of the tiling alone |
| `HeapBytes.FlagTurns` | applications/include/user_runtime.h:629-651 | the flag store turns memory holding a list into memory holding the list with that flag, payloads untouched |
| `HeapBytes.SplitTurns` | applications/include/user_runtime.h:564-574 | the seven header stores of a split turn memory holding a list into memory holding the split list, links inverse, payloads untouched |
| `HeapBytes.AbsorbTurns` | applications/include/user_runtime.h:588-606 | the header stores of a merge turn memory holding a list into memory holding the merged list, payloads untouched |
| `HeapBytes.PayloadWriteHolds` | applications/include/user_runtime.h:379-384 | whatever a holder writes into its payload leaves the block list and all other payloads intact |
| `SharedHeap.Heap.Initialize` | applications/include/user_runtime.h:492-510 | the first call writes the initial block; later calls change nothing a holder sees |
| `SharedHeap.Heap.SplitBlock` | applications/include/user_runtime.h:554-575 | on bytes: the block list becomes the split list and no payload byte of it changes |
| `SharedHeap.Heap.AbsorbSuccessor` | applications/include/user_runtime.h:588-596 | on bytes: the merge step shared by coalescing and growing |
| `SharedHeap.Heap.CoalesceBlock` | applications/include/user_runtime.h:583-607 | on bytes: merge with a free successor, then into a free predecessor, held payloads untouched |
| `SharedHeap.Heap.MallocLocked` | applications/include/user_runtime.h:616-634 | on bytes: the first fitting block is taken, or null and no change; held payloads untouched |
| `SharedHeap.Heap.FreeLocked` | applications/include/user_runtime.h:642-652 | on bytes: null and foreign pointers are ignored; a held block is released and merged, all payloads still held are untouched |
| `SharedHeap.Heap.Malloc` | applications/include/user_runtime.h:660-669 | null exactly when no free block fits the aligned request, else a pointer to the first that does; no held byte changes |
| `SharedHeap.Heap.Free` | applications/include/user_runtime.h:677-687 | null and foreign pointers are ignored; a held pointer is released; no byte still held changes |
| `SharedHeap.Heap.CopyBytes` | applications/include/user_runtime.h:743-752 | exactly the destination range receives the source bytes |
| `SharedHeap.Heap.ShrinkLocked` | applications/include/user_runtime.h:716-720 | the block is split in place and keeps its first n bytes |
| `SharedHeap.Heap.GrowLocked` | applications/include/user_runtime.h:722-735 | the block grows over its free successor and keeps all its bytes |
| `SharedHeap.Heap.MoveLocked` | applications/include/user_runtime.h:737-756 | a new block receives min(old, requested) bytes before the old one is freed, or null and no change |
| `SharedHeap.Heap.Realloc` | applications/include/user_runtime.h:696-757 | the same pointer comes back if and only if the block with its free successor holds the rounded size, null if and only if it does not and no free block has that size; the held block is then replaced by one of n to n+48 bytes, for sizes up to 2^64-16 the first min(old, new) bytes survive, and no other held payload changes, also for null and foreign pointers |
| `CrtAlloc.MallocPtrNotMistaken` | applications/runtime/crt.c:1213-1219 | the word free inspects below a malloc pointer is that block's own next link, never the magic |
| `CrtAlloc.AlignedSurvives` | applications/runtime/crt.c:1238-1268 | an aligned pointer stays recognisable across every step that keeps its raw block |
| `CrtAlloc.RawRoomIff` | applications/runtime/crt.c:1250-1261 | the raw block has room for the whole request if and only if the total is at most 2^64-16 |
| `CrtAlloc.GuardsMissRounding` | applications/runtime/crt.c:1250-1255 | the guards accept a total whose rounding wraps to zero |
| `CrtAlloc.PowerOfTwoIff` | applications/runtime/crt.c:1244-1249 | the bit test accepts exactly the powers of two |
| `CrtAlloc.AcceptableIff` | applications/runtime/crt.c:1244-1255 | the guards accept exactly a power of two whose total with request and header stays below 2^64 |
| `CrtAlloc.AlignedAlloc` | applications/runtime/crt.c:1238-1268 | null for a bad alignment, a sum that overflows or a full heap; else an aligned block inside its raw payload with its hidden header in place |
| `CrtAlloc.Free` | applications/runtime/crt.c:1206-1222 | free of an aligned pointer releases exactly its raw block, of a malloc pointer exactly its own block |
| `LaunchRegistry.Registry.TakePending` | applications/runtime/ros_support.c:273-300 | removes the first pending request with the id and nothing else, or nothing |
| `LaunchRegistry.Registry.TakeTimedOut` | applications/runtime/ros_support.c:313-340 | removes the first overdue request and nothing else, or nothing |
| `LaunchRegistry.Registry.TakeDeferred` | applications/runtime/ros_support.c:384-415 | removes the first deferred completion with the id and nothing else, or nothing |
| `LaunchRegistry.Registry.TakeIgnored` | applications/runtime/ros_support.c:457-483 | removes the first marker with the id and says whether there was one |
| `LaunchRegistry.Registry.PruneIgnored` | applications/runtime/ros_support.c:491-518 | keeps exactly the markers whose grace has not run out, in order |
| `LaunchRegistry.Registry.Register` | applications/runtime/ros_support.c:1179-1185 | links a request and, if its completion came first, takes both out again |
| `LaunchRegistry.Registry.Complete` | applications/runtime/ros_support.c:610-622 | files one polled completion: swallowed by a marker, matched with its request, or deferred |
| `LaunchRegistry.Registry.Expire` | applications/runtime/ros_support.c:629-635 | takes the first overdue request, if there is one, and leaves a marker for its late completion (what that means for the protocol is ExpireEffect) |
| `LaunchProtocol.StepKeepsInv` | applications/runtime/ros_support.c:251-644 | every atomic step of callers, dispatcher, kernel and clock keeps the protocol invariant |
| `LaunchProtocol.RunKeepsInv` | applications/runtime/ros_support.c:251-644 | so does every interleaving |
| `LaunchProtocol.ExactlyOneOwner` | applications/runtime/ros_support.c:1177-1202 | in every interleaving each request is in exactly one of unlinked, pending, taken, withdrawn |
| `LaunchProtocol.DeliveredAtMostOnce` | applications/runtime/ros_support.c:527-567 | in every interleaving no request is delivered twice, not even by a completion after its timeout |
| `LaunchProtocol.DeliveredFairly` | applications/runtime/ros_support.c:527-644 | every delivery carries the kernel's result for that request, or a timeout not before its deadline, and runs the success callback exactly on a result that is no error, the error callback exactly on one that is, where the request has them |
| `LaunchProtocol.ExpireEffect` | applications/runtime/ros_support.c:629-638 | if a pending request is overdue, the first such one leaves pending, the dispatcher holds it with the timeout result and, if stored, its id is marked for 30 s; otherwise nothing is taken; of the markers exactly the unexpired ones stay |
| `LaunchProtocol.OverdueAreTimedOut` | applications/runtime/ros_support.c:595-644 | from every idle state some run of at most as many expiry and delivery rounds as there are pending requests delivers a timeout to every overdue one and leaves exactly the others pending |
| `LaunchProtocol.FileEffect` | applications/runtime/ros_support.c:610-625 | a polled completion is swallowed exactly if an unexpired marker has its id, else it takes the first pending request with its id, else it is deferred |
| `LaunchProtocol.RegisterEffect` | applications/runtime/ros_support.c:1179-1190 | a request whose completion is already deferred leaves with the first such one; otherwise it becomes the last pending request |
| `LaunchProtocol.NoneStranded` | applications/runtime/ros_support.c:595-644 | once its completion was filed a request is pending only if the completion's node could not be allocated |
| `LaunchProtocol.UnstoredStrands` | applications/runtime/ros_support.c:352-375 | and in that case it does stay pending |
| `LaunchProtocol.StrandedRun` | applications/runtime/ros_support.c:352-375 | a concrete run from the initial state that strands its second request |
| `EventQueue.Doubled` | kernel/kernel_event.cpp:140-153 | the grown capacity reaches the target, respects the maximum, at least doubles unless that is the limit, and overshoots the target by less than a factor of two |
| `EventQueue.ReservedBounds` | kernel/kernel_event.cpp:120-173 | growth keeps capacity within limits and fails only when the queue is full and cannot grow |
| `EventQueue.ArrivalEffect` | kernel/kernel_event.cpp:257-285 | an arrival appends the record; exactly one record is lost and counted if and only if the queue is full and at its maximum or without memory, and none otherwise |
| `EventQueue.QueueIsSuffix` | kernel/kernel_event.cpp:257-285 | over any run of arrivals and reads, with allocation failing at will, the queue holds exactly the last arrivals, and arrived = read + queued + dropped |
| `EventQueue.Ring.Reserve` | kernel/kernel_event.cpp:120-173 | moving to a larger array keeps the queued records and their order, across wrap-around |
| `EventQueue.Ring.Enqueue` | kernel/kernel_event.cpp:257-285 | the ring does what the queue operation says, with wrapped indices |
| `EventQueue.Ring.Read` | kernel/kernel_event.cpp:473-480 | hands out the oldest records in order and keeps the rest |
| `EventBroker.MatchesIff` | kernel/kernel_event.cpp:234-255 | a record reaches a subscription exactly if a family bit is in the mask, process and thread agree where they are asked for, and name and path start with the prefixes asked for |
| `EventBroker.TextHasPrefix` | kernel/kernel_event.cpp:51-66 | the character loop decides whether a text starts with a prefix |
| `EventBroker.SubscriptionMatches` | kernel/kernel_event.cpp:234-255 | the five tests in the code's order decide the match |
| `EventBroker.FilterIncreasing` | kernel/kernel_event.cpp:287-302 | the records matching a request appear in strictly increasing sequence order |
| `EventBroker.TracksArrival` | kernel/kernel_event.cpp:257-302 | a queue that tracks its matched records still does after an arrival |
| `EventBroker.TracksRead` | kernel/kernel_event.cpp:452-482 | and after a read |
| `EventBroker.TrackedInOrder` | kernel/kernel_event.cpp:287-302 | a tracked queue is strictly increasing in sequence number |
| `EventBroker.Broker.Subscribe` | kernel/kernel_event.cpp:329-362 | each refusal in the code's order; a new subscription starts empty and sees only later records |
| `EventBroker.Broker.Publish` | kernel/kernel_event.cpp:287-302 | numbers the record; each subscriber's queue becomes the old one with the record enqueued if it matches and is unchanged otherwise, so every queue still holds its last matching records since subscription with exact loss accounting |
| `EventBroker.Broker.Find` | kernel/kernel_event.cpp:224-232 | the first subscription with that owner and id, or none |
| `EventBroker.Broker.Read` | kernel/kernel_event.cpp:452-482 | returns the oldest queued records of one subscription, which are gone from its queue, and no other queue changes |
| `EventBroker.Broker.Unsubscribe` | kernel/kernel_event.cpp:364-378 | id zero is invalid, an unknown one not found; otherwise exactly one subscription goes and the others keep their queues |
| `RecordPool.CapacityFits` | kernel/user_heap.cpp:146-160 | the carved slots fit the page |
| `RecordPool.SlotIsSlot` | kernel/user_heap.cpp:108-115 | masking the address of a carved slot finds its page |
| `RecordPool.SlotIndex` | kernel/user_heap.cpp:127-171 | every slot of a page is one of the carved ones |
| `RecordPool.GrowPartition` | kernel/user_heap.cpp:127-171 | a new page adds exactly its slots to the free list, none twice |
| `RecordPool.RetirePartition` | kernel/file_mapping.cpp:309-329 | retiring an idle page removes exactly its slots from the free list |
| `RecordPool.EmptyPoolHoldsNothing` | kernel/shared_memory.cpp:158-324 | no records means no pages |
| `RecordPool.Pool.Grow` | kernel/user_heap.cpp:127-171 | a refused or useless page leaves the pool unchanged; a used one is carved completely |
| `RecordPool.Pool.Carve` | kernel/user_heap.cpp:163-168 | the free list built by the carving loop |
| `RecordPool.Pool.Allocate` | kernel/user_heap.cpp:179-199 | a slot nobody holds; null and no change exactly when the free list is empty and there is no page or it has no room for a slot; free list and live slots still partition the pages' slots |
| `RecordPool.Pool.RemovePageSlots` | kernel/user_heap.cpp:208-237 | one pass over the chain drops exactly the slots of that page |
| `RecordPool.Pool.Free` | kernel/shared_memory.cpp:297-324 | the slot is free again; its page is retired exactly when it has no live slot left |
| `HeapGaps.GapDependsOnOwn` | kernel/user_heap.cpp:703-736 | the search result depends only on the process's own allocations, although the list is shared |
| `HeapGaps.GapIsLowestIff` | kernel/user_heap.cpp:703-736 | the result is the lowest feasible base, or none exactly if there is none, if and only if the last probed address plus the size stays below 2^64 |
| `HeapGaps.WrapBreaksGap` | kernel/user_heap.cpp:720-732 | a wrapping size for which the search hands out allocated memory |
| `HeapGaps.LinkedInv` | kernel/user_heap.cpp:448-484 | inserting keeps the list sorted, aligned, disjoint per process and inside the window |
| `HeapGaps.UnlinkedInv` | kernel/user_heap.cpp:492-513 | so does removing; exactly one allocation goes |
| `UserHeap.Heap.SearchGap` | kernel/user_heap.cpp:703-736 | the loop computes the gap function |
| `UserHeap.Heap.AllocRaw` | kernel/user_heap.cpp:850-881 | the lowest feasible place; each failure exactly on its cause and without change: not reserved, a size that overflows, no feasible place, no memory for the record |
| `UserHeap.Heap.PageHasLive` | kernel/user_heap.cpp:678-693 | true exactly if some allocation of the process overlaps the page |
| `UserHeap.Heap.Covered` | kernel/user_heap.cpp:639-652 | true exactly if some allocation of the process contains the address |
| `UserHeap.Heap.FindPage` | kernel/user_heap.cpp:661-669 | the record of that process and page, or none |
| `UserHeap.Heap.MapHeapPage` | kernel/user_heap.cpp:745-796 | takes a spare page, maps it and records it; each failure exactly on its cause, after which records, tables and pages are as they were |
| `UserHeap.Heap.HandlePageFault` | kernel/user_heap.cpp:921-950 | the status for every address: populated exactly if it lies in the heap, below the compatibility base or inside an allocation, and page, mapping and record are to be had; failure changes nothing |
| `UserHeap.FreedRangeCovers` | kernel/user_heap.cpp:900-901 | every page only the freed allocation kept needed lies in the range free_raw visits |
| `UserHeap.Heap.ReleaseIdle` | kernel/user_heap.cpp:905-916 | releases exactly the pages of the range that no live allocation touches and returns exactly their physical pages |
| `UserHeap.Heap.Drop` | kernel/user_heap.cpp:805-819 | unmaps one page and returns its physical page, which was not spare before |
| `UserHeap.Heap.FreeRaw` | kernel/user_heap.cpp:883-919 | removes exactly that allocation and exactly the pages that overlap it and no remaining allocation, whose physical pages, and no others, become spare; not found exactly if there is no such allocation |
| `UserHeap.Heap.EnsureRangeMapped` | kernel/user_heap.cpp:952-989 | on success every heap page from the first up to the wrapping limit is mapped, which is the whole range if no sum wraps; failure unmaps nothing and happens at a visited page without an allocation, without a spare page, or where mapping or recording failed |
| `UserHeap.Heap.DoomedMeans` | kernel/user_heap.cpp:900-916 | the rounded range free_raw visits selects exactly the pages that overlap the freed allocation and no remaining one |
| `UserHeap.Heap.RangeReachedIff` | kernel/user_heap.cpp:963-965 | the walk reaches every heap page of the range if and only if no sum wraps or no heap page lies behind its start or its limit |
| `UserHeap.Heap.WrappedRange` | kernel/user_heap.cpp:963-964 | a wrapping range for which the walk visits nothing |
| `UserHeap.Heap.ReleaseProcess` | kernel/user_heap.cpp:1010-1043 | exactly the process's allocations and pages go; exactly their physical pages become spare |
| `FileMapping.Mappings.MapBackingPages` | kernel/file_mapping.cpp:431-457 | maps all pages of a run, exactly if every page can be mapped, or leaves no new entry behind |
| `FileMapping.Mappings.AllocPages` | kernel/file_mapping.cpp:809-818 | distinct pages taken from the allocator, as many as asked for or as it has |
| `FileMapping.Mappings.FreePages` | kernel/file_mapping.cpp:403-415 | every page of the list is free afterwards; none is freed twice if the holder owned them |
| `FileMapping.Mappings.ExtendOne` | kernel/file_mapping.cpp:824-862 | one view is extended, exactly if each page it gains can be mapped, or the tables differ only inside the attempted growth |
| `FileMapping.Mappings.RolledBack` | kernel/file_mapping.cpp:839-853 | the size test selects exactly the views extended in this call, so undoing them restores all attachments |
| `FileMapping.Mappings.Rollback` | kernel/file_mapping.cpp:839-853 | unmaps exactly the growth of the selected views and restores their sizes |
| `FileMapping.Mappings.ExtendViews` | kernel/file_mapping.cpp:820-863 | if and only if every page that a live full view gains can be mapped, all of them show the new pages; otherwise page tables and attachments equal their old values |
| `FileMapping.ClearAgreeEqual` | kernel/file_mapping.cpp:838-859 | two tables that agree outside the growth and are empty inside it are equal |
| `FileMapping.Mappings.Resize` | kernel/file_mapping.cpp:776-872 | the status for every input: each refusal exactly on its guard, no memory exactly if growth lacks a page, a mapping failure exactly if some page that a live full view would gain cannot be mapped, success otherwise; on failure objects, attachments and page tables equal their old values; on success exactly the live full views are extended, the old pages are a prefix and the views show the new ones; the state stays valid, also after earlier growths, with the physical pages as the code really leaves them |
| `FileMapping.Mappings.Growable` | kernel/file_mapping.cpp:820-830 | in a valid state nothing is mapped where a view would grow, and no view has the new size already |
| `FileMapping.Mappings.Grown` | kernel/file_mapping.cpp:832-870 | after a growth every view in a live process shows exactly its object's pages, and nothing else is mapped |
| `FileMapping.Mappings.Create` | kernel/file_mapping.cpp:733-764 | the status for every input; a new object with exactly the pages it needs, of its own, and one handle, or no trace |
| `FileMapping.Mappings.FreeSlot` | kernel/file_mapping.cpp:518-533 | the lowest free slot of the process; none only if it uses all of them |
| `FileMapping.Mappings.MapView` | kernel/file_mapping.cpp:1037-1119 | at offset 0, the status for every input: the view the process has, or one new view in the lowest free slot showing the object's pages, or a failure that restores the page table |
| `FileMapping.OffsetUnmapsIff` | kernel/file_mapping.cpp:1101-1106 | unmapping at the base removes all entries of a view mapped behind an offset if and only if the offset is zero |
| `FileMapping.Mappings.ReleaseUnused` | kernel/file_mapping.cpp:880-890 | the object and its pages go exactly if no handle and no view names it |
| `FileMapping.Mappings.Close` | kernel/file_mapping.cpp:1011-1035 | one handle goes, and the object exactly with its last name |
| `FileMapping.Mappings.ReleaseView` | kernel/file_mapping.cpp:899-920 | exactly the pages of that view are unmapped, every other view still shows its object, and the object goes exactly with its last name |
| `FileMapping.Mappings.ReleaseProcess` | kernel/file_mapping.cpp:1174-1201 | every view of the process goes, no other does |
| `FileMapping.GrowthKeepsOwnershipIff` | kernel/file_mapping.cpp:805-866 | after a growth the object owns its pages if and only if it had none before |
| `SharedMemory.CountPositive` | kernel/shared_memory.cpp:692-705 | a count is positive exactly if some attachment names the object |
| `SharedMemory.LowerSame` | kernel/shared_memory.cpp:468-474 | two characters compare equal after folding exactly if they are the same or the two cases of one Latin letter |
| `SharedMemory.SameNameEquivalence` | kernel/shared_memory.cpp:486-504 | having the same name is an equivalence |
| `SharedMemory.SameText` | kernel/shared_memory.cpp:486-504 | the loop decides it |
| `SharedMemory.ExistsIffNamed` | kernel/shared_memory.cpp:692-737 | between calls an object exists exactly if some attachment names it |
| `SharedMemory.ViewsNeverOverlap` | kernel/shared_memory.cpp:565-567 | between calls two views of one process occupy disjoint address ranges and share no page-table entry |
| `SharedMemory.SlotsDisjoint` | kernel/shared_memory.cpp:565-567 | views in different slots are disjoint because no object is larger than a slot |
| `SharedMemory.AddViewInv` | kernel/shared_memory.cpp:843-871 | a view mapped into a free slot keeps counts, slots, physical pages and every other view's page-table entries right |
| `SharedMemory.DropViewSound` | kernel/shared_memory.cpp:714-737 | unmapping a view leaves every other view's entries alone and keeps all but possibly the emptied object right |
| `SharedMemory.DropObjectInv` | kernel/shared_memory.cpp:692-705 | releasing an object nobody views restores the full invariant |
| `SharedMemory.AddObjectSound` | kernel/shared_memory.cpp:789-822 | creating an object on fresh pages and dropping it again restores the registry |
| `SharedMemory.Manager.FindView` | kernel/shared_memory.cpp:614-626 | the view of that process and name, or none |
| `SharedMemory.Manager.FindObject` | kernel/shared_memory.cpp:575-584 | the object whose name has the same letters regardless of case, or none exactly if there is none |
| `SharedMemory.Manager.UsesSlot` | kernel/shared_memory.cpp:635-644 | true exactly if a view of the process is in the slot |
| `SharedMemory.Manager.FreeSlot` | kernel/shared_memory.cpp:656-666 | the lowest free slot; none only if all slots of the process are taken |
| `SharedMemory.Manager.Acquire` | kernel/shared_memory.cpp:755-874 | the status for every input; nothing new for a view the process has, else exactly one view in the lowest free slot, of the named object or of a new one just large enough; on failure objects, attachments, page tables and physical pages are restored |
| `SharedMemory.Manager.PagesFit` | kernel/shared_memory.cpp:766-768 | a request that passes the size test fits one slot |
| `SharedMemory.Manager.ReleaseView` | kernel/shared_memory.cpp:714-737 | the view goes, and the object exactly with its last view |
| `SharedMemory.Manager.ReleaseProcess` | kernel/shared_memory.cpp:876-896 | every view of the process goes, no other does |
| `ProcessTable.CountIsGlobal` | kernel/process.cpp:517-585 | thread_count equals the number of global threads naming the process |
| `ProcessTable.DetachedOk` | kernel/process.cpp:551-585 | detaching keeps list, count and main thread consistent; the first remaining thread succeeds a main thread that leaves |
| `ProcessTable.AttachedOk` | kernel/process.cpp:517-549 | attaching puts the thread last, and makes it the main thread exactly if it is the first |
| `ProcessTable.RemoveThreadInv` | kernel/thread.cpp:368-433 | removing a thread from both lists keeps them in agreement |
| `ProcessTable.RemoveProcessInv` | kernel/process.cpp:359-407 | removing a process with its threads and cutting its launch links keeps the table consistent and in order of creation |
| `ProcessTable.RemovedMeans` | kernel/process.cpp:359-407 | exactly the process and its threads are gone, every other process differs at most in a launcher link to it, and its launcher finds its exit code |
| `ProcessTable.RememberedMeans` | kernel/process.cpp:193-209 | a process with a launcher leaves its exit code, and no other record changes |
| `ProcessTable.Kernel.ThreadDestroyedMeans` | kernel/thread.cpp:368-433 | exactly the thread is gone, and its process exactly if that was its last thread and it is neither permanent nor already terminated |
| `ProcessTable.Kernel.DestroyThread` | kernel/thread.cpp:368-433 | removes exactly that thread and releases each resource it holds once, and its process exactly when it was the last one; terminates together with process destruction and leaves no terminated process listed |
| `ProcessTable.Kernel.DestroyProcess` | kernel/process.cpp:359-407 | removes exactly that process and its threads, remembers its exit status, orphans those it launched, and leaves no terminated process listed |
| `ProcessTable.Kernel.CreateProcess` | kernel/process.cpp:263-338 | a new id at the tail of the list, or after any failing step no trace |
| `ProcessTable.Kernel.AttachThread` | kernel/process.cpp:517-549 | a listed thread joins the process exactly if the process exists and the thread belongs to nobody |
| `ProcessTable.Kernel.CreateThread` | kernel/thread.cpp:126-211 | a thread in both lists holding record, stack and registration; a failure at any step, the last included, undoes the steps before it |
| `ProcessTree.ClimbsLess` | kernel/process.cpp:86-112 | cutting links and removing processes never adds anyone to a tree |
| `ProcessTree.InTreeLess` | kernel/process.cpp:86-112 | so membership only shrinks while a tree is destroyed |
| `ProcessTree.InTreeIff` | kernel/process.cpp:86-112 | the walk's answer is that some chain of launchers leads from the process to the root |
| `ProcessTree.IsInTree` | kernel/process.cpp:86-112 | the walk decides membership |
| `ProcessTree.MarkTree` | kernel/process.cpp:125-144 | marks exactly the non-permanent members, and at least the root |
| `ProcessTree.DestroyTree` | kernel/process.cpp:435-448 | each destroyed process cuts off whom it launched, so exactly the topmost members go: those with none but permanent or exempt launchers above them up to the root; everyone else loses at most a link to a destroyed process |
| `ProcessTree.VisitDecides` | kernel/process.cpp:435-448 | halfway through the loop, being in what is left of the tree means being topmost in the original one |
| `ProcessTree.ClimbExact` | kernel/process.cpp:86-112 | the walk through what is left meets the root exactly where everybody on the way was passed over |
| `ProcessTree.OnlyTheRoot` | kernel/process.cpp:435-448 | unless the root is exempt, it alone is destroyed at once, and its descendants wait to be reaped |
| `ProcessTree.TerminateTree` | kernel/process.cpp:421-451 | not found exactly for an unknown root, busy exactly for a permanent one; otherwise exactly the topmost members are destroyed, every other non-permanent member is exiting with the given code, nobody else changes except for a cut launcher link, and the exempt process stays |
| `ProcessTree.ReapExiting` | kernel/process.cpp:453-472 | destroys exactly the exiting, non-permanent processes other than the current one |
| `ProcessTree.TerminateAndReap` | kernel/process.cpp:421-472 | for every known root that is not permanent: exactly the non-permanent members of the original tree and those exiting before are gone; the current process only if it is topmost |
| `RasterFont.AcceptedIsSafe` | applications/runtime/gdi_font_support.c:2627-2744 | for every buffer, an accepted font has 128 glyphs whose coverage slices all lie inside it |
| `RasterFont.ParseAcceptsIff` | applications/runtime/gdi_font_support.c:2645-2722 | which buffers are accepted, from the header words and rows alone, and when a wrong size is reported |
| `RasterFont.ParseReadsHeader` | applications/runtime/gdi_font_support.c:2724-2744 | which words of the buffer give the font's metrics |
| `RasterFont.ParseReadsGlyph` | applications/runtime/gdi_font_support.c:2691-2722 | which words of a row give a glyph's place, size, advance and signed bearings |
| `RasterFont.BuildBlob` | tools/fntmaker.py:174-235 | the writer's loop lays out header, table and coverage as specified |
| `RasterFont.PackAt` | tools/fntmaker.py:209-234 | every packed word can be found at its place |
| `RasterFont.FamilyReadBack` | tools/fntmaker.py:160-171 | the family survives, clipped to 63 bytes, or becomes the default if empty |
| `RasterFont.ParseUndoesBuild` | tools/fntmaker.py:160-235 | parsing a written file recovers every metric, the family and every coverage byte |
| `SharedFont.ProductFits` | applications/runtime/gdi_font_support.c:2697-2702 | the overflow test on width times height can never fire |
| `SharedFont.LeU32` | applications/runtime/gdi_font_support.c:2590-2595 | the byte sum is the little-endian value |
| `SharedFont.HasPrefix` | applications/runtime/gdi_font_support.c:1860-1874 | true exactly if the buffer starts with the prefix |
| `SharedFont.DirectHeader` | applications/runtime/gdi_font_support.c:2645-2673 | the direct reader's header tests decide the header specification, error kinds included |
| `SharedFont.DirectFamily` | applications/runtime/gdi_font_support.c:2675-2683 | its copying loop yields the text up to the first zero, or the default name |
| `SharedFont.DirectRow` | applications/runtime/gdi_font_support.c:2691-2722 | its row tests accept exactly the specified rows and yield their glyphs |
| `SharedFont.Shared.TestHeader` | applications/runtime/gdi_font_support.c:952-992 | the populating reader's own header tests decide the same specification |
| `SharedFont.Shared.SharedFamily` | applications/runtime/gdi_font_support.c:994-1002 | its own copying loop yields the same text |
| `SharedFont.Shared.SharedRow` | applications/runtime/gdi_font_support.c:1011-1033 | its own row tests accept exactly the same rows; the record shows the same glyph |
| `SharedFont.Shared.StoreRows` | applications/runtime/gdi_font_support.c:1011-1043 | its loop stores all 128 records, or stops at the first bad row |
| `SharedFont.ParseFile` | applications/runtime/gdi_font_support.c:2627-2744 | the direct reader meets the specification, error cases in the code's order |
| `SharedFont.Shared.Populate` | applications/runtime/gdi_font_support.c:902-1048 | afterwards binding gives what the direct parser gives, or no space for a file that is empty or above 64 KiB; the status says which |
| `SharedFont.Shared.Bind` | applications/runtime/gdi_font_support.c:1059-1107 | a handle shows the object's glyphs, or the recorded failure |
| `SharedFont.SameFont` | applications/runtime/gdi_font_support.c:902-1107 | the two readers, each proved against one specification, give the same answer on every file up to 64 KiB |
| `Outline.FlattenChain` | applications/runtime/gdi_font_support.c:3352-3379 | a flattened curve leads from its start to its end without a gap |
| `Outline.FlattenIn` | applications/runtime/gdi_font_support.c:3352-3379 | and stays in every box that holds its three points |
| `Outline.FlattenBound` | applications/runtime/gdi_font_support.c:3352-3379 | a curve gives at most 256 segments |
| `Curve.PolarMid` | applications/runtime/gdi_font_support.c:3366-3368 | the polar form of a quadratic curve takes the middle parameter to the middle value |
| `Curve.PolarBend` | applications/runtime/gdi_font_support.c:3359-3364 | the second difference of a piece is the curve's own, scaled by the square of its parameter width |
| `Curve.HalvesNear` | applications/runtime/gdi_font_support.c:3366-3378 | if three points are near the control points of a piece of the curve, the two triples the split makes are near those of its halves |
| `Curve.FlatDecides` | applications/runtime/gdi_font_support.c:3359-3364 | the flatness test tells pieces with a small second difference from those with a large one |
| `Curve.FlattenTraces` | applications/runtime/gdi_font_support.c:3352-3379 | each vertex differs from the exact curve point by at most 8 units of 1/65536 per coordinate, at strictly increasing multiples of 1/256 of the parameter from 0 to 1; each segment spans 1/256 or a piece whose second difference is at most 4096 up to rounding, and none is shorter than that needs |
| `Outline.StepsAlternate` | applications/runtime/gdi_font_support.c:3588-3599 | between two control points there is always an implied on-curve point, cyclically |
| `Outline.WorkAlternates` | applications/runtime/gdi_font_support.c:3576-3604 | work points start on the curve and never have two adjacent control points, so the format errors cannot occur, and they fit their buffer |
| `Outline.EmitChain` | applications/runtime/gdi_font_support.c:3606-3628 | the emission returns to the first work point without a gap |
| `Outline.ContourCloses` | applications/runtime/gdi_font_support.c:3564-3631 | every contour is one closed chain |
| `Curve.LeadIs` | applications/runtime/gdi_font_support.c:3576-3586 | a contour that starts with a control point is led by the last point or by the rounded midpoint |
| `Curve.WorkHas` | applications/runtime/gdi_font_support.c:3588-3599 | every contour point stands in the work buffer at its place, followed by the rounded midpoint exactly between two control points |
| `Curve.ContourDraws` | applications/runtime/gdi_font_support.c:3606-3628 | every segment of a contour is the straight line between two adjacent on-curve work points or a piece of the flattened curve around a control point |
| `Curve.ContourStrokes` | applications/runtime/gdi_font_support.c:3606-3628 | a contour is the strokes of its work points in order, each exactly once: the line to the next on-curve point, or segments that trace the whole curve over the control point between |
| `Curve.GlyphDraws` | applications/runtime/gdi_font_support.c:3564-3631 | a glyph is its contours in order, which use up its points at the given ends |
| `Outline.GlyphIn` | applications/runtime/gdi_font_support.c:3564-3631 | all segments lie in every box around the points |
| `Outline.ChainParity` | applications/runtime/gdi_font_support.c:3676-3704 | a chain straddles a line an odd number of times exactly if its ends are on different sides |
| `Outline.GlyphEven` | applications/runtime/gdi_font_support.c:3564-3631 | every horizontal line is straddled an even number of times |
| `Outline.MeetsBetween` | applications/runtime/gdi_font_support.c:3692-3697 | the truncated intersection lies between the segment's end points |
| `Outline.MeetsExact` | applications/runtime/gdi_font_support.c:3692-3697 | the intersection is the exact quotient cut off toward zero |
| `Outline.OutsideBox` | applications/runtime/gdi_font_support.c:3676-3704 | no sample outside the box is filled, on any of its four sides |
| `Outline.EitherSide` | applications/runtime/gdi_font_support.c:3676-3704 | counting crossings to the left instead of the right decides the same |
| `Outline.CrossingsAdd` | applications/runtime/gdi_font_support.c:3684-3703 | each segment counts for itself, once if its lower end is at or below the sample's line, its upper end above it, and it meets the line to the right of the sample |
| `OutlineBuilder.Builder.Append` | applications/runtime/gdi_font_support.c:3326-3337 | appends, or reports a full buffer and keeps it |
| `OutlineBuilder.Builder.FlattenQuad` | applications/runtime/gdi_font_support.c:3352-3379 | appends exactly the segments that trace the curve (Curve.FlattenTraces), clipped at the capacity; no space exactly if they do not fit |
| `OutlineBuilder.Builder.EmitContour` | applications/runtime/gdi_font_support.c:3606-3628 | appends exactly the contour's segments, or reports that they do not fit |
| `OutlineBuilder.FillWork` | applications/runtime/gdi_font_support.c:3576-3599 | fills the work buffer with the contour and its implied points, within 2n+1 entries |
| `OutlineBuilder.Bounds` | applications/runtime/gdi_font_support.c:3542-3562 | a box that holds all points and touches one on each side |
| `OutlineBuilder.Build` | applications/runtime/gdi_font_support.c:3542-3631 | the tight box and the segments of all contours; fails if and only if the segments do not fit the builder |
| `OutlineBuilder.BuildSimple` | applications/runtime/gdi_font_support.c:3415-3457 | a glyph without contours has an empty box and no segments; failing scratch memory emits nothing; otherwise as Build |
| `OutlineBuilder.Builder.PointInside` | applications/runtime/gdi_font_support.c:3676-3704 | the loop decides the parity of crossings to the right |
| `OutlineBuilder.FillSample` | applications/runtime/gdi_font_support.c:3542-3704 | whenever the segments fit, a sample is filled by the parity of crossings, and none outside the reported tight box is |
| `Numerals.DigitCount` | applications/runtime/crt.c:97-122 | n digits suffice exactly for the values below base^n |
| `Numerals.ScratchSuffices` | applications/runtime/crt.c:101-116 | every 64-bit value fits the 32-character scratch in every base from 4 up, so in both bases printf uses |
| `Numerals.BinaryOverruns` | applications/runtime/crt.c:101-116 | in base 2, which the function accepts, 2^32 already overruns it |
| `Numerals.FormatUnsigned` | applications/runtime/crt.c:97-122 | writes exactly the digits of the value, most significant first; nothing for a bad base |
| `Numerals.ParseUnsigned` | applications/runtime/crt.c:487-553 | blanks, sign, base detection and digits as specified, with the value wrapping |
| `Numerals.StrToL` | applications/runtime/crt.c:1461-1470 | the signed reading of the parsed word, and where it stopped |
| `Numerals.StrToUL` | applications/runtime/crt.c:1472-1481 | the parsed word, and where it stopped |
| `Numerals.DigitsSpell` | applications/runtime/crt.c:97-122 | the digits of a value spell it, however many zeros stand in front |
| `Numerals.ReadBack` | applications/runtime/crt.c:487-553 | reading any padded, signed or marked number gives its value and stops at its end |
| `Numerals.LongBack` | applications/runtime/crt.c:1461-1470 | strtol undoes format_number of a long at every width and padding |
| `Numerals.UnsignedBack` | applications/runtime/crt.c:1472-1481 | strtoul undoes it in base 10 and 16 |
| `Numerals.PointerBack` | applications/runtime/crt.c:1472-1481 | and undoes %p, told the base or left to find it |
| `ParseLaws.ScanWraps` | applications/runtime/crt.c:522-539 | scanning digits gives the number they spell modulo 2^64 and stops at the first other character |
| `ParseLaws.ParseMeans` | applications/runtime/crt.c:487-553 | for every text made of blanks, a sign, a base mark and digits, in every base: the value, its sign and where the reading stops |
| `ParseLaws.DigitsBack` | applications/runtime/crt.c:506-539 | reads back the digits of every value in bases 2 to 16, and in octal with the base left open behind a zero |
| `ParseLaws.DigitsLook` | applications/runtime/crt.c:97-122 | no leading zero except for zero itself, and only digits of the chosen case |
| `ParseLaws.NumberLooks` | applications/runtime/crt.c:124-162 | where blanks, sign, mark, zeros and digits of a padded number stand, and how long it is |
| `Format.Sink.PushChar` | applications/runtime/crt.c:56-65 | counts every character and stores it only while a terminator still fits |
| `Format.Sink.PushNumber` | applications/runtime/crt.c:124-162 | adds exactly the padded number |
| `Format.Sink.PushConverted` | applications/runtime/crt.c:199-272 | adds exactly what the conversion means, for every letter and modifier |
| `Format.Sink.Print` | applications/runtime/crt.c:164-281 | adds exactly the output of the format and terminates it |
| `Format.VsnPrintf` | applications/runtime/crt.c:164-281 | stores the first min(length, c-1) characters of the unbounded output and a terminator, nothing beyond, and returns the full length, exact below 2^31 |
| `Format.Measure` | applications/runtime/crt.c:1681-1688 | without room it only counts |
| `Format.PrintedLong` | applications/runtime/crt.c:214-231 | every single-conversion format that prints a long in decimal is undone by strtol |
| `Format.PrintedUnsigned` | applications/runtime/crt.c:232-267 | every one that prints an unsigned long in decimal or hex, or a pointer, is undone by strtoul |
| `FormatLaws.OutputJoin` | applications/runtime/crt.c:164-281 | a format followed by another prints both outputs in turn, the second from the argument after those the first takes |
| `FormatLaws.TwoConversions` | applications/runtime/crt.c:164-281 | two conversions print their own argument each |
| `FormatLaws.SpecMeans` | applications/runtime/crt.c:181-199 | zero flag, width, any number of l modifiers and the letter are read for what they spell, in every combination |
| `FormatLaws.LiteralCopied` | applications/runtime/crt.c:165-174 | text without a percent sign is copied |
| `FormatLaws.PercentAndUnknown` | applications/runtime/crt.c:176-272 | two percent signs print one; an unknown letter prints itself behind one |
| `FormatLaws.PrintedText` | applications/runtime/crt.c:206-213 | a string stands right-aligned in its width; null prints (null) |
| `FormatLaws.PrintedChar` | applications/runtime/crt.c:203-205 | a character prints the low byte |
| `FormatLaws.PrintedInt` | applications/runtime/crt.c:214-231 | a decimal int, whatever the upper half of its argument word, is undone by strtol |
| `FormatLaws.PrintedUnsignedInt` | applications/runtime/crt.c:232-262 | so is an unsigned int in decimal or hex by strtoul |
| `Calendar.MonthsFillYear` | applications/runtime/crt.c:839-890 | the month lengths add up to the year |
| `Calendar.MonthsClosed` | applications/runtime/crt.c:839 | the days before each month agree with a closed form |
| `Calendar.YearsClosed` | applications/runtime/crt.c:861-872 | the days before each year agree with the Gregorian leap-day count |
| `Calendar.FindYear` | applications/runtime/crt.c:861-872 | the year and the day in it; a negative day count stays in 1970 |
| `Calendar.FindMonth` | applications/runtime/crt.c:876-890 | the month and the day in it |
| `Calendar.TimeToTm` | applications/runtime/crt.c:835-891 | the fields denote the time, and all of them fit an int |
| `Calendar.FieldsFit` | applications/runtime/crt.c:874-884 | no conversion to int loses anything on a representable time |
| `Calendar.DenotesUnique` | applications/runtime/crt.c:835-891 | a time has exactly one set of fields, so that contract is complete |
| `Calendar.WeekdayClosed` | applications/runtime/crt.c:856-859 | the day of the week is the one the Gregorian calendar gives the date |
| `Calendar.TmToTime` | applications/runtime/crt.c:893-922 | the loops compute the time with the month lengths the code counts |
| `Calendar.RoundTripIff` | applications/runtime/crt.c:909-921 | the time comes back if and only if the year is not a multiple of 400 or the month is January; otherwise at least two days early |
| `Calendar.ThereAndBack` | applications/runtime/crt.c:835-922 | the two conversions composed |
| `Calendar.LeapCenturyLoses` | applications/runtime/crt.c:911 | 29 February 2000 comes back two days early |
| `Calendar.CountedShort` | applications/runtime/crt.c:911-913 | in a year divisible by 400 every month before the current one counts 29 days |

## Left out

Deliberately weaker or narrower than the code's own range:

- SharedHeap.Heap.Free: a pointer inside the window that is not a held payload pointer is a caller error the code does not detect, so it is excluded; likewise for Realloc.
- SharedHeap.Heap.Realloc: pointers from aligned_alloc passed to realloc are not modelled; the code would read the hidden header as a block header.
- CrtAlloc.AlignedAlloc: totals above 2^64-16 are excluded, because the raw block then lacks the room for what the code puts into it (`CrtAlloc.RawRoomIff`).
- CrtAlloc.Free: pointers are null, held, or aligned; for a pointer outside the window the code inspects memory that is not part of the model.
- UserHeap.Heap.AllocRaw: sizes whose last probe wraps are excluded, because the code then hands out memory in use (`HeapGaps.GapIsLowestIff`).
- RecordPool.Pool.RemovePageSlots: keeps the order of the remaining slots as user_heap.cpp does; the copies in shared_memory.cpp and file_mapping.cpp reverse it, which no property depends on.
- RecordPool.Pool.Free: a slot that is not live is a caller error and excluded; the code ignores it only when its page has no live slot at all.
- FileMapping.Mappings.MapView: offset 0 only; at another offset the code unmaps at the wrong address (`FileMapping.OffsetUnmapsIff`). A process without a page table cannot be mapped into.
- FileMapping.Mappings.Create: objects are named by their record; the lookup by path and its truncation are not modelled.
- SharedFont.Shared.Populate: the file is given as bytes, so I/O errors do not occur.
- OutlineBuilder.Build: starts from decoded points; coordinates are unbounded where the code has 64-bit 16.16 values.
- Numerals.FormatUnsigned: values of base^32 and more are excluded in bases 2 and 3, because they overrun the scratch array (`Numerals.BinaryOverruns`).
- Format.VsnPrintf: widths beyond int and outputs beyond 2^64 characters are not modelled; a missing or mistyped variadic argument reads as 0; sprintf, which passes an unlimited capacity, is not covered.
- Numerals.LongBack: LONG_MIN is excluded, since the code negates it in a signed type.
- Calendar.TmToTime: months beyond 12 are excluded; the code would index past its table.
- LaunchProtocol.RunKeepsInv: the branch for a dispatcher that cannot be started uses the caller's saved request id, where the code reads it from a node another thread may have freed.
- EventBroker.Broker.Publish: the 64-bit sequence number and the drop counter are unbounded.

Not modelled:

- Waiting, waking and querying in kernel_event.cpp, and unsubscribing all of a process: they read the queue state proved here, and the wait reads a subscriber that may be gone.
- Opening an existing file mapping, which only counts a handle, and truncation of long paths by copy_path.
- Release of a process whose address space is already gone: the same lists without the unmapping.
- Locks, interrupt masking, inline assembly, page tables and the physical allocator: atomic steps, maps and sets here.
- Decoding glyf flags and deltas, cmap and loca lookup, glyph scaling and the alpha rasterizer built on point_inside.
- Rasterizing with the imaging library in fntmaker.py: glyphs are given.
- Floating-point CRT functions, stdio streams, locale and environment: no stated bound, or flat tables.
- The formatters in ros_support.c, console.h and debug_message.cpp: near-copies of the one in crt.c.
- Scheduler, drivers, boot code, syscall wrappers, widgets and drawing: I/O or easy list facts.
