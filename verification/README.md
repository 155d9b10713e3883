# FrostyOS in Dafny

A model of the stateful core of FrostyOS, an x86_64 kernel with a small C library, and proofs
about it. `dafny verify dfyconfig.toml` checks everything.

Each component has a specification on plain values and, where the source changes things in
place, a class or a method with loops proved against that specification.

| files | component |
|---|---|
| `HeapTiles`, `HeapAllocator`, `HeapRuns` | kernel heap: headers linked in memory, first fit, splitting, two-sided coalescing |
| `SchedulerSpec`, `SchedulerSteps`, `SchedulerFairness`, `Scheduler` | priority queues of linked threads, run counters, the choice of the next thread, and how long a thread waits |
| `SemaphoreSteps`, `Semaphore` | semaphore, with its critical sections interleaved and with whole calls |
| `VirtualSpace`, `SizeIndex`, `VirtualPageManager` | virtual page blocks, free by size and used by address |
| `FrameAllocator` | bitmap of physical frames with its one-entry cache |
| `PageObjects`, `PageManager`, `PageRuns` | page objects, the page table and frames together |
| `SearchTree`, `TreeBalance`, `AVLTree` | the linked search tree with rotations, and its balance |
| `Digits`, `PrintfSpec`, `PrintfScan`, `PrintfText`, `StreamPrintf`, `BufferPrintf`, `NumberParsing`, `DirectiveLaws`, `PrintfLaws` | printf to a stream and to a buffer, the number parsers, and the laws that tie them |
| `Calendar` | day counts and the weekday formula |
| `Bytes`, `Signals` | signal delivery and return |
| `SymbolTable` | symbol table writer, reader and lookup |
| `BlockBuffer` | growable block buffer |
| `Machine`, `PowersOfTwo`, `Options`, `Seqs` | 64-bit words, page size, even factors, optional values, sequence facts |

## What was found

Where a promise does not hold of the code, the code is modelled as it is, the exact condition is
proved, and a member shows the failure at one input.

| promise | exact condition | failing input |
|---|---|---|
| a heap payload is as large as asked | `HeapRuns.RunIsSound`: what was asked for, as a true product, is at most 2^64 - 16 | `HeapRuns.RoundingWraps` |
| the heap counters count the blocks | `HeapAllocator.Allocator.Allocate`: no block 16 bytes too large was granted whole | `HeapAllocator.CountersDrift` |
| holders and units in flight stay within a semaphore's units | `SemaphoreSteps.ExclusiveExactly`: no release lowers the value below zero | `SemaphoreSteps.TwoHolders` |
| a run of frames lies in memory | `FrameAllocator.Frames.AllocatePages`: some free run does | `FrameAllocator.RunLeavesMemory` |
| a run of one frame was free | `FrameAllocator.Frames.AllocatePages`: eight times the lowest free frame is a free frame | `FrameAllocator.OneFrameTwice` |
| the free memory counter counts the free frames | `FrameAllocator.Frames.LockPage`, `ReservePage`, `AllocatePages`: the frames lie in memory | `FrameAllocator.RunLeavesMemory` |
| clipping a range leaves what it shares with the region | `VirtualPageManager.ClipExactly`: it lay inside already | `VirtualPageManager.ClipLeaves` |
| null means that no pages were allocated | `VirtualPageManager.Manager.AllocateAny`, `AllocateAt`: the pages taken do not start at address 0 | `VirtualPageManager.NullSuccess` |
| each byte is in one virtual block | `VirtualPageManager.Manager.AllocateAt`: the page count without its top bit, as the entry records it, is below 2^52 | `VirtualPageManager.PagesWrap` |
| page objects and page table agree | `PageManager.PageManager.AllocatePages`: no reservation is offered for a request ending at or past 2^64 | `PageRuns.WrapBreaks` |
| freeing pages takes no frame from another page | `PageManager.SparedExactly`: the object was in use or frame 0 is not mapped | `PageRuns.FrameZeroLost` |
| used virtual pages belong to some object | `PageManager.PageManager.FreePage`, `FreePages`: what is freed is a whole used block; `AllocatePages`, `ReservePages`: the pages taken do not start at address 0 | `PageRuns.PagesLost` |
| insertion keeps the tree balanced | `TreeBalance.BalancedExactly`: every right-left case is undone by the rotation above it | `TreeBalance.BalanceLost`, and `TreeBalance.BalanceRepaired` for the repair |
| insertion follows no null link | `AVLTree.Insert`: the rotated grandchild exists, as in every balanced tree | `TreeBalance.GrandchildMissed` |
| the width of a directive is a minimum | `DirectiveLaws.WidthExactly`: not a zero of precision 0 with room for one digit, nor a character or percent sign wider than one, nor an unknown letter with a width | `NumberParsing.FieldOfOne`, `DirectiveLaws.WideCharacter` |
| the precision is a minimum of digits | `PrintfLaws.SignedPrecision`: no sign is printed, or the number is long enough, or the field is wider than the precision, or it is left-justified with more than one zero to add; always for unsigned ones (`UnsignedPrecision`) | `PrintfLaws.SignTakesDigit` |
| a number printed by a directive reads back | `DirectiveLaws.UnsignedExactly`, `SignedExactly`: it is zero, or there is no hexadecimal prefix, no plus or blank, no zeros padded on the right and no spaces on the left | `NumberParsing.ZerosOnTheRight`, `DirectiveLaws.AlternativeForm` |
| `vsnprintf` stays in its buffer | `BufferPrintf.VSNPrintf`: the size is not 0 | `BufferPrintf.SizeZero` |
| the weekday agrees with the day count | `Calendar.WeekDayExactly`: not January or February of year 0 | `Calendar.YearZero` |
| bytes written at an offset are read there | `BlockBuffer.ReadsBackExactly`: the offset is not beyond the end | `BlockBuffer.WriteBeyond` |

A queued thread runs within a bounded number of choices of any one processor
(`SchedulerFairness.RunsWithin`). Threads that leave a processor before they are put back add to
the bound, since they are never counted as having run; without that part there is no bound
(`SchedulerFairness.Starved`).

## Model

| member | source | states |
|---|---|---|
| HeapTiles.AllocKeepsTiling | kernel/src/Memory/kmalloc.cpp:100-135 | allocating keeps header-plus-payload tiles covering the arena end to end, 16-byte aligned, no two neighbours free |
| HeapTiles.FreeKeepsTiling | kernel/src/Memory/kmalloc.cpp:168-234 | freeing, with joins on either side, keeps the same |
| HeapTiles.AllocLive | kernel/src/Memory/kmalloc.cpp:100-135 | exactly the granted block becomes live |
| HeapTiles.FreeLive | kernel/src/Memory/kmalloc.cpp:137-143 | exactly the freed block stops being live; the other live tiles keep place and size |
| HeapTiles.LivePayloadsDisjoint | kernel/src/Memory/kmalloc.cpp:100-135 | two live payloads never overlap |
| HeapTiles.AllocThenFree | kernel/src/Memory/kmalloc.cpp:100-143 | freeing what was just allocated restores the tiles, hence the free list, exactly |
| HeapTiles.FreeAllCollapses | kernel/src/Memory/kmalloc.cpp:137-234 | freeing all live blocks in any order leaves one free block spanning the arena |
| HeapTiles.FreeOfAllocAt | kernel/src/Memory/kmalloc.cpp:113-131 | the free list of the tiles after allocation is the old one with the entry dropped or replaced by its remainder |
| HeapTiles.FreeOfFreeAt | kernel/src/Memory/kmalloc.cpp:168-234 | the free list of the tiles after freeing is the old one with the block woven in at its address and joined to what it touches |
| HeapTiles.ArenaBytes | kernel/src/Memory/kmalloc.cpp:86-98 | headers and payloads of the tiles always add up to the arena |
| HeapTiles.GrantedExactly | kernel/src/Memory/kmalloc.cpp:100-135 | a request is refused, changing nothing, exactly when no free tile is large enough; else it gets the payload of the lowest one, split exactly when more than a header is left over |
| HeapAllocator.Allocator.constructor | kernel/src/Memory/kmalloc.cpp:86-98 | one free block spans the arena |
| HeapAllocator.Allocator.FindFit | kernel/src/Memory/kmalloc.cpp:102-111 | the list walk stops at the lowest free block that is large enough |
| HeapAllocator.Allocator.Take | kernel/src/Memory/kmalloc.cpp:113-131 | the found block leaves the linked list, split or whole, and the list is again the free tiles in address order |
| HeapAllocator.Allocator.Allocate | kernel/src/Memory/kmalloc.cpp:100-135 | grants the first fit of the tiles or nothing, headers of live blocks intact, counters moved by the requested size with the 16-byte drift recorded |
| HeapAllocator.Allocator.JoinNext | kernel/src/Memory/kmalloc.cpp:168-234 | a freed block that touches its successor becomes one list entry with it |
| HeapAllocator.Allocator.JoinPrev | kernel/src/Memory/kmalloc.cpp:168-234 | a freed block that touches its predecessor, and perhaps its successor, becomes one entry with them |
| HeapAllocator.Allocator.InsertBetween | kernel/src/Memory/kmalloc.cpp:168-234 | a freed block that touches no free block becomes an entry at its place in the order |
| HeapAllocator.Allocator.AddToFreeList | kernel/src/Memory/kmalloc.cpp:168-234 | the linked list becomes the free list of the tiles after freeing |
| HeapAllocator.Allocator.Free | kernel/src/Memory/kmalloc.cpp:137-143 | the tiles become those after freeing the block of the pointer, counters moved by its size |
| HeapAllocator.Allocator.GetFreeMem | kernel/src/Memory/kmalloc.cpp:145-159 | free bytes plus the accumulated drift |
| HeapAllocator.Allocator.GetUsedMem | kernel/src/Memory/kmalloc.cpp:145-159 | used bytes less the accumulated drift |
| HeapAllocator.Allocator.GetTotalMem | kernel/src/Memory/kmalloc.cpp:145-159 | free plus used is always the arena |
| HeapAllocator.Allocator.KMalloc | kernel/src/Memory/kmalloc.cpp:268-275 | nothing for size zero, else the lowest free block that holds the rounded size, or nothing exactly when there is none |
| HeapAllocator.Allocator.KCalloc | kernel/src/Memory/kmalloc.cpp:249-260 | the same for the rounded product, wrapped to 64 bits |
| HeapAllocator.CountersDrift | kernel/src/Memory/kmalloc.cpp:100-135 | asking for 4064 bytes of a heap of 4080 hands out all 4080 and counts 4064 used |
| HeapRuns.StepKeepsSound | kernel/src/Memory/kmalloc.cpp:100-143 | every call keeps the tiling, and a block is out exactly when its tile is live and large enough exactly when rounding did not wrap |
| HeapRuns.RunIsSound | kernel/src/Memory/kmalloc.cpp:100-143 | the same in every state of every run of kmalloc, kcalloc and kfree from a fresh heap |
| HeapRuns.GrantThenRelease | kernel/src/Memory/kmalloc.cpp:100-143 | a call followed by the release of its result is a step back to the same heap |
| HeapRuns.CallServed | kernel/src/Memory/kmalloc.cpp:249-275 | in every sound heap a call of at most 2^64 - 16 bytes is served exactly when some free tile holds the bytes asked for, and by the lowest such tile |
| HeapRuns.RoundingWraps | kernel/src/Memory/kmalloc.cpp:268-275 | a request for 2^64 - 1 bytes is granted an empty payload |
| SchedulerSpec.ChoiceIsServable | kernel/src/Scheduling/Scheduler.cpp:663-711 | only a non-empty queue is popped; idle or nothing is chosen exactly when all four priority queues are empty |
| SchedulerSpec.WaitShrinks | kernel/src/Scheduling/Scheduler.cpp:627-711 | a pick that passes over a waiting class lowers that class's wait measure, despite 8-bit wrap-around |
| SchedulerSpec.WaitsAfresh | kernel/src/Scheduling/Scheduler.cpp:663-711 | after a pick of a class the wait measure of that class is again 124, 24 or 4; idling changes no counter |
| SchedulerSpec.CounterWraps | kernel/src/Scheduling/Scheduler.cpp:627-662 | over a run of kernel picks the kernel counter is the number of picks modulo 256 |
| SchedulerSpec.LowWithin125 | kernel/src/Scheduling/Scheduler.cpp:627-711 | one of any 125 picks at which a low thread waits, and before which the running thread is put back, takes a low thread |
| SchedulerSpec.NormalWithin25 | kernel/src/Scheduling/Scheduler.cpp:627-711 | one of any 25 such picks takes a normal or low thread if one waits at each |
| SchedulerSpec.AnyWithin5 | kernel/src/Scheduling/Scheduler.cpp:627-711 | one of any 5 such picks takes a thread that is not a kernel thread if one waits at each |
| SchedulerSpec.LowExactly | kernel/src/Scheduling/Scheduler.cpp:627-711 | with all four queues occupied the low thread's turn comes after exactly its wait measure, which is 124 for a fresh processor |
| SchedulerSteps.StepConserves | kernel/src/Scheduling/Scheduler.cpp:615-711 | each of the three locked sections of a pick (requeue, choice, idle pop), on any processor, moves a thread and loses or duplicates none |
| SchedulerSteps.RunKeepsOrder | kernel/src/Scheduling/Scheduler.cpp:615-711 | over every interleaving of those sections no thread is in two places and every queue holds its own kind |
| SchedulerSteps.PicksConserve | kernel/src/Scheduling/Scheduler.cpp:615-711 | a run of picks leaves the number of places of every thread as it was |
| SchedulerSteps.StepKeepsTurns | kernel/src/Scheduling/Scheduler.cpp:615-711 | every queue, the idle one too, is left at the front by the thread that then runs and joined at the back, and no step does more |
| SchedulerSteps.RunsInOnePlace | kernel/src/Scheduling/Scheduler.cpp:615-711 | outside a pick a running thread runs on one processor and is in no queue |
| SchedulerFairness.PassShrinks | kernel/src/Scheduling/Scheduler.cpp:627-711 | a choice that passes over a waiting kind, whichever of the four, brings its turn nearer |
| SchedulerFairness.RunsWithin | kernel/src/Scheduling/Scheduler.cpp:615-711 | over every interleaving the thread at place p of its queue runs by the time one processor has made 2, 10, 50 or 125 (kernel, high, normal, low) times p + 1 choices, and 1, 5, 25 or 25 more for each thread that left that processor |
| SchedulerFairness.Starved | kernel/src/Scheduling/Scheduler.cpp:615-711 | a cycle of steps in which a kernel thread keeps blocking and a low thread waits for ever |
| Scheduler.ThreadList.PushBack | kernel/src/Scheduling/Scheduler.cpp:56-64 | the linked deque gains the thread at the back, links well formed |
| Scheduler.ThreadList.PushFront | kernel/src/Scheduling/Scheduler.cpp:66-74 | the same at the front |
| Scheduler.ThreadList.PopBack | kernel/src/Scheduling/Scheduler.cpp:76-92 | takes the last thread, fully unlinked, or nothing when empty |
| Scheduler.ThreadList.PopFront | kernel/src/Scheduling/Scheduler.cpp:94-110 | takes the first thread, fully unlinked, or nothing when empty |
| Scheduler.ThreadList.Get | kernel/src/Scheduling/Scheduler.cpp:139-146 | following links reaches the thread at an index |
| Scheduler.ThreadList.Contains | kernel/src/Scheduling/Scheduler.cpp:148-156 | the walk finds a thread exactly when it is in the list |
| Scheduler.RunQueues.PutBack | kernel/src/Scheduling/Scheduler.cpp:627-662 | the running thread joins the back of its queue, its counter moves, nothing else changes |
| Scheduler.RunQueues.Choose | kernel/src/Scheduling/Scheduler.cpp:663-711 | the linked queues and the processor become what the choice specification says |
| Scheduler.RunQueues.PickNext | kernel/src/Scheduling/Scheduler.cpp:615-711 | a whole pick; threads stay in exactly one list or on one processor; a single thread keeps running |
| Scheduler.RunQueues.ReaddThread | kernel/src/Scheduling/Scheduler.cpp:856-882 | a returning thread joins the back of the queue of its kind |
| SemaphoreSteps.StepKeepsInv | kernel/src/Scheduling/Semaphore.cpp:46-111 | each critical section keeps value plus holders plus units in flight, and waiters imply value at most the pending releases |
| SemaphoreSteps.RunKeepsInv | kernel/src/Scheduling/Semaphore.cpp:46-111 | the same in every state of every interleaving |
| SemaphoreSteps.NoLostWakeup | kernel/src/Scheduling/Semaphore.cpp:46-111 | when nothing is in progress and someone waits, no unit is free |
| SemaphoreSteps.StepMoves | kernel/src/Scheduling/Semaphore.cpp:46-111 | for every thread: it comes to hold a unit when it finds one free or a release hands it one, waits when it finds none, and stops when its own entry is dropped; no step moves anyone else |
| SemaphoreSteps.RunMoves | kernel/src/Scheduling/Semaphore.cpp:46-111 | over every run how often a thread holds or waits is how often it asked less how often it was dropped |
| SemaphoreSteps.StepKeepsOrder | kernel/src/Scheduling/Semaphore.cpp:46-111 | waiters are listed in order of arrival and taken from the front |
| SemaphoreSteps.ExclusiveExactly | kernel/src/Scheduling/Semaphore.cpp:46-111 | throughout a run holders and units in flight stay within the units exactly when no release lowers a value of zero |
| SemaphoreSteps.SafeUnlessBarging | kernel/src/Scheduling/Semaphore.cpp:46-111 | the value stops covering the pending releases exactly at an acquire taking a unit one of them counts on |
| SemaphoreSteps.OvertakingIsBarging | kernel/src/Scheduling/Semaphore.cpp:46-82 | an acquire that passes a waiter is such a step |
| SemaphoreSteps.NoBargingNoExcess | kernel/src/Scheduling/Semaphore.cpp:46-111 | without such steps there are never more holders than units and the value never wraps |
| SemaphoreSteps.TwoHolders | kernel/src/Scheduling/Semaphore.cpp:84-111 | a run of a mutex that ends with two holders |
| Semaphore.ReleasedIs | kernel/src/Scheduling/Semaphore.cpp:84-111 | the five sections of release run through: hand the unit to the first waiter, or give it back |
| Semaphore.AcquiredIs | kernel/src/Scheduling/Semaphore.cpp:46-82 | the two sections of acquire run through: the caller itself takes a free unit, or is the last to wait |
| Semaphore.CallMoves | kernel/src/Scheduling/Semaphore.cpp:46-111 | a whole call changes the holders by its caller and, when a unit is given up, the first waiter |
| Semaphore.Semaphore.constructor | kernel/src/Scheduling/Semaphore.cpp:32-34 | a semaphore with all its units free |
| Semaphore.Semaphore.Acquire | kernel/src/Scheduling/Semaphore.cpp:46-82 | the uninterrupted acquire; the caller joins the holders or the end of the waiters, units conserved, waiters only at value zero |
| Semaphore.Semaphore.AcquireNoLock | kernel/src/Scheduling/Semaphore.cpp:113-120 | acquires when the value is not zero, else changes nothing |
| Semaphore.Semaphore.Release | kernel/src/Scheduling/Semaphore.cpp:84-111 | the uninterrupted release; the waiter woken is the one that came first |
| Semaphore.Semaphore.Destroy | kernel/src/Scheduling/Semaphore.cpp:36-44 | every waiter is made runnable in order |
| Semaphore.CallsKeepCount | kernel/src/SystemCalls/Synchronisation.cpp:41-72 | over every sequence of whole calls value plus holders is the initial count, waiters exist only at zero, a mutex has at most one holder |
| VirtualPageManager.Manager.constructor | kernel/src/Memory/VirtualPageManager.cpp:280-287 | the whole region, which may start at address 0, is free |
| VirtualPageManager.Manager.Split | kernel/src/Memory/VirtualPageManager.cpp:79-119 | cutting a free block frees the same bytes, and the size index still lists the blocks |
| SizeIndex.OldestFirst | kernel/src/Data-structures/LinkedList.cpp:122-143 | blocks of one size are listed in the order in which they became free, through every insertion and deletion |
| VirtualPageManager.Manager.FindAndSplit | kernel/src/Memory/VirtualPageManager.cpp:598-722 | the search over sizes finds a containing block if there is one and isolates the range as a block |
| VirtualPageManager.Manager.UnfreePages | kernel/src/Memory/VirtualPageManager.cpp:598-722 | for any request, clipped to the region: succeeds exactly when one free block contains the clipped range (is it, when exact), then removes exactly those bytes, else the same bytes stay free |
| VirtualPageManager.Manager.FreePages | kernel/src/Memory/VirtualPageManager.cpp:566-592 | exactly the given pages become free |
| VirtualPageManager.Manager.LockPages | kernel/src/Memory/VirtualPageManager.cpp:500-528 | checked or not, unfreeing or not: the used entry is recorded unless one is there or nothing is left after clipping, and then the free block goes |
| VirtualPageManager.Manager.UnlockPages | kernel/src/Memory/VirtualPageManager.cpp:534-559 | an exact used block becomes free, anything else changes nothing; each byte stays in exactly one block |
| VirtualPageManager.Manager.AllocateAny | kernel/src/Memory/VirtualPageManager.cpp:424-447 | best fit, failing exactly when no block is large enough; null exactly then or when the block starts at address 0; each byte stays in exactly one block |
| VirtualPageManager.Manager.AllocateAt | kernel/src/Memory/VirtualPageManager.cpp:455-466 | succeeds exactly when one free block contains the range, and then returns it; the partition is kept exactly when the page count without its top bit is below 2^52 |
| VirtualPageManager.NullSuccess | kernel/src/Memory/VirtualPageManager.cpp:424-447 | in a region at address 0 the first page is recorded as used and null returned |
| VirtualPageManager.PagesWrap | kernel/src/Memory/VirtualPageManager.cpp:455-466 | a request for 2^52 + 1 pages takes one page, records them all and ends the partition |
| VirtualPageManager.ClipExactly | kernel/src/Memory/VirtualRegion.cpp:88-103 | a range is refused exactly when it misses the region, and the part left is the shared one exactly when the range lay inside |
| VirtualPageManager.ClipLeaves | kernel/src/Memory/VirtualRegion.cpp:88-103 | two pages of which one lies beyond the region are not cut |
| VirtualPageManager.PagesExactly | kernel/src/Memory/VirtualPageManager.cpp:500-528 | a checked request keeps its pages inside the region and is refused outside it; an unchecked one keeps them |
| FrameAllocator.WithBitIs | kernel/src/Data-structures/Bitmap.cpp:44-54 | writing one bit of a byte changes that bit only |
| FrameAllocator.Bitmap.Set | kernel/src/Data-structures/Bitmap.cpp:44-54 | one bit of the bitmap changes, none when past the end |
| FrameAllocator.Frames.FindFreePage | kernel/src/Memory/PhysicalPageFrameAllocator.cpp:313-346 | the cached frame if there is one, else the lowest free frame; the frame after it is cached when free; none exactly when all are taken |
| FrameAllocator.Frames.AllocatePage | kernel/src/Memory/PhysicalPageFrameAllocator.cpp:164-171 | never a frame that is taken; fails exactly when every frame is; the counter of free memory follows |
| FrameAllocator.Frames.FreePage | kernel/src/Memory/PhysicalPageFrameAllocator.cpp:234-252 | exactly one frame is given back and cached, the counter of free memory follows, totals are conserved |
| FrameAllocator.Frames.ReservePage | kernel/src/Memory/PhysicalPageFrameAllocator.cpp:181-200 | exactly one frame is reserved, and leaves the cache if it was there; the counter of free memory follows exactly when the frame is in memory |
| FrameAllocator.Frames.UnreservePage | kernel/src/Memory/PhysicalPageFrameAllocator.cpp:208-226 | exactly one frame is given back and cached, the counter of free memory follows, totals are conserved |
| FrameAllocator.Frames.LockPage | kernel/src/Memory/PhysicalPageFrameAllocator.cpp:262-279 | exactly one frame becomes taken; the counter of free memory follows exactly when the frame is in memory |
| FrameAllocator.Frames.FindFreePages | kernel/src/Memory/PhysicalPageFrameAllocator.cpp:348-393 | the lowest run of clear bits; the single-frame request answers with eight times the frame |
| FrameAllocator.Frames.LockPages | kernel/src/Memory/PhysicalPageFrameAllocator.cpp:281-285 | exactly the frames of the run become taken; the counter of free memory is off by the frames beyond memory |
| FrameAllocator.Frames.AllocatePages | kernel/src/Memory/PhysicalPageFrameAllocator.cpp:173-179 | for two or more frames a run that was free, inside memory exactly when some free run is; for one frame the exact conditions under which it was a free frame and the cache stays sound |
| FrameAllocator.RunLeavesMemory | kernel/src/Memory/PhysicalPageFrameAllocator.cpp:348-393 | with only the last two of eight frames free a run of three is found at frame 6, and the counter of free memory ends below zero |
| FrameAllocator.ReusedFirst | kernel/src/Memory/PhysicalPageFrameAllocator.cpp:234-346 | the frame freed last is the next one handed out |
| FrameAllocator.OneFrameTwice | kernel/src/Memory/PhysicalPageFrameAllocator.cpp:173-179 | with frame 1 the lowest free one a run of one frame yields frame 8, which was taken, and frame 1 stays free |
| PageObjects.CutObject | kernel/src/Memory/PageManager.cpp:238-291 | cutting an object in two keeps objects disjoint and inside used blocks |
| PageObjects.RemovedMaps | kernel/src/Memory/PageManager.cpp:582-609 | taking an object off the list unmaps its pages and no others |
| PageManager.PageManager.MapPages | kernel/src/Memory/PageManager.cpp:296-298 | each page gets a frame that was free, no two share one; a panic exactly when fewer frames are free than pages asked for |
| PageManager.PageManager.CarveStandby | kernel/src/Memory/PageManager.cpp:238-294 | the requested pages of a reservation become an object in use, the rest stays reserved |
| PageManager.CarveKeeps | kernel/src/Memory/PageManager.cpp:238-294 | carving pages inside a reservation keeps objects disjoint and backed, maps just those pages and leaves no byte without an object |
| PageManager.CarveGives | kernel/src/Memory/PageManager.cpp:238-294 | using part of a reservation gives an object of just the pages and permissions asked for, and takes just those pages out of what is reserved |
| PageManager.OffersExactly | kernel/src/Memory/PageManager.cpp:77-86 | a reservation is offered to a request that does not wrap exactly when it holds the pages, is unused and has the same permissions |
| PageManager.PageManager.FindSpace | kernel/src/Memory/PageManager.cpp:305-327 | virtual pages no object holds, and exactly when there are any that do not start at address 0 |
| PageManager.SpaceExactly | kernel/src/Memory/PageManager.cpp:305-327 | at a given address there is space exactly when one free block holds the pages: the test against the objects rules out nothing more |
| PageManager.PageManager.UseStandby | kernel/src/Memory/PageManager.cpp:238-303 | a request served from a reservation; the invariants are kept exactly when it does not end at or past 2^64 |
| PageManager.PageManager.UseFresh | kernel/src/Memory/PageManager.cpp:305-389 | a request served from virtual space no object holds; the invariants are kept and just as many frames are used as pages mapped |
| PageManager.PageManager.AllocatePages | kernel/src/Memory/PageManager.cpp:70-389 | objects stay disjoint, pages are mapped exactly when their object is in use, no frame is shared, mapped frames are taken, exactly when no reservation is offered to a wrapping request; exactly when it succeeds and panics, and what is new; every used page stays with an object exactly when none is taken at address 0 |
| PageManager.PageManager.ReservePages | kernel/src/Memory/PageManager.cpp:391-554 | the same invariants; a reserved object is appended and nothing is mapped; every used page stays with an object exactly when none is taken at address 0 |
| PageManager.PageManager.FreePage | kernel/src/Memory/PageManager.cpp:556-580 | objects, table, frames and used blocks after freeing; the invariants are kept exactly when the object was in use or frame 0 is not mapped, and every used page stays with an object exactly when the object was a whole used block |
| PageManager.PageManager.FreePages | kernel/src/Memory/PageManager.cpp:582-609 | the same for an object of several pages |
| PageManager.SparedExactly | kernel/src/Memory/PageManager.cpp:556-609 | freeing an object takes no frame from another page exactly when it was in use or frame 0 is not mapped |
| PageManager.RemovedClaims | kernel/src/Memory/PageManager.cpp:556-609 | without an object every used byte still lies in one exactly when the object was a whole used block |
| PageManager.InsideExactly | kernel/src/Memory/VirtualRegion.cpp:84-86 | the bounds test means containment exactly when the end does not wrap into the region |
| PageManager.LastPageOffered | kernel/src/Memory/PageManager.cpp:79-80 | a request for the last page of the address space passes for part of any reservation below it |
| PageRuns.WrapBreaks | kernel/src/Memory/PageManager.cpp:70-303 | two pages reserved, then the last page of the address space allocated, ends the invariants |
| PageRuns.ReserveAndFree | kernel/src/Memory/PageManager.cpp:391-609 | reserving two pages and freeing them frees frame 0 and keeps the invariants exactly when frame 0 is not mapped |
| PageRuns.FrameZeroLost | kernel/src/Memory/PageManager.cpp:391-609 | a run from a fresh manager after which a mapped page lies on a free frame |
| PageRuns.PagesLost | kernel/src/Memory/PageManager.cpp:238-609 | two pages reserved, one of them used and both freed leave no object and both pages used |
| SearchTree.InsertHas | kernel/src/Data-structures/AVLTree.cpp:141-188 | insertion adds its binding when the key is new and changes no other |
| SearchTree.InsertSize | kernel/src/Data-structures/AVLTree.cpp:141-188 | one more node for a new key, none for a duplicate |
| SearchTree.InsertSorted | kernel/src/Data-structures/AVLTree.cpp:141-188 | insertion keeps the search order through all rotations |
| TreeBalance.BalancedExactly | kernel/src/Data-structures/AVLTree.cpp:141-188 | insertion into a balanced search tree keeps the balance exactly when every right-left case met is undone by the right rotation just above it |
| TreeBalance.Outcome | kernel/src/Data-structures/AVLTree.cpp:141-188 | the heights and shape after insertion, balanced or not |
| TreeBalance.BalanceLost | kernel/src/Data-structures/AVLTree.cpp:183-187 | three insertions that lose the balance |
| TreeBalance.BalanceRepaired | kernel/src/Data-structures/AVLTree.cpp:170-187 | five insertions in which a right-left case is undone above |
| TreeBalance.BalancedSafe | kernel/src/Data-structures/AVLTree.cpp:176-181 | insertion into any balanced search tree finds the grandchild of the left-right case |
| TreeBalance.GrandchildMissed | kernel/src/Data-structures/AVLTree.cpp:176-181 | nine insertions after which a tenth follows a null link |
| AVLTree.RightRotate | kernel/src/Data-structures/AVLTree.cpp:103-117 | the linked nodes become the rotated tree, all stored heights right, no node lost |
| AVLTree.LeftRotate | kernel/src/Data-structures/AVLTree.cpp:119-133 | the mirror image |
| AVLTree.LeftRightRotate | kernel/src/Data-structures/AVLTree.cpp:177-181 | the double rotation, through a state with a stale height |
| AVLTree.Insert | kernel/src/Data-structures/AVLTree.cpp:141-188 | the linked tree becomes the inserted one with every stored height equal to the real one; faults exactly when a rotated grandchild is missing |
| AVLTree.FindNode | kernel/src/Data-structures/AVLTree.cpp:190-201 | finds the node of a key exactly when it is there |
| AVLTree.FindNodeOrHigher | kernel/src/Data-structures/AVLTree.cpp:203-215 | finds the least key not below the query, or nothing when all are below |
| PrintfScan.AdvanceKeeps | Userland/Libraries/LibC/src/stdio.cpp:340-450 | a scanning turn of the mode machine leaves what the reference grammar has still to print as it was |
| PrintfScan.Unpack | Userland/Libraries/LibC/src/stdio.cpp:222-230 | the digit loop yields the numeral backwards and never overflows its 64 places |
| PrintfLaws.DirectiveIs | Userland/Libraries/LibC/src/stdio.cpp:340-704 | a directive put together from flags, width, precision (each a number, an argument or left out), length and letter, anywhere in a format, prints its conversion with exactly those parts |
| PrintfLaws.PlainIs | Userland/Libraries/LibC/src/stdio.cpp:320-339 | text without directives prints as it is |
| PrintfLaws.TwoPrecisions | Userland/Libraries/LibC/src/stdio.cpp:405-414 | a second precision ends the printing |
| PrintfLaws.ArgumentsExactly | Userland/Libraries/LibC/src/stdio.cpp:642-700 | an argument is taken as the number of 32 or 64 bits, signed or not, that its bits stand for |
| PrintfLaws.RightLayout | Userland/Libraries/LibC/src/stdio.cpp:222-275 | place by place, a right-justified number: zeros of the precision or the flag counted from the left, spaces, the numeral |
| PrintfLaws.LeftLayout | Userland/Libraries/LibC/src/stdio.cpp:222-275 | a left-justified one: zeros of the precision, the numeral, padding |
| PrintfLaws.ZeroLayout | Userland/Libraries/LibC/src/stdio.cpp:168-220 | zero in any field |
| PrintfLaws.SignLayout | Userland/Libraries/LibC/src/stdio.cpp:282-301 | which sign comes first, and the magnitude in the rest of the field |
| PrintfLaws.StringLayout | Userland/Libraries/LibC/src/stdio.cpp:559-578 | a string up to its terminator or a positive precision, then spaces |
| PrintfLaws.CapitalLetters | Userland/Libraries/LibC/src/stdio.cpp:451-704 | `X` prints what `x` does in capitals, which `x` never prints |
| PrintfLaws.AlternativeIs | Userland/Libraries/LibC/src/stdio.cpp:616-636 | `#` puts `0x` or `0` in front and takes it from the width; decimal numbers have no such form |
| PrintfLaws.OtherLetters | Userland/Libraries/LibC/src/stdio.cpp:451-613 | `i` is `d`, `p` is `x` of a long; what `c`, `%` and unknown letters print |
| PrintfLaws.UnsignedPrecision | Userland/Libraries/LibC/src/stdio.cpp:163-280 | an unsigned conversion prints at least as many digits as its precision |
| PrintfLaws.SignedPrecision | Userland/Libraries/LibC/src/stdio.cpp:282-301 | exactly when a signed one does |
| PrintfLaws.SignTakesDigit | Userland/Libraries/LibC/src/stdio.cpp:282-301 | `%.3d` of -5 prints -05 |
| StreamPrintf.Stream.PutUint | Userland/Libraries/LibC/src/stdio.cpp:163-280 | the padding and digit loops print the laid-out number and count it |
| StreamPrintf.Stream.PutInt | Userland/Libraries/LibC/src/stdio.cpp:282-301 | the same with a sign |
| StreamPrintf.Stream.PutString | Userland/Libraries/LibC/src/stdio.cpp:559-578 | the string up to its terminator or precision, then spaces |
| StreamPrintf.Stream.PutDirective | Userland/Libraries/LibC/src/stdio.cpp:451-704 | one conversion prints what the reference says, or stops where it does |
| StreamPrintf.Stream.VFPrintf | Userland/Libraries/LibC/src/stdio.cpp:303-733 | the mode loop terminates, prints the rendering of the format and returns its length |
| BufferPrintf.Buffer.Put | Userland/Libraries/LibC/src/stdio.cpp:735-740 | the buffer holds the longest prefix that fits and is untouched beyond |
| BufferPrintf.Buffer.PutUint | Userland/Libraries/LibC/src/stdio.cpp:742-859 | the separately written buffer routine prints the same laid-out number |
| BufferPrintf.Buffer.PutInt | Userland/Libraries/LibC/src/stdio.cpp:861-880 | the same with a sign |
| BufferPrintf.Buffer.PutDirective | Userland/Libraries/LibC/src/stdio.cpp:1034-1287 | one conversion prints what the reference says |
| BufferPrintf.VSNPrintf | Userland/Libraries/LibC/src/stdio.cpp:882-1318 | a terminated prefix of the rendering in the buffer, the full length returned, the rest untouched; a store outside the buffer exactly when the buffer has no room for what the size lets through, so in a buffer of that size exactly when it is 0 |
| BufferPrintf.SizeZero | Userland/Libraries/LibC/src/stdio.cpp:883 | with size 0 a buffer of no characters is overrun |
| BufferPrintf.SameOutput | Userland/Libraries/LibC/src/stdio.cpp:303-1318 | both families give the same result for every size, and the buffer holds a prefix of the stream unless it was overrun |
| NumberParsing.FieldWidth | Userland/Libraries/LibC/src/stdio.cpp:742-859 | the number routine fills the length it is given except for zero with precision 0 and length one |
| NumberParsing.FieldOfOne | Userland/Libraries/LibC/src/stdio.cpp:742-859 | `%1.0d` of zero prints nothing |
| DirectiveLaws.WidthExactly | Userland/Libraries/LibC/src/stdio.cpp:451-704 | for every conversion letter, exactly when the output is as long as the width of the directive |
| DirectiveLaws.WideCharacter | Userland/Libraries/LibC/src/stdio.cpp:555-558 | `%2c` prints one character |
| Digits.NumeralValue | Userland/Libraries/LibC/src/stdio.cpp:801-809 | a numeral denotes its number and has no leading zero |
| Digits.DigitsExactly | Userland/Libraries/LibC/src/stdlib.c:65-151 | which characters are digits of which value in the bases 2, 8, 10 and 16, and that no other base has any |
| NumberParsing.StrToUL | Userland/Libraries/LibC/src/stdlib.c:115-151 | the value of the leading digits modulo 2^64, and where the end pointer is set |
| NumberParsing.StrToL | Userland/Libraries/LibC/src/stdlib.c:65-109 | the same after an optional minus sign, as a 64-bit two's complement number |
| NumberParsing.ReadsBack | Userland/Libraries/LibC/src/stdlib.c:115-151 | what the number routine prints for a positive number reads back, before and after reduction to 64 bits, exactly when zeros pad on the left, spaces on the right, or nothing pads beyond the precision |
| NumberParsing.ZeroReads | Userland/Libraries/LibC/src/stdlib.c:115-151 | a printed zero always reads as zero |
| NumberParsing.SignedReadsBack | Userland/Libraries/LibC/src/stdlib.c:65-109 | a printed signed number reads back, before and after reduction to 64 bits, exactly when its magnitude does and no plus or blank precedes it |
| DirectiveLaws.UnsignedExactly | Userland/Libraries/LibC/src/stdio.cpp:451-704 | for `u`, `o`, `x`, `X` and `p` with any flags, width, precision and length, exactly when `strtoul` gives the argument back |
| DirectiveLaws.SignedExactly | Userland/Libraries/LibC/src/stdio.cpp:451-704 | the same for `d`, `i` and `strtol` |
| DirectiveLaws.AlternativeForm | Userland/Libraries/LibC/src/stdio.cpp:451-704 | `%#lx` of 10 prints 0xa, which reads as 0 |
| PowersOfTwo.ZerosMatter | Userland/Libraries/LibC/src/stdlib.c:115-151 | zeros read after a positive number change it, in 64 bits too |
| NumberParsing.UnsignedDirective | Userland/Libraries/LibC/src/stdio.cpp:882-1318 | what `%lu`, `%lo` and `%lx` print reads back as the argument, for every 64-bit value |
| NumberParsing.SignedDirective | Userland/Libraries/LibC/src/stdio.cpp:882-1318 | what `%ld` prints reads back as the signed argument |
| PrintfLaws.SignedRoundTrip | Userland/Libraries/LibC/src/stdio.cpp:882-1318 | what `%ld` prints for any 64 bits reads back as those bits |
| NumberParsing.PaddedUnsigned | Userland/Libraries/LibC/src/stdio.cpp:882-1318 | so does what `%0`w`lu`, `%.`w`lu` and their octal and hexadecimal forms print, for every width or precision w |
| NumberParsing.PaddedSigned | Userland/Libraries/LibC/src/stdio.cpp:882-1318 | and what `%0`w`ld` and `%.`w`ld` print |
| NumberParsing.ZerosOnTheRight | Userland/Libraries/LibC/src/stdio.cpp:742-859 | `%-04d` of 12 prints 1200 |
| Calendar.YearsToDaysSinceEpoch | kernel/lib/src/time.c:55-78 | the year loop equals its closed form before and after 1970 |
| Calendar.DaysSinceEpoch | kernel/lib/src/time.c:80-82 | the day count of any year, month and day |
| Calendar.NextIsOneLater | kernel/lib/src/time.c:31-82 | the next calendar day has the next count, in every year |
| Calendar.CountIsStrict | kernel/lib/src/time.c:31-82 | later dates have later counts |
| Calendar.Epoch | kernel/lib/src/time.c:31-82 | day 0 is 1 January 1970, and a month out of range counts as the nearest in range |
| Calendar.WeekDayExactly | kernel/src/arch/x86_64/RTC.cpp:45-54 | the weekday formula agrees with the day count exactly outside January and February of year 0 |
| Calendar.YearZero | kernel/src/arch/x86_64/RTC.cpp:45-54 | 1 January of year 0 is the seventh day of the week by the count and the fourth by the formula |
| Signals.Process.ReceiveSignal | kernel/src/Scheduling/Process.cpp:408-466 | the state in which a handler starts; a signal being handled is ignored |
| Signals.Process.SigReturn | kernel/src/Scheduling/Process.cpp:349-385 | the state after the return call |
| Signals.HandlerStarts | kernel/src/Scheduling/Process.cpp:408-466 | the handler starts at its address with the signal as argument and one word pushed; no other register and no other signal's record changes |
| Signals.ReturnSequence | kernel/src/arch/x86_64/Scheduling/taskutil.cpp:110-138 | the patched code loads 29 and the signal number as 32-bit constants and makes a system call |
| Signals.ReturnRestores | kernel/src/Scheduling/Process.cpp:349-466 | whatever ran in between, a return restores the registers and every overwritten byte, overlapping or not, and no other |
| Signals.NoTrace | kernel/src/Scheduling/Process.cpp:349-466 | over every well-nested run a byte user code leaves alone is unchanged |
| Signals.HandlerReturnsToTrap | kernel/src/arch/x86_64/Scheduling/taskutil.cpp:110-138 | when the handler is done it returns to the point of interruption, where the return sequence stands |
| SymbolTable.WriteTable | utils/src/buildsymboltable.cpp:42-58 | the writing loop emits the encoding of the symbols of the listing |
| SymbolTable.HostReads | utils/src/buildsymboltable.cpp:42-58 | sixteen hexadecimal digits are read as the number they denote |
| SymbolTable.HostAddressIs | utils/src/buildsymboltable.cpp:42-58 | blanks, a sign and a prefix in front of digits are read as the C standard says |
| SymbolTable.LineSymbolIs | utils/src/buildsymboltable.cpp:42-58 | the address and the name of a line are the ones standing in its first 16 columns and from column 19 |
| SymbolTable.ListingIs | utils/src/buildsymboltable.cpp:42-58 | a listing put together from lines, the last ended or not, names the symbols of those lines |
| SymbolTable.ELFSymbols.constructor | kernel/src/arch/x86_64/ELFSymbols.cpp:44-74 | the reading loop yields the records of the data up to the first malformed one |
| SymbolTable.ReadsBack | kernel/src/arch/x86_64/ELFSymbols.cpp:44-74 | the table of any list of 64-bit addresses and NUL-free names reads back as that list |
| SymbolTable.WriteThenRead | utils/src/buildsymboltable.cpp:42-58 | writing a listing and reading the table gives the symbols of the listing |
| SymbolTable.ListingReadsBack | utils/src/buildsymboltable.cpp:42-58 | such a listing, written and read, gives the addresses and names of its lines |
| SymbolTable.RecordBytes | utils/src/buildsymboltable.cpp:48-53 | the bytes of a record: address least significant first, zero, name, zero |
| Bytes.FromLittleConcat | utils/src/buildsymboltable.cpp:47-49 | in a stored number each byte has 256 times the weight of the one before it |
| SymbolTable.ReadsUpTo | kernel/src/arch/x86_64/ELFSymbols.cpp:44-74 | a table followed by something that is no record is read up to there |
| SymbolTable.ELFSymbols.Lookup | kernel/src/arch/x86_64/ELFSymbols.cpp:90-104 | on a sorted table the floor symbol, found exactly between the first and last address |
| BlockBuffer.Buffer.constructor | kernel/src/Data-structures/Buffer.cpp:26-28 | one block of the rounded size |
| BlockBuffer.Buffer.AddBlock | kernel/src/Data-structures/Buffer.cpp:216-224 | the flat contents grow by a block and the size stays the sum of the block sizes |
| BlockBuffer.Buffer.Write | kernel/src/Data-structures/Buffer.cpp:39-90 | the blocks refine a flat array write, grown by whole blocks, for every offset |
| BlockBuffer.Buffer.Read | kernel/src/Data-structures/Buffer.cpp:92-131 | the addressed bytes of the flat contents, as many as there are, the rest of the destination kept |
| BlockBuffer.WriteChanges | kernel/src/Data-structures/Buffer.cpp:39-90 | a write changes the addressed bytes and no others, and what it adds beyond them is zero |
| BlockBuffer.DeliveredIs | kernel/src/Data-structures/Buffer.cpp:92-131 | which bytes and how many a read delivers |
| BlockBuffer.AlignUpIs | kernel/src/Data-structures/Buffer.cpp:26-90 | growth goes up to the next whole number of blocks |
| BlockBuffer.ReadsBackExactly | kernel/src/Data-structures/Buffer.cpp:39-131 | everything written at an offset is read back there exactly when the offset is not beyond the end |
| BlockBuffer.WriteBeyond | kernel/src/Data-structures/Buffer.cpp:39-131 | a byte written to an empty buffer at offset 1 is read back at offset 0 |

## Left out

Weaker than the source, or assumed:

- HeapAllocator.Allocator.constructor: takes the first header's next link as zero, which the source never sets (kernel/src/Memory/kmalloc.cpp:91-97).
- HeapAllocator.Allocator.Allocate: running out of memory, a panic in the source, gives a null result, and the byte counters are kept unreduced.
- HeapAllocator.Allocator.KCalloc: does not model the zeroing of the payload.
- HeapAllocator.Allocator.Free: only for a payload that is out; the source checks nothing.
- Scheduler.RunQueues.ReaddThread: only for a thread that is in no list and on no processor; the source checks nothing.
- Semaphore.Semaphore.Acquire: whole calls only; the interleaving of the critical sections is in the step model.
- VirtualPageManager.Manager.Split: takes the size index at the map contract of kernel/src/Data-structures/AVLTree.hpp:60-73, which the tree's deletion does not meet.
- VirtualPageManager.Manager.AllocateAt: requires a page address counted from the region start.
- VirtualPageManager.Manager.UnfreePages: requires a clipped range that starts at a page counted from the region start.
- VirtualPageManager.Manager.FreePages: only for whole pages of the region that no free block holds; the source clips the range and does not look for other blocks.
- VirtualPageManager.Manager.UnlockPages: leaves out the page counters, of which the source adjusts the wrong one.
- PageManager.PageManager.AllocatePages: automatic expansion is off, page object allocation succeeds, and the page count, which callers derive from a size in bytes, is below 2^52.
- AVLTree.Insert: node allocation succeeds.
- StreamPrintf.Stream.VFPrintf: width, precision and the printed count are unbounded integers, and writing to the stream does not fail; the scanning modes, written twice in the source, are one function.
- NumberParsing.StrToL: signed overflow, undefined in C, is taken as two's complement.
- StreamPrintf.Stream.PutInt: likewise for the negation of the most negative number, and in the buffer family.
- Signals.Process.ReceiveSignal: the stack and code validations pass, and page permissions are not modelled.
- Signals.Process.SigReturn: the code validation passes.
- SymbolTable.ELFSymbols.constructor: a last name without its terminator ends with the data, where the source reads on.
- SymbolTable.WriteTable: every line of the listing has at least 19 characters, as the source assumes.
- BlockBuffer.Buffer.Write: the empty flag of a block, used only by the clearing calls, is not modelled.

Not modelled:

- Userland malloc, krealloc, and the tree's deletion, parent search, merge and cleanup.
- ThreadList::RemoveThread and what is built on it: sleeping, removing threads, ScheduleThread.
- Reserving and unreserving virtual pages, and expanding the region.
- Page-table bits, permissions and TLB flushes; the page table is a map.
- Spinlocks, which appear only as the boundaries of atomic steps.
- Buffer::Clear, AutoShrink and ClearUntil, and the keyboard queue on top of them.
- atoi, atol and the kernel's strtoul, which multiply after adding.
- The `%n` and floating-point directives of printf; the latter stop the program.
- The file system, program loading, drivers, interrupts and context switches.
