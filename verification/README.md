# A verified model of the RT-Thread kernel and its Modbus relay

This project models the hard parts of RT-Thread 4.0.2 and of the relay application built on it, and proves
what they promise: the three heaps, the hard timers, the blocking objects (mailbox, mutex, message queue, event
set), the uniprocessor scheduler, the value cache of the Kconfig library, and the file of device ids.

`dafny verify dfyconfig.toml` checks everything.

## How it is built

Each component has a module that says on values what the code does, with the invariants and theorems, and a class
that does it as the code does, statement by statement, and is proved against the first.

| component | on values | in place |
|---|---|---|
| `include/rtservice.h`, waiting lists of `src/ipc.c` | `Rings`, `IpcList` | `IpcList` |
| `src/memheap.c` | `Rounding`, `MemHeapSpec` | `MemHeap` |
| `src/mem.c` | `Rounding`, `SystemHeapSpec` | `SystemHeap` |
| `src/slab.c`, pages | `PagesSpec` | `PageList` |
| `src/slab.c`, zones | `ZoneIndex`, `Zones`, `SlabSpec` | `SlabHeap` |
| `src/timer.c`, `src/clock.c` | `TimerSpec`, `TimerTicks`, `SkipList` | `TimerWheel` |
| `src/ipc.c`, mailbox | `MailboxProtocol`, `MailboxStory` | `Mailbox` |
| `src/ipc.c`, mutex | `MutexProtocol`, `MutexNesting` | `MutexObject` |
| `src/ipc.c`, message queue | `MessagePool`, `MessageQueueProtocol`, `MessageQueueStory` | `MessageQueue` |
| `src/ipc.c`, event | `EventProtocol`, `EventStory` | `EventObject` |
| `src/scheduler.c`, `src/thread.c`, `src/kservice.c` | `ReadyBitmap`, `SchedulerSpec` | `Scheduler` |
| `tools/kconfiglib.py` | `Kconfig` | `KconfigCache` |
| `Task/CommunicationConfig.c` | `Decimal`, `DeviceIdFile` | `Decimal`, `DeviceIdFile` |

`Division` holds the few facts about division by a variable that several of them need, `MemoryBytes` what copying a
block does to the contents of memory.

A blocking object is a state machine: one event is one section that runs with interrupts disabled, or the unlocked
copy between two sections, and the theorems hold for every interleaving of events of any number of threads. What its
clients see is told a second time from the list of events alone, without nodes, lists and wakeups (`MailboxStory`,
`MessageQueueStory`, `EventStory`, and for the mutex `MutexNesting`), and the protocol is proved to do just that.
Machine words are numbers with their wrap-around written out. The configuration is that of a 32-bit processor with
`RT_ALIGN_SIZE` 4; the scheduler is proved for up to 32 priorities and for the two-level bitmap of up to 256.
Conditions of `RT_ASSERT` are preconditions. Clocks, priorities of threads at the time of a call and the ticks that
pass while a thread sleeps are parameters of the events.

## Where the code and its promises differ

* `src/mem.c`: `lfree` is described as the lowest free block. It is over all runs of malloc and free
  (`SystemHeapSpec.RunFirstFit`); the shrinking path of realloc keeps it so only under the condition of
  `SystemHeapSpec.ShrinkInv`, and malloc misses what lies below it (`SystemHeapSpec.MallocSucceeds`,
  `SystemHeapSpec.MallocMisses`). An exact fit of the last block is refused (`SystemHeapSpec.GoodMeans`), and in a heap
  of less than 12 bytes the search does not end (`SystemHeapSpec.SearchNeverEnds`).
* `src/memheap.c`, `src/mem.c`, `src/slab.c`: sizes near 2^32 wrap when they are rounded (`Rounding.RequestRange`,
  `SlabSpec.LargeEnough`). In `src/memheap.c` a realloc near 2^32 breaks the pool exactly if the guard of growing in
  place wraps (`MemHeapSpec.ReallocExactly`, `MemHeapSpec.ReallocBreaks`).
* `src/slab.c`: the comment promises that every power of two is aligned to itself. That is so up to a page; longer
  requests are aligned exactly if the first page of their zone or block is (`SlabSpec.PowersAligned`,
  `SlabSpec.FirstAligned`, `SlabSpec.Misaligned`).
* `src/ipc.c`: priority inheritance needs the PRIO flag (`MutexProtocol.HandOverUrgent`). With several mutexes it is
  lost in two ways, by a release (`MutexNesting.NestedRelease`, `MutexNesting.NestedInversion`) and by the boost of an
  owner that waits itself (`MutexNesting.SleepingOwner`, `MutexNesting.SleepingInversion`);
  `MutexNesting.KeptExactly` and, for FIFO mutexes too, `MutexNesting.UrgentExactly` are the exact conditions for
  every event. The hold counter nests 255 deep (`MutexProtocol.DeepNesting`).
* `src/timer.c`: a timer whose start is interrupted for init_tick ticks or more is late (`TimerSpec.OnTime`). While it
  is overdue in the list, 32-bit comparisons can go wrong: a timer can be put in front of it and keep it from firing
  for a whole range of ticks (`TimerTicks.LostTimer`), and inserted at the wrong place it blocks others
  (`TimerTicks.BlockedTimer`). `TimerTicks.StepExactly` and `TimerTicks.RunExactly` give the exact condition of every
  step and run, `TimerSpec.TimelyIsLegal` and `TimerSpec.CloseRight` simple ones. A one-shot timer restarted by its own
  callback runs without its ACTIVATED flag, so that it cannot be stopped (`TimerWheel.Wheel.StopRestarted`), and so
  does a timer that is started in the middle of a stop (`TimerSpec.LostFlag`). A periodic timer of 0 ticks keeps the
  check busy for ever (`TimerSpec.ZeroPeriodNeverEnds`).
* `src/scheduler.c`: the comment gives 65535 as the limit of nested critical sections; the counter is signed and the
  limit is 32768 (`SchedulerSpec.NestLimit`).

## Model

| member | source | states |
|---|---|---|
| `Rings.InsertAfter` | include/rtservice.h:58-65 | the four pointer writes turn a doubly consistent ring over distinct nodes into the ring with the new node behind the given one, all other links unchanged |
| `Rings.InsertBeforeHead` | include/rtservice.h:73-80 | inserting before the list head appends: the ring runs through the old nodes and then the new one, in both directions |
| `Rings.Unlink` | include/rtservice.h:88-89 | the first two writes of a removal join the neighbours: the ring runs through exactly the other nodes in their old order, both ways |
| `Rings.RemoveLeaves` | include/rtservice.h:86-92 | a removal with its self-link: the node leaves its ring and becomes a ring of its own, rings it is not in stay as they are, a lone node stays as it is, and removing it once more changes nothing |
| `Rings.InsertThenRemove` | include/rtservice.h:58-92 | a node that is inserted and removed leaves the links of a ring through the nodes it had |
| `Rounding.RequestRange` | src/memheap.c:147-150 | the rounded request covers the asked size if and only if that is at most 2^32 - 4; beyond, the rounding wraps to nothing (the same as src/mem.c:289-300) |
| `MemHeapSpec.InitInv` | src/memheap.c:50-119 | a fresh pool of one free block and the tailer satisfies the pool invariant (blocks tile the pool, no two free neighbours, the free ring holds exactly the free blocks) |
| `MemHeapSpec.AllocInv` | src/memheap.c:138-281 | every allocation, successful or not, keeps the pool invariant and the extent of the pool |
| `MemHeapSpec.AllocSucceeds` | src/memheap.c:155-183 | allocation succeeds if and only if a free block is long enough and the free bytes exceed the request |
| `MemHeapSpec.AllocLive` | src/memheap.c:183-270 | a successful allocation adds exactly one allocation, at least as long as asked for, where none was, and changes no other |
| `MemHeapSpec.AllocOrder` | src/memheap.c:169-255 | an allocation takes the first block of the free ring that is long enough; what is split off becomes the first of the ring, and the others keep their order |
| `MemHeapSpec.AllocKeepsOwned` | src/memheap.c:138-281 | blocks held by clients stay where they are and as long as they are |
| `MemHeapSpec.FreeInv` | src/memheap.c:495-595 | every release, with no, one or two free neighbours, keeps the pool invariant |
| `MemHeapSpec.FreeLive` | src/memheap.c:495-595 | a release ends exactly one allocation |
| `MemHeapSpec.FreeOrder` | src/memheap.c:535-590 | a released block becomes the first of the free ring, unless it joins the free block before it; the others keep their order |
| `MemHeapSpec.FreeBytesBack` | src/memheap.c:535-578 | the free bytes grow by the payload and by one header for each neighbour merged |
| `MemHeapSpec.FreeUndoesAlloc` | src/memheap.c:138-595 | freeing what was just allocated restores the very same blocks |
| `MemHeapSpec.ResizeInv` | src/memheap.c:350-402 | growing or shrinking in place keeps the pool invariant |
| `MemHeapSpec.ResizeLive` | src/memheap.c:350-491 | a resize in place changes the length of exactly one allocation |
| `MemHeapSpec.ResizeBytes` | src/memheap.c:352-485 | a resize in place moves the difference in length to or from the free bytes |
| `MemHeapSpec.ReallocInv` | src/memheap.c:284-492 | every path of reallocation keeps the pool invariant, unless the guard of growing in place wraps |
| `MemHeapSpec.ReallocLive` | src/memheap.c:284-492 | unless that guard wraps, reallocation replaces one allocation by one that is long enough, or fails and changes nothing; all others are untouched |
| `MemHeapSpec.ReallocInPlace` | src/memheap.c:310-491 | exactly what a reallocation in place gives back or takes: the block keeps its address; it gets the length asked for, with the difference (less a header) free or taken, or keeps its own if too little would be left over |
| `MemHeapSpec.MoveLive` | src/memheap.c:408-416 | the copying path ends the old allocation and starts a new one of at least the new length |
| `MemHeapSpec.MoveCopies` | src/memheap.c:408-416 | the client finds the first bytes of the old block in the new one, as many as both hold, and no byte of another client changes |
| `MemHeapSpec.GrowsExactly` | src/memheap.c:350-350 | the guard of growing in place compares with the sum up to 2^32 and with the wrapped sum above |
| `MemHeapSpec.ReallocExactly` | src/memheap.c:284-492 | in every pool of a 32-bit machine and for every size, reallocation keeps the pool invariant if and only if the guard of growing in place does not wrap; if it wraps, the header of the remainder is written inside the block's own header |
| `MemHeapSpec.ReallocBreaks` | src/memheap.c:350-402 | a pool and a size after which the pool is broken |
| `MemHeapSpec.ReallocSucceeds` | src/memheap.c:284-492 | reallocation succeeds if and only if the block need not grow, the free neighbour has room to spare, or an allocation elsewhere succeeds |
| `MemHeapSpec.Conservation` | src/memheap.c:36-37 | free payloads, live payloads and one header per block add up to the whole pool |
| `MemHeapSpec.LiveDisjoint` | src/memheap.c:138-281 | two live payloads never overlap and lie inside the pool |
| `MemHeapSpec.StepInv` | src/memheap.c:138-595 | every legal call keeps the pool invariant |
| `MemHeapSpec.RunsKeepInv` | src/memheap.c:50-595 | the pool invariant holds after every run of alloc, free and realloc |
| `MemHeap.Heap.constructor` | src/memheap.c:50-119 | builds both rings over the fresh pool; available and maximal byte counts are right |
| `MemHeap.Heap.Alloc` | src/memheap.c:138-281 | the pointer work on both rings refines the pure allocation: result, blocks, free ring order and available_size agree, and max_used_size is exactly the highest count of bytes in use so far |
| `MemHeap.Heap.Search` | src/memheap.c:169-180 | the walk of the free ring stops at the first block that is long enough, or at the header |
| `MemHeap.Heap.Take` | src/memheap.c:185-258 | the found block is split or used whole as in the specification |
| `MemHeap.Heap.Split` | src/memheap.c:188-236 | both rings and the byte count after splitting a free block |
| `MemHeap.Heap.UseWhole` | src/memheap.c:237-255 | both rings and the byte count after using a free block whole |
| `MemHeap.Heap.Free` | src/memheap.c:495-595 | the pointer work of a release refines the pure one, with available_size the sum of all free payloads afterwards and max_used_size still the exact high-water mark |
| `MemHeap.Heap.MergeLeft` | src/memheap.c:540-557 | the physical ring after joining the free left neighbour |
| `MemHeap.Heap.MergeRight` | src/memheap.c:559-578 | both rings after joining the free right neighbour |
| `MemHeap.Heap.Grow` | src/memheap.c:350-402 | growing into the free neighbour refines the pure resize |
| `MemHeap.Heap.Shrink` | src/memheap.c:432-485 | cutting a block and merging the rest refines the pure resize |
| `MemHeap.Heap.Realloc` | src/memheap.c:284-492 | null, zero size, in-place and copying paths refine the pure reallocation |
| `MemHeap.Heap.ReallocBlock` | src/memheap.c:310-491 | which of the paths a block in use takes |
| `MemHeap.Heap.MoveBlock` | src/memheap.c:408-416 | the copying path: allocate, then release; the high-water mark counts both blocks in between |
| `SystemHeapSpec.InitInv` | src/mem.c:204-261 | the fresh heap satisfies the invariant, and the search starts at the lowest free block |
| `SystemHeapSpec.SearchIs` | src/mem.c:305-315 | the search ends at the first block that is free, long enough and below the bound, or nowhere |
| `SystemHeapSpec.FirstFit` | src/mem.c:305-315 | if lfree is the lowest free block, the search from it ends exactly where first fit from offset 0 ends |
| `SystemHeapSpec.GoodMeans` | src/mem.c:306-311 | the strict bound refuses exactly one kind of block: a last block that fits exactly |
| `SystemHeapSpec.MallocSucceeds` | src/mem.c:272-410 | in every heap, lfree lowest or not, malloc succeeds if and only if some free block at or behind lfree is long enough and is not a last one that fits exactly |
| `SystemHeapSpec.MallocLowest` | src/mem.c:272-410 | while lfree is the lowest free block, any such block of the heap will do |
| `SystemHeapSpec.MallocInv` | src/mem.c:272-410 | malloc keeps tiling, merging and a free start of the search; it keeps lfree lowest |
| `SystemHeapSpec.MallocLive` | src/mem.c:272-410 | malloc adds exactly one allocation, long enough, where none was, and changes no other |
| `SystemHeapSpec.MallocBytes` | src/mem.c:349-369 | used_mem grows by the length of the new block with its header |
| `SystemHeapSpec.PlugInv` | src/mem.c:156-194 | around a released block plug_holes restores that no two neighbours are free, and keeps lfree lowest |
| `SystemHeapSpec.FreeInv` | src/mem.c:546-609 | free keeps the invariant and keeps lfree the lowest free block |
| `SystemHeapSpec.FreeLive` | src/mem.c:546-609 | free ends exactly one allocation |
| `SystemHeapSpec.FreeBytes` | src/mem.c:602-604 | used_mem shrinks by the length of the released block with its header |
| `SystemHeapSpec.FreeUndoesMalloc` | src/mem.c:272-609 | free undoes malloc: same blocks, same start of the search |
| `SystemHeapSpec.ShrinkInv` | src/mem.c:471-498 | shrinking keeps the invariant; lfree stays the lowest free block if and only if a free block lies below the shrunk block or right behind it |
| `SystemHeapSpec.ShrinkForgets` | src/mem.c:471-498 | a heap whose shrinking leaves free memory below lfree |
| `SystemHeapSpec.MallocMisses` | src/mem.c:305-315 | in the heap that this leaves, a request that the freed memory would serve fails |
| `SystemHeapSpec.ShrinkLive` | src/mem.c:471-498 | shrinking changes the length of exactly one allocation |
| `SystemHeapSpec.ShrinkBytes` | src/mem.c:474-476 | used_mem shrinks by the difference in length |
| `SystemHeapSpec.ReallocInv` | src/mem.c:421-510 | every path of realloc keeps the invariant; all but the shrinking one keep lfree lowest |
| `SystemHeapSpec.ReallocLive` | src/mem.c:421-510 | realloc replaces one allocation by one that is long enough, or fails and changes nothing; all others are untouched |
| `SystemHeapSpec.ReallocInPlace` | src/mem.c:460-498 | exactly what realloc does in place: a block of the length asked for stays as it is, one that can be cut keeps its address, gets that length, and used_mem shrinks by the difference |
| `SystemHeapSpec.ReallocSucceeds` | src/mem.c:421-510 | realloc succeeds if and only if the length is the same, the block is long enough to be cut, or malloc finds another one; a block only a little too long is not kept |
| `SystemHeapSpec.MoveCopies` | src/mem.c:501-509 | the client finds the first bytes of the old block in the new one, as many as both hold, and no byte of another client changes |
| `SystemHeapSpec.StillOwned` | src/mem.c:501-509 | after the inner malloc of a move the old block is unchanged |
| `SystemHeapSpec.LiveDisjoint` | src/mem.c:272-410 | two live payloads never overlap and lie inside the heap |
| `SystemHeapSpec.SearchBound` | src/mem.c:291-307 | the bound of the search is the plain difference exactly for heaps of at least 12 bytes; in smaller ones it wraps and every block, the end marker included, passes the loop test without fitting |
| `SystemHeapSpec.SearchNeverEnds` | src/mem.c:305-311 | in such a heap the search for a request that is not refused never ends: after any number of steps nothing is found and the loop test holds |
| `SystemHeapSpec.MallocAligned` | src/mem.c:390-392 | malloc keeps all headers at multiples of four and returns such an address |
| `SystemHeapSpec.ReallocAligned` | src/mem.c:421-510 | realloc keeps all headers at multiples of four and returns such an address |
| `SystemHeapSpec.StepInv` | src/mem.c:272-609 | every legal call, one that comes back, keeps the invariant |
| `SystemHeapSpec.RunInv` | src/mem.c:204-609 | the invariant holds after every run of calls that come back; over runs of malloc and free lfree is always the lowest free block |
| `SystemHeapSpec.RunFirstFit` | src/mem.c:305-315 | over all runs of malloc and free the shortcut search picks the block that first fit from offset 0 picks, or fails in the same cases |
| `SystemHeap.Heap.constructor` | src/mem.c:230-261 | the two headers of a fresh heap describe it |
| `SystemHeap.Heap.Split` | src/mem.c:329-348 | a new header between a block and its successor keeps next and prev consistent, the end marker's prev apart |
| `SystemHeap.Heap.Join` | src/mem.c:174-193 | swallowing the next block keeps the headers consistent |
| `SystemHeap.Heap.PlugHoles` | src/mem.c:156-194 | the header work refines the pure joins, lfree included |
| `SystemHeap.Heap.Find` | src/mem.c:305-311 | the search loop along next offsets computes the pure search |
| `SystemHeap.Heap.Take` | src/mem.c:316-387 | splitting or using whole, the counters used_mem and max_mem, and the new lfree |
| `SystemHeap.Heap.SkipUsed` | src/mem.c:383-384 | the loop that moves lfree ends at the next free block or the end |
| `SystemHeap.Heap.Malloc` | src/mem.c:272-410 | refines the pure malloc; used_mem stays the length of all used blocks |
| `SystemHeap.Heap.Free` | src/mem.c:546-609 | refines the pure free; used_mem stays the length of all used blocks |
| `SystemHeap.Heap.Shrink` | src/mem.c:471-498 | refines the pure shrink |
| `SystemHeap.Heap.Realloc` | src/mem.c:421-510 | refines the pure realloc of a block in use |
| `SystemHeap.Heap.ReallocOutside` | src/mem.c:430-458 | realloc of nothing allocates; a pointer outside the heap is returned unchanged |
| `PagesSpec.AllocOk` | src/slab.c:236-270 | allocation keeps the run list sorted, disjoint and with a gap between runs |
| `PagesSpec.AllocPages` | src/slab.c:236-270 | the pages handed out were free, and exactly they are free no longer; a failure changes nothing |
| `PagesSpec.AllocSucceeds` | src/slab.c:236-270 | rt_page_alloc(n) with n > 0 succeeds if and only if n consecutive pages are free, and returns the lowest such place |
| `PagesSpec.FreeOk` | src/slab.c:272-322 | a release keeps the list sorted, disjoint and maximally merged |
| `PagesSpec.FreePages` | src/slab.c:272-322 | exactly the released pages become free |
| `PagesSpec.Canonical` | src/slab.c:236-322 | a set of free pages has only one such list |
| `PagesSpec.FreeUndoesAlloc` | src/slab.c:236-322 | releasing what was just allocated restores the list |
| `PagesSpec.FreesCommute` | src/slab.c:272-322 | the order of two releases does not matter |
| `PagesSpec.InitInv` | src/slab.c:327-334 | rt_page_init makes one run |
| `PagesSpec.StepInv` | src/slab.c:236-322 | every legal call keeps each page free or held and never both |
| `PagesSpec.RunInv` | src/slab.c:236-334 | over every run no page is lost or handed out twice, and the list stays sorted and merged |
| `PageList.Pages.constructor` | src/slab.c:327-334 | the first page holds the head of the only run |
| `PageList.Pages.Alloc` | src/slab.c:236-270 | the pointer-to-pointer walk and the writes refine the pure allocation |
| `PageList.Pages.Cut` | src/slab.c:247-262 | a run loses its first pages or leaves the list, and the linked list stays right |
| `PageList.Pages.FindLong` | src/slab.c:246-263 | the loop stops at the first run of at least n pages |
| `PageList.Pages.Free` | src/slab.c:272-322 | the walk and the writes refine the pure release |
| `PageList.Pages.FindPlace` | src/slab.c:286-313 | the loop stops at the first run that touches the pages or lies behind them |
| `PageList.Pages.Extend` | src/slab.c:291-300 | pages that follow a run extend it, over the gap to the next run if they close it |
| `PageList.Pages.Insert` | src/slab.c:302-317 | pages become a run of their own, or the beginning of the next one |
| `ZoneIndex.ClassFits` | src/slab.c:401-459 | every size from 1 to 16383 gets a chunk that holds it with less than an eighth (or eight bytes) to spare and an index below 72 |
| `ZoneIndex.SameIndex` | src/slab.c:401-459 | two sizes share a zone index if and only if they round to the same chunk size |
| `ZoneIndex.ChunksGrow` | src/slab.c:401-459 | chunk sizes grow strictly with the index |
| `Zones.TakeOk` | src/slab.c:541-568 | z_nfree stays the number of never used chunks plus the length of the free list, and the chunk taken is one that nobody has |
| `Zones.PutOk` | src/slab.c:830-842 | a release keeps the count and takes exactly that chunk from its client |
| `Zones.AllFree` | src/slab.c:854-855 | z_nfree reaches z_nmax if and only if no client holds a chunk of the zone |
| `Zones.NewOk` | src/slab.c:628-648 | a new zone has at least two chunks inside its pages, as many as fit behind the padded header, and only chunk 0 is handed out |
| `Zones.ChunksApart` | src/slab.c:556-568 | chunks of a zone do not overlap each other, its header or its end |
| `Zones.ChunkPage` | src/slab.c:556-568 | every chunk begins on a page of its zone |
| `Zones.ChunkAligned` | src/slab.c:631-644 | a chunk whose size is a power of two is aligned to its size if and only if its zone is |
| `Zones.PowerAddr` | src/slab.c:631-644 | in every zone of the allocator, a chunk for a power-of-two request is aligned to it if and only if it is no longer than a page or its number of pages divides the zone's first page |
| `SlabSpec.InitInv` | src/slab.c:344-395 | the allocator over any run of pages starts, with the descriptors on the first pages and the zone size of that many pages, in a state that satisfies the invariant |
| `SlabSpec.MallocListedInv` | src/slab.c:539-577 | a chunk of a listed zone: the zone leaves its list exactly when it has no free chunk left, and the chunk was free |
| `SlabSpec.MallocParkedInv` | src/slab.c:590-595 | a parked zone comes into use again |
| `SlabSpec.MallocFreshInv` | src/slab.c:596-652 | a zone from the page allocator gets descriptors on all its pages and overlaps no other block |
| `SlabSpec.MallocLargeInv` | src/slab.c:493-522 | a large block takes pages that belong to nobody |
| `SlabSpec.MallocInv` | src/slab.c:478-667 | rt_malloc hands out exactly one new block, long enough, and takes none away; or it fails and changes nothing |
| `SlabSpec.MallocSucceeds` | src/slab.c:478-667 | rt_malloc succeeds if and only if its class has a listed zone, a zone is parked, or enough consecutive pages are free for a zone or the large block |
| `SlabSpec.PowersAligned` | src/slab.c:146-153 | a power-of-two request gets an address that it divides always up to a page, and beyond if and only if its number of pages divides the first page of its zone or block |
| `SlabSpec.FirstAligned` | src/slab.c:344-395 | in every heap of at least three pages the first request for 8192 bytes is aligned if and only if the first page behind the descriptors is even |
| `SlabSpec.Misaligned` | src/slab.c:146-153 | a heap that rt_system_heap_init makes in which the first request for 8192 bytes is not aligned |
| `SlabSpec.LargeEnough` | src/slab.c:495-497 | a large request gets enough pages; above 2^32 - 4096 it wraps to none and is refused |
| `SlabSpec.PutBackInv` | src/slab.c:830-846 | a chunk goes back to its zone, which is listed again if it was full |
| `SlabSpec.ParkInv` | src/slab.c:854-874 | a parked zone had no clients, so no chunk is lost |
| `SlabSpec.UnparkInv` | src/slab.c:876-900 | a zone given back to the page allocator frees exactly its pages |
| `SlabSpec.FreeChunkInv` | src/slab.c:822-904 | releasing a chunk takes exactly that chunk from its client, whatever happens to its zone |
| `SlabSpec.FreeGivesBack` | src/slab.c:848-904 | a zone goes exactly if the released chunk was its last one in use and another zone of its class can be allocated from; it is parked with its pages while fewer than two are, and otherwise gives back exactly its pages |
| `SlabSpec.FewParked` | src/slab.c:876-900 | over every run at most two zones without clients are kept |
| `SlabSpec.FreeLargeInv` | src/slab.c:795-820 | releasing a large block frees exactly its pages |
| `SlabSpec.FreeInv` | src/slab.c:771-904 | rt_free of a pointer takes exactly the block it was handed out for |
| `SlabSpec.Locates` | src/slab.c:795-828 | the page descriptors lead every pointer in use back to its zone and chunk, or to its large block |
| `SlabSpec.MallocPlaces` | src/slab.c:478-667 | rt_malloc leaves every held block at its address and length |
| `SlabSpec.FreePlaces` | src/slab.c:771-904 | rt_free leaves every other block at its address and length |
| `SlabSpec.ReallocInv` | src/slab.c:678-735 | rt_realloc replaces the block by one that is long enough, possibly the same, or fails and changes nothing; size 0 releases; all other blocks keep address and length |
| `SlabSpec.ReallocStays` | src/slab.c:698-733 | a chunk stays where it is if and only if the new size belongs to its class (or is its length, beyond all classes); a block of pages always moves |
| `SlabSpec.MoveCopies` | src/slab.c:698-733 | the client finds the first bytes of the old block in the new one, as many as both hold, and no byte of another client changes |
| `SlabSpec.BlocksApart` | src/slab.c:478-667 | no two held blocks overlap, chunks of one or different zones and large blocks alike |
| `SlabSpec.StepInv` | src/slab.c:478-904 | every call of malloc, free and realloc keeps the invariant: counts, lists, descriptors and pages |
| `SlabSpec.RunInv` | src/slab.c:344-904 | the invariant holds in every reachable state |
| `SlabHeap.Heap.constructor` | src/slab.c:344-395 | the loop that chooses the zone size, the page list and the pages of the descriptors give the initial state of the specification |
| `SlabHeap.Heap.Malloc` | src/slab.c:478-667 | refines the pure malloc on top of the page list object |
| `SlabHeap.Heap.MallocLarge` | src/slab.c:493-522 | refines the pure large allocation |
| `SlabHeap.Heap.TakeListed` | src/slab.c:539-577 | refines the allocation from a listed zone |
| `SlabHeap.Heap.TakeNew` | src/slab.c:587-652 | refines the allocation from a new or parked zone |
| `SlabHeap.Heap.Describe` | src/slab.c:615-622 | the loop writes the descriptors of all pages of a zone and of no other page |
| `SlabHeap.Heap.Free` | src/slab.c:771-904 | finds the block through the page descriptor and refines the pure release |
| `SlabHeap.Heap.FreeLarge` | src/slab.c:795-820 | refines the pure release of pages |
| `SlabHeap.Heap.FreeChunk` | src/slab.c:822-904 | refines the pure release of a chunk |
| `SlabHeap.Heap.ParkZone` | src/slab.c:854-874 | the zone leaves its list and is parked |
| `SlabHeap.WithoutZone` | src/slab.c:862-865 | the pointer walk removes exactly that zone from its list |
| `SlabHeap.Heap.ReleaseZone` | src/slab.c:876-900 | refines giving a zone back to the page allocator |
| `SlabHeap.Heap.Realloc` | src/slab.c:678-735 | the in-place work refines the pure realloc of a block in use |
| `SkipList.FilterPlace` | src/timer.c:342-370 | in a row that skips nodes of a sorted row, the place of a deadline is where the kept nodes before the place end |
| `SkipList.AllSorted` | src/timer.c:342-370 | every row of the skip list is sorted by deadline |
| `SkipList.SubRowInserted` | src/timer.c:376-391 | inserting into two neighbouring rows at the places of the deadline keeps the upper one a subsequence of the lower |
| `SkipList.SubRowBelow` | src/timer.c:376-391 | inserting into the lower of two rows only keeps the upper one a subsequence |
| `SkipList.SubRowRemoved` | src/timer.c:121-129 | removing a timer from two neighbouring rows keeps the upper one a subsequence of the lower |
| `TimerSpec.StartKeeps` | src/timer.c:296-412 | an undisturbed start keeps the list in firing order, equal deadlines in start order |
| `TimerSpec.StopKeeps` | src/timer.c:422-447 | an undisturbed stop removes exactly that timer if its ACTIVATED flag is set, changes nothing otherwise, and keeps the order |
| `TimerSpec.FireQueue` | src/timer.c:507-551 | firing one due timer leaves the other due timers due, in their order, so no periodic restart can starve them |
| `TimerSpec.FiredAreDue` | src/timer.c:494-553 | a check fires exactly the timers whose deadline is not in the future, once each |
| `TimerSpec.CheckStatus` | src/timer.c:494-553 | a check restarts each due timer that is periodic and flagged, stops the other due ones, and leaves all others alone, flags included |
| `TimerSpec.StepKeeps` | src/timer.c:296-553 | every proper event keeps the order of the clock without wrap-around, and only events on a timer and ticks concern it; the kernel takes the same step exactly if it is right (TimerTicks.StepExactly) |
| `TimerSpec.StoppedIsSilent` | src/timer.c:422-553 | over every legal run a stopped timer does not fire until it is started |
| `TimerSpec.OneShotExact` | src/timer.c:494-553 | over every legal run a timer that is one-shot, or periodic without its flag, and is left alone fires exactly once, at its deadline, or at the next tick if that has passed |
| `TimerSpec.PeriodicExact` | src/timer.c:494-553 | over every legal run a flagged periodic timer that is left alone fires at its deadline and then exactly once in every period |
| `TimerSpec.StartFiresExactly` | src/timer.c:323-324 | from an undisturbed rt_timer_start at tick T it fires at T + init_tick and, if periodic, after every further period, never early or late |
| `TimerSpec.ControlFires` | src/timer.c:459-485 | over every legal run a running timer keeps its deadline through rt_timer_control and goes by the new period and kind after it; the next start goes by them at once |
| `TimerSpec.SplitStartExact` | src/timer.c:311-392 | rt_timer_start with anything between its two locked sections, over every legal run: if k ticks pass after the tick T was read, the timer fires first at T + init_tick if k < init_tick, at the first tick after the insertion otherwise, and then once per period if periodic |
| `TimerSpec.OnTime` | src/timer.c:311-392 | over every legal run the promised time is met if and only if fewer than init_tick ticks pass between the reading and the insertion |
| `TimerSpec.ZeroPeriodNeverEnds` | src/timer.c:507-551 | with a running periodic timer of 0 ticks that is due, the check never ends: after any number of rounds a timer is still due |
| `TimerSpec.ZeroFiresNext` | src/timer.c:323-324 | a one-shot timer with 0 ticks fires at the next tick |
| `TimerSpec.TimelyIsLegal` | src/timer.c:296-553 | without insertions after the deadline every run of proper calls is legal, however long it is: 32 bits are enough |
| `TimerSpec.CloseRight` | src/timer.c:345-366 | with a late insertion, starts and checks are right as long as lateness plus the longest period is at most WORD - HALF ticks |
| `TimerSpec.CloseInsert` | src/timer.c:345-366 | a late insertion is right if every listed deadline lies less than HALF ticks behind and at most WORD - HALF ticks before its own |
| `TimerSpec.FlagExactly` | src/timer.c:311-544 | for every legal event and every state: exactly when the ACTIVATED flag of a timer tells afterwards whether it is in the list |
| `TimerSpec.LostFlag` | src/timer.c:430-444 | a start between the locked removal and the unlocked end of a stop leaves a running timer without flag: it cannot be stopped, and even a periodic one fires once and never again |
| `TimerTicks.LaterExactly` | src/timer.c:359-366 | for all times, the comparison of the wrapped deadlines is right if and only if they are comparable, which is a condition on their difference |
| `TimerTicks.ReachedExactly` | src/timer.c:516-516 | the test of the check on a wrapped deadline is right if and only if that is less than half a range behind |
| `TimerTicks.ChecksEnd` | src/timer.c:507-551 | in whatever order the list is, the check ends after at most one round per timer |
| `TimerTicks.InsertExactly` | src/timer.c:342-374 | the insertion by 32-bit comparisons puts a timer, late or not, where the clock without wrap-around puts it, if and only if the comparisons up to that place are right |
| `TimerTicks.RowsExactly` | src/timer.c:342-370 | the search is right in every row of every skip list over the timers if and only if all listed deadlines are comparable with the new one |
| `TimerTicks.StartExactly` | src/timer.c:296-412 | an undisturbed start does what it should if and only if every overdue timer in the list is within WORD - HALF ticks (modulo the range) of the new deadline |
| `TimerTicks.CheckExactly` | src/timer.c:494-553 | a check fires the right timers and leaves the right list if and only if every due timer tests as due and every restart is in reach of the due timers behind it |
| `TimerTicks.BlockedIsSilent` | src/timer.c:507-551 | a timer behind one that does not test as due does not fire in a check, however the list looks |
| `TimerTicks.StepExactly` | src/timer.c:296-553 | every event: the 32-bit list takes the step of the clock without wrap-around, with the same timers fired, if and only if the step is right |
| `TimerTicks.RunExactly` | src/timer.c:296-553 | over every run of proper calls the 32-bit list and the clock agree in every state and fire the same timers if and only if the run is legal |
| `TimerTicks.KernelTimes` | src/timer.c:296-553 | over every legal run the 32-bit list fires each timer at the times of the clock |
| `TimerTicks.KernelStart` | src/timer.c:311-392 | so the split start of the 32-bit list fires when SplitStartExact says |
| `TimerTicks.FirstPlace` | src/timer.c:345-366 | exactly when a new timer goes in front of the first one of the list, whichever of them is overdue and by however much |
| `TimerTicks.LateReached` | src/timer.c:317-327 | the state of LostTimer is reached from a fresh clock by legal calls |
| `TimerTicks.LostTimer` | src/timer.c:345-366 | for all k from 5: a timer due at tick 1 is inserted k ticks late, the longest timer is started before the next tick and goes in front, and the first does not fire until the tick has gone round |
| `TimerTicks.CrowdedReached` | src/timer.c:317-327 | the state of BlockedTimer is reached from a fresh clock by legal calls |
| `TimerTicks.BlockedTimer` | src/timer.c:345-366 | a run in which a late insertion at the wrong place keeps another timer, started undisturbed, from firing on time |
| `TimerWheel.InsertedRowsOk` | src/timer.c:376-391 | after inserting, each row is a subsequence of the row below |
| `TimerWheel.StepDown` | src/timer.c:368-369 | going down one row never passes the place in the row below |
| `TimerWheel.Wheel.constructor` | src/timer.c:679-688 | an empty wheel with any number of rows |
| `TimerWheel.Wheel.Remove` | src/timer.c:121-129 | removes the timer from every row |
| `TimerWheel.Wheel.Search` | src/timer.c:342-370 | with one row the search ends where a scan of the list by 32-bit comparisons ends, in any order; with more rows, if all comparisons are right, at the place of the deadline in every row |
| `TimerWheel.Wheel.SearchRow` | src/timer.c:345-367 | the inner loop ends at the first later node from its start on |
| `TimerWheel.Wheel.InsertRows` | src/timer.c:376-391 | the insert counter decides the height, and every chosen row gets the timer at its place |
| `TimerWheel.Wheel.Link` | src/timer.c:342-391 | search and insertion put the timer into the last row where a scan of that row puts it; with one row in any order of the list |
| `TimerWheel.Wheel.DropTimer` | src/timer.c:309-315 | the first section of a start: the timer leaves all rows, the flag is cleared |
| `TimerWheel.Wheel.ReadTick` | src/timer.c:318-324 | sets the wrapped deadline from the current tick and nothing else |
| `TimerWheel.Wheel.InsertTimer` | src/timer.c:326-394 | the second section with the deadline set before, late or not, refines the insertion on unbounded time in every right step |
| `TimerWheel.Wheel.Start` | src/timer.c:296-412 | removal, reading and insertion without anything in between refine the start on unbounded time, with wrapping 32-bit ticks, in every right step |
| `TimerWheel.Wheel.Stop` | src/timer.c:422-447 | its three parts without anything in between: succeeds exactly if the ACTIVATED flag is set, and then removes the timer; otherwise it changes nothing |
| `TimerWheel.Wheel.RemoveTimer` | src/timer.c:435-441 | the locked section of a stop: the timer leaves all rows |
| `TimerWheel.Wheel.ClearFlag` | src/timer.c:443-444 | the unlocked end of a stop |
| `TimerWheel.Wheel.Control` | src/timer.c:459-485 | the period and the kind of a timer |
| `TimerWheel.Wheel.FireFirst` | src/timer.c:516-544 | one round: removal, callback, restart if periodic and flagged, otherwise deactivation |
| `TimerWheel.Wheel.FireRestarted` | src/timer.c:516-544 | with a callback that restarts its own timer, the timer runs, and its ACTIVATED flag is set afterwards if and only if it is periodic |
| `TimerWheel.Wheel.StopRestarted` | src/timer.c:422-447 | a stop after that fails for a one-shot timer, which runs on, and succeeds for a periodic one |
| `TimerWheel.Wheel.Check` | src/timer.c:494-553 | the loop fires exactly the due timers in their order and terminates, flagged or not, in every right step |
| `TimerWheel.Wheel.TickIncrease` | src/clock.c:72-98 | the tick wraps at 2^32 and the timers fire as if it did not, in every right step |
| `TimerWheel.Wheel.Do` | src/timer.c:296-553 | every legal event on the skip list in place is the step on unbounded time, with the same timers fired |
| `TimerWheel.Drive` | src/timer.c:296-553 | over every legal run the skip list in place fires the timers that the clock without wrap-around fires, event by event and in order, and ends in its state |
| `IpcList.Suspend` | src/ipc.c:79-122 | the loop inserts at the end (FIFO) or behind the last thread that is at least as urgent (PRIO) |
| `IpcList.SuspendedMembers` | src/ipc.c:79-122 | suspending adds exactly the one thread, once |
| `IpcList.SuspendedSorted` | src/ipc.c:94-117 | a list kept by priority stays sorted |
| `IpcList.RemovedMembers` | src/thread.c:706-739 | resuming or timing out removes exactly the one thread |
| `IpcList.SuspendedLined` | src/ipc.c:79-122 | a thread that is suspended goes behind all who came before it (FIFO), or behind those that are at least as urgent and before the others (PRIO) |
| `IpcList.LeftAgain` | src/ipc.c:1524-1530 | however often a call is woken and sleeps again, its deadline stays that of the call |
| `MailboxProtocol.StepInv` | src/ipc.c:1441-1757 | every section of a sender or receiver, timeout and reset keeps the protocol invariant |
| `MailboxProtocol.RunInv` | src/ipc.c:1441-1757 | the protocol invariant holds after every interleaving of calls, retries, timeouts and resets |
| `MailboxProtocol.Fifo` | src/ipc.c:1441-1713 | received values followed by the ring contents are the values sent, in order, and the ring never overflows |
| `MailboxStory.MailboxIs` | src/ipc.c:1441-1757 | over every run, from the list of events alone: the mailbox is a bounded queue of the values that the completed calls were given, in the order of completion, and every call waits, ends and fails as its own events and the time it was given say |
| `MailboxStory.WaitersInOrder` | src/ipc.c:79-122 | over every run with fixed priorities both waiting lists are in the order of arrival (FIFO) or of priority and then arrival (PRIO) |
| `MailboxProtocol.QuietBox` | src/ipc.c:1441-1713 | no wakeup is lost: once all woken threads have run, a receiver sleeps only on an empty box and a sender only on a full one |
| `MailboxProtocol.SendInv` | src/ipc.c:1464-1560 | a pass of rt_mb_send_wait, sleeping, failing or storing, keeps the invariant |
| `MailboxProtocol.RecvInv` | src/ipc.c:1609-1713 | a pass of rt_mb_recv keeps the invariant |
| `Mailbox.Box.constructor` | src/ipc.c:1293-1321 | an empty ring with two empty waiting lists; the size is cut to its field of 16 bits |
| `Mailbox.Box.Put` | src/ipc.c:1534-1541 | storing appends to the contents, with the wrapping offset |
| `Mailbox.Box.Get` | src/ipc.c:1682-1690 | fetching takes the front value |
| `Mailbox.Box.SendSection` | src/ipc.c:1441-1560 | on the array ring refines the section of the protocol, and tells whether it stored, slept or failed |
| `Mailbox.Box.RecvSection` | src/ipc.c:1589-1713 | on the array ring refines the section of a receiver, with the value fetched, and tells whether it fetched, slept or failed |
| `Mailbox.Box.Reset` | src/ipc.c:1725-1757 | empties ring and both lists |
| `MutexProtocol.FreshInv` | src/ipc.c:529-549 | fresh mutexes satisfy the invariant |
| `MutexProtocol.TakeInv` | src/ipc.c:653-777 | taking (again, free, refused or waiting) keeps the invariant |
| `MutexProtocol.ReleaseInv` | src/ipc.c:789-879 | releasing (by a stranger, nested, final, or with hand-over) keeps the invariant |
| `MutexProtocol.StepInv` | src/ipc.c:653-879 | every event of a disciplined thread keeps the invariant of all mutexes and threads |
| `MutexProtocol.RunInv` | src/ipc.c:653-879 | the invariant of all mutexes and threads holds after every disciplined run |
| `MutexProtocol.Safety` | src/ipc.c:653-879 | in every reachable state: an owner iff value is 0 iff hold > 0; waiters only if owned; under PRIO sorted by priority, and the owner at least as urgent as each of them |
| `MutexProtocol.Restored` | src/ipc.c:832-838 | a thread that owns no mutex has its own priority back, over every run with timeouts |
| `MutexProtocol.NoStrangePriority` | src/ipc.c:720-728 | an owner's priority is its own or that of a thread that has waited for the mutex |
| `MutexProtocol.MostUrgentNext` | src/ipc.c:841-858 | the final release hands a PRIO mutex to a most urgent waiter |
| `MutexProtocol.DeepNesting` | src/ipc.c:679-683 | hold has eight bits: one more take by the owner keeps the invariant if and only if hold < 255 |
| `MutexProtocol.HandOverUrgent` | src/ipc.c:851-855 | the new owner is urgent enough if and only if the first waiter is a most urgent one |
| `MutexProtocol.FifoInversion` | src/ipc.c:851-855 | a run with a FIFO mutex after which the owner is less urgent than a waiter |
| `MutexNesting.CoreStep` | src/ipc.c:653-879 | every event keeps owners, counters, lists and phases in agreement, however many mutexes a thread holds |
| `MutexNesting.CoreRun` | src/ipc.c:653-879 | that agreement holds after every run in which no owner nests deeper than 255 |
| `MutexNesting.Counters` | src/ipc.c:653-879 | in every such run: an owner iff value is 0 iff hold > 0, waiters only if owned, nobody twice |
| `MutexNesting.GrantIsSafe` | src/ipc.c:753-768 | in every such run a thread that wakes without error owns the mutex: it cannot have been overtaken |
| `MutexNesting.TakeAnswer` | src/ipc.c:653-777 | in every such run, from the list of events alone: once a take has ended, at once, by a hand-over or by a timeout, it has returned RT_EOK if and only if the thread owns the mutex that it asked for, and the timeout error otherwise |
| `MutexNesting.ReleaseAnswer` | src/ipc.c:789-879 | a release returns RT_EOK exactly to the owner, and does nothing but return an error to anybody else |
| `MutexNesting.OwnerExactly` | src/ipc.c:653-879 | exactly how owner and depth of every mutex change with every event: nobody gets one by a timeout, a return or a stranger's release |
| `MutexNesting.FifoInOrder` | src/ipc.c:79-122 | in every such run the waiters of a FIFO mutex wait in the order of their arrival |
| `MutexNesting.KeptExactly` | src/ipc.c:653-879 | for every event, every PRIO mutex and any number of mutexes held: its owner stays at least as urgent as its waiters and its list stays sorted if and only if the event is harmless to it, which is decided by priorities and saved priorities before the event |
| `MutexNesting.UrgentExactly` | src/ipc.c:653-879 | for every event and every mutex, FIFO or PRIO, any number of mutexes held: its owner stays at least as urgent as all its waiters if and only if the event spares it, which is decided by priorities before the event |
| `MutexNesting.SleepingOwner` | src/ipc.c:720-728 | boosting an owner that sleeps on mutex j: j's owner stays urgent enough if and only if it already is as urgent as the new waiter, and j's list stays sorted if and only if the boosted thread need not move up |
| `MutexNesting.NestedRelease` | src/ipc.c:832-838 | with two mutexes held, giving one up leaves the owner urgent enough for the other if and only if the priority saved with the first is |
| `MutexNesting.NestedInversion` | src/ipc.c:832-838 | a run in which the inherited priority is lost by a release |
| `MutexNesting.SleepingInversion` | src/ipc.c:720-728 | a run without any release in which the boost of a sleeping owner does not reach the mutex it waits for |
| `MutexObject.Lock.constructor` | src/ipc.c:529-549 | a free mutex: value 1, hold 0, nobody owns it or waits, original priority 0xff |
| `MutexObject.Lock.Take` | src/ipc.c:653-777 | in place, refines the section: counters, owner, priorities, list and result |
| `MutexObject.Lock.Release` | src/ipc.c:789-879 | in place, refines the section; names the thread that it wakes |
| `MutexObject.Lock.Expire` | src/thread.c:749-771 | a timeout removes the thread and changes nobody's priority |
| `MessagePool.LinkTailLists` | src/ipc.c:2006-2020 | linking at the tail appends the node to the queue; head, tail and entry stay right |
| `MessagePool.LinkHeadLists` | src/ipc.c:2095-2104 | linking at the head puts the node in front |
| `MessagePool.UnlinkLists` | src/ipc.c:2237-2244 | taking the head leaves the rest of the queue, with the right tail |
| `MessagePool.PutBackLists` | src/ipc.c:2257-2259 | a node put back is the first free one |
| `MessagePool.GrabLists` | src/ipc.c:1983-1994 | a send takes the first free node, if there is one |
| `MessagePool.DrainLists` | src/ipc.c:2296-2311 | the reset loop frees exactly the queued nodes, ends with an empty queue and touches no node in flight |
| `MessagePool.NodesFit` | src/ipc.c:1805-1821 | the nodes lie inside the pool and do not overlap |
| `MessagePool.WidthFits` | src/ipc.c:1805-1806 | msg_size is cut to 16 bits: a node holds a message of the size asked for if and only if that is at most 65532 |
| `MessagePool.DownChain` | src/ipc.c:1813-1821 | the loop of rt_mq_init chains all nodes into the free list |
| `MessageQueueProtocol.InitInv` | src/ipc.c:1780-1827 | rt_mq_init establishes the invariant |
| `MessageQueueProtocol.StepInv` | src/ipc.c:1963-2325 | every critical section, unlocked copy, timeout and reset keeps the invariant |
| `MessageQueueProtocol.RunInv` | src/ipc.c:1963-2325 | the invariant holds after every interleaving of sections, copies, timeouts and resets |
| `MessageQueueProtocol.Delivery` | src/ipc.c:1963-2266 | free, queued and in-flight nodes partition all nodes; entry is the queue length; the queue stores a deque; and a receiver gets the message that was in front when it took its node |
| `MessageQueueStory.QueueIs` | src/ipc.c:1963-2325 | over every run, from the list of events alone: the queue is a double-ended queue to which a normal send appends and an urgent one prepends the message that its call was given, from which a receive takes the front, and which a reset empties; every call is where its events say, and a receiver ends with the bytes of the message it took |
| `MessageQueueStory.SendOutcome` | src/ipc.c:1974-1994 | a send is refused as too long exactly if it is, and as full exactly if every node is queued or in flight |
| `MessageQueueStory.ReceiversInOrder` | src/ipc.c:79-122 | over every run with fixed priorities the receivers wait in the order of arrival (FIFO) or of priority and then arrival (PRIO) |
| `MessageQueueProtocol.QuietQueue` | src/ipc.c:2138-2235 | no wakeup is lost: once all woken receivers have run, a receiver sleeps only on an empty queue |
| `MessageQueueProtocol.FullMeans` | src/ipc.c:1983-1992 | a send fails as full if and only if every node is queued or in flight |
| `MessageQueueProtocol.LinkInv` | src/ipc.c:2004-2033 | the second section of a send appends or prepends its message and wakes the first receiver |
| `MessageQueueProtocol.RecvInv` | src/ipc.c:2160-2247 | a pass of rt_mq_recv sleeps, gives up, or takes the front |
| `MessageQueueProtocol.ResetInv` | src/ipc.c:2288-2322 | a reset between the sections of other threads keeps the invariant |
| `MessageQueue.Queue.constructor` | src/ipc.c:1780-1827 | the init loop builds the free list of max_msgs nodes, with both sizes cut to 16 bits |
| `MessageQueue.Queue.Reserve` | src/ipc.c:1974-1997 | a message that is too long is refused, a queue without free node is full, otherwise the first free node is taken and nothing else changes |
| `MessageQueue.Queue.Write` | src/ipc.c:1999-2002 | the node's data begin with the message, the rest stays, and for a normal send its pointer is null |
| `MessageQueue.Queue.Append` | src/ipc.c:2004-2033 | the node becomes the tail, and the head of an empty queue; entry grows; the first sleeping receiver is resumed |
| `MessageQueue.Queue.Prepend` | src/ipc.c:2092-2117 | the node becomes the head, and the tail of an empty queue; entry grows; the first sleeping receiver is resumed |
| `MessageQueue.Queue.Receive` | src/ipc.c:2160-2247 | on an empty queue the thread is refused or put into the waiting list; otherwise the head node leaves the queue |
| `MessageQueue.Queue.Read` | src/ipc.c:2252-2253 | the unlocked copy out of the node, cut at the message size |
| `MessageQueue.Queue.GiveBack` | src/ipc.c:2255-2261 | the node becomes the first free one |
| `MessageQueue.Queue.Reset` | src/ipc.c:2288-2322 | the reset loop terminates and frees all queued nodes |
| `MessageQueue.Queue.Do` | src/ipc.c:1963-2325 | every event of the protocol, done in place, changes the pool, the waiting list and the variables of the threads as the protocol says |
| `MessageQueue.Drive` | src/ipc.c:1963-2325 | over every run of the protocol the object in place ends in its state |
| `EventProtocol.WalkSettles` | src/ipc.c:1053-1098 | nobody who stays in the list is satisfied by what is left, although clearing waiters shrink the set on the way |
| `EventProtocol.WalkMembers` | src/ipc.c:1053-1098 | every waiter stays or is woken, none twice |
| `EventProtocol.WokenGets` | src/ipc.c:1062-1082 | a woken thread gets all its events (AND) or some of them (OR), and only events that were there |
| `EventProtocol.ClearedOnce` | src/ipc.c:1089-1092 | an event that a thread has cleared reaches nobody behind it and is not left in the set |
| `EventProtocol.FirstIsServed` | src/ipc.c:1053-1098 | the first waiter that the new set satisfies is woken first, with everything it asked for |
| `EventProtocol.StepInv` | src/ipc.c:1028-1273 | send, receive, timeout and reset keep the invariant |
| `EventProtocol.RunInv` | src/ipc.c:1028-1273 | the invariant holds after every interleaving of sends, receives, timeouts and resets |
| `EventProtocol.NoMissedEvent` | src/ipc.c:1028-1236 | in every reachable state no sleeping thread's condition is satisfied by the event set |
| `EventProtocol.SatisfiedIs` | src/ipc.c:1062-1078 | AND is satisfied if and only if every event asked for is set, OR if and only if one of them is |
| `EventProtocol.SendBits` | src/ipc.c:1028-1110 | after a send an event is set if and only if it was set or was sent, and no woken thread with the clear option has got it |
| `EventProtocol.RecvBits` | src/ipc.c:1165-1180 | a receive removes exactly the events it asked for, if it is satisfied and has the clear option, and no event otherwise |
| `EventProtocol.RecvAnswer` | src/ipc.c:1126-1236 | an empty wish is refused, a satisfied one gets exactly the events asked for that are set, another one fails at once or waits; no other thread changes |
| `EventStory.SetExactly` | src/ipc.c:1028-1273 | for every step and every one of the 32 events: exactly when it is set afterwards |
| `EventStory.CallsEnd` | src/ipc.c:1028-1273 | over every run, from the list of events alone: every call waits for what it asked for, gets all or some of it as it asked, and fails with the error that its own events and timeout say |
| `EventStory.WaitersInOrder` | src/ipc.c:79-122 | over every run with fixed priorities the threads wait in the order of arrival (FIFO) or of priority and then arrival (PRIO) |
| `EventObject.Events.constructor` | src/ipc.c:914-933 | no events, nobody waits |
| `EventObject.Events.Send` | src/ipc.c:1028-1110 | the walk along the list refines the pure one |
| `EventObject.Events.Recv` | src/ipc.c:1126-1236 | refines the pure receive, with its result and error |
| `EventObject.Events.Reset` | src/ipc.c:1248-1273 | wakes everybody with an error and clears the set |
| `ReadyBitmap.TableLowest` | src/kservice.c:1286-1304 | the table holds the lowest bit of every byte |
| `ReadyBitmap.FfsIs` | src/kservice.c:1316-1330 | __rt_ffs returns one more than the lowest set bit of any 32-bit word, and 0 exactly for 0 |
| `ReadyBitmap.MarkOk` | src/scheduler.c:713-717 | inserting marks exactly that priority in both levels |
| `ReadyBitmap.UnmarkOk` | src/scheduler.c:798-811 | removing the last thread unmarks exactly that priority; the group bit goes with the last bit of its byte |
| `ReadyBitmap.HighestOk` | src/scheduler.c:162-184 | the two-level search returns the most urgent marked priority; a zero group means nothing is marked |
| `SchedulerSpec.SuspendInv` | src/thread.c:657-696 | suspending keeps the invariant |
| `SchedulerSpec.ResumeInv` | src/thread.c:706-739 | resuming keeps the invariant, the current thread included |
| `SchedulerSpec.ChangePrioInv` | src/thread.c:572-613 | a change of priority moves a ready thread to the queue of its new priority |
| `SchedulerSpec.StartupInv` | src/thread.c:288-320 | a started thread becomes ready at its initial priority, before the scheduler is started and after |
| `SchedulerSpec.SuspendDoes` | src/thread.c:657-696 | a ready or running thread is suspended and in no queue afterwards, another one is left alone; no other thread changes, and the queues keep their order |
| `SchedulerSpec.ResumeDoes` | src/thread.c:706-739 | a suspended thread is ready and last in the queue of its priority, or running if it is current; no other thread changes, and the queues keep their order |
| `SchedulerSpec.ChangePrioDoes` | src/thread.c:572-613 | the thread has the new priority and nothing else of it changes, a ready one is last in its new queue and in no other; no other thread changes, and the queues keep their order |
| `SchedulerSpec.StartupDoes` | src/thread.c:288-320 | the thread has its initial priority and is last in that queue; no other thread changes, and the queues keep their order |
| `SchedulerSpec.TimeoutDoes` | src/thread.c:749-771 | a timeout makes the thread ready, last in its queue, and then schedules |
| `SchedulerSpec.ScheduleInv` | src/scheduler.c:411-523 | rt_schedule keeps the invariant: ready threads are in exactly the one queue of their priority, the current one in none |
| `SchedulerSpec.ScheduleRight` | src/scheduler.c:411-523 | after an unlocked rt_schedule the current thread runs and no ready thread is more urgent, given that the idle thread can run |
| `SchedulerSpec.ScheduleDoes` | src/scheduler.c:411-523 | rt_schedule changes at most the states of the thread that ran and of the one that runs; that was the first of the most urgent queue, and a thread that could go on is the last of its queue afterwards |
| `SchedulerSpec.StepInv` | src/scheduler.c:411-945 | every event keeps the invariant, and every one that ends with an unlocked schedule leaves the right thread running |
| `SchedulerSpec.RunInv` | src/scheduler.c:411-945 | over every run the invariant holds in every state, and the right thread runs after every unlocked schedule |
| `SchedulerSpec.BootInv` | src/scheduler.c:246-270 | rt_system_scheduler_start establishes the invariant and chooses a most urgent ready thread |
| `SchedulerSpec.StartsRight` | src/components.c:228-252 | from rt_system_scheduler_init, after starting any threads with the idle thread among them in any order, the start establishes what every run keeps, and the most urgent of them runs |
| `SchedulerSpec.SystemRuns` | src/scheduler.c:191-945 | so over every run of the system from its start the invariant holds, and the right thread runs after every unlocked schedule, the first event included |
| `SchedulerSpec.NestLimit` | src/scheduler.c:855-945 | after k nested rt_enter_critical an rt_exit_critical leaves the scheduler locked if and only if k is at most 32768 |
| `SchedulerSpec.CriticalSections` | src/scheduler.c:855-945 | up to 32767 sections inside each other lock the scheduler until the last exit, which schedules, and no other exit does |
| `SchedulerSpec.YieldTurns` | src/thread.c:472-477 | one yield moves the turn to the next thread of the queue |
| `SchedulerSpec.RoundRobin` | src/scheduler.c:430-459 | after k of n yields thread k runs, the others follow in order, and after n yields the whole state is back, for every n |
| `SchedulerSpec.RunningTurns` | src/scheduler.c:430-459 | every state left by rt_schedule is such a state of turns |
| `Scheduler.Cpu.constructor` | src/scheduler.c:191-239 | empty queues and an empty index, which satisfy the invariant of the time before the start |
| `Scheduler.Cpu.Start` | src/scheduler.c:246-270 | through the bitmap, establishes the invariant with the right thread running |
| `Scheduler.Cpu.Insert` | src/scheduler.c:688-722 | the queue and the bitmap in place: a priority is marked exactly if its queue is not empty |
| `Scheduler.Cpu.Remove` | src/scheduler.c:785-815 | the thread leaves its queue, and the priority stays marked exactly if the queue is not empty |
| `Scheduler.Cpu.HighestThread` | src/scheduler.c:162-184 | the bitmap search returns the head of the most urgent non-empty queue |
| `Scheduler.Cpu.Schedule` | src/scheduler.c:411-523 | refines the pure schedule |
| `Scheduler.Cpu.Suspend` | src/thread.c:657-696 | refines the pure suspend; fails exactly for a thread that is neither ready nor running |
| `Scheduler.Cpu.Resume` | src/thread.c:706-739 | refines the pure resume; fails exactly for a thread that is not suspended |
| `Scheduler.Cpu.ChangePriority` | src/thread.c:572-613 | refines the pure change of priority |
| `Scheduler.Cpu.Timeout` | src/thread.c:749-771 | the thread is ready again, and the schedule follows |
| `Scheduler.Cpu.Startup` | src/thread.c:288-320 | refines the pure startup; the schedule follows if the scheduler runs already |
| `Scheduler.Cpu.EnterCritical` | src/scheduler.c:855-871 | the nesting counter grows by one, in a signed word of 16 bits |
| `Scheduler.Cpu.ExitCritical` | src/scheduler.c:915-941 | the nesting counter shrinks; at zero or below it is reset and the schedule follows |
| `Kconfig.EvalLocal` | tools/kconfiglib.py:4986-5041 | the value of an expression, comparisons with names and numbers included, depends only on the symbols that its short-circuiting evaluation looks at |
| `Kconfig.ValueLocal` | tools/kconfiglib.py:3585-3682 | the value of a symbol depends only on what its evaluation reads; a symbol without type reads nothing and is n |
| `Kconfig.VisReadsStatic` | tools/kconfiglib.py:2827-2900 | what a visibility reads is recorded as a dependency, MODULES apart |
| `Kconfig.ValueReadsStatic` | tools/kconfiglib.py:2827-2900 | what a value reads is recorded as a dependency, MODULES apart |
| `Kconfig.FreshEquation` | tools/kconfiglib.py:3585-3682 | the values computed from scratch solve the equations of all symbols |
| `Kconfig.VisibilityIs` | tools/kconfiglib.py:5215-5242 | the visibility is the greatest value of a prompt, except that an m is a y for a symbol that acts as a bool, which a tristate does without modules |
| `Kconfig.FreshIs` | tools/kconfiglib.py:3585-3672 | the value of every typed symbol is the greatest of its sources (selects; a user value that counts, up to the visibility; or the first default that holds and a satisfied imply), except that an m that must be a y is one; a symbol without type is n |
| `Kconfig.ExpressionLaws` | tools/kconfiglib.py:4997-5012 | conjunction and disjunction are the greatest lower and the least upper bound, and negation exchanges them |
| `Kconfig.RelationLaws` | tools/kconfiglib.py:5014-5041 | the six relations are those of one order, and between typed symbols they compare the values |
| `Kconfig.UntouchedValue` | tools/kconfiglib.py:4001-4030 | symbols closed under what they read keep their values when other user values change |
| `Kconfig.PromptlessValue` | tools/kconfiglib.py:4032-4052 | the user value of a symbol without prompt has no effect on any value |
| `KconfigCache.CacheAfterCut` | tools/kconfiglib.py:4001-4030 | after an invalidation that stops at dependents without cached visibility, every entry still cached is right for the new user values |
| `KconfigCache.CacheAfterPromptless` | tools/kconfiglib.py:4032-4052 | a change for a symbol without prompt leaves the whole cache right |
| `KconfigCache.MakeDependOn` | tools/kconfiglib.py:5244-5260 | records the symbol under exactly the symbols of the expression |
| `KconfigCache.BuildDep` | tools/kconfiglib.py:2827-2900 | records exactly the static references |
| `KconfigCache.Kconf.constructor` | tools/kconfiglib.py:2827-2900 | no user values, an empty cache, and the dependents |
| `KconfigCache.Kconf.ExprValue` | tools/kconfiglib.py:4986-5041 | returns the value computed from scratch and only adds right entries to the cache |
| `KconfigCache.Kconf.Visibility` | tools/kconfiglib.py:3675-3682 | returns the visibility computed from scratch and only adds right entries to the cache |
| `KconfigCache.Kconf.TriValue` | tools/kconfiglib.py:3585-3672 | returns the value of the symbol computed from scratch and only adds right entries to the cache |
| `KconfigCache.Kconf.DefaultValue` | tools/kconfiglib.py:3621-3627 | the first default whose condition holds |
| `KconfigCache.Kconf.RecInvalidate` | tools/kconfiglib.py:4001-4030 | what is left of the cache is a cut in the sense of CacheAfterCut |
| `KconfigCache.Kconf.InvalidateIfHasPrompt` | tools/kconfiglib.py:4032-4052 | the cache is right for the new user values |
| `KconfigCache.Kconf.SetValue` | tools/kconfiglib.py:3713-3796 | accepts exactly the values of the type, none for a symbol that is not defined, and the cache stays right |
| `KconfigCache.Kconf.UnsetValue` | tools/kconfiglib.py:3798-3805 | without the user value, every cached entry is right |
| `KconfigCache.AcceptedCounts` | tools/kconfiglib.py:3713-3796 | an accepted value of a symbol that is fully visible and not selected is the value of the symbol |
| `KconfigCache.Session` | tools/kconfiglib.py:3585-3805 | over every sequence of reads, set_value and unset_value all reads return what evaluation without any cache returns |
| `Decimal.RoundTrip` | Task/CommunicationConfig.c:185-229 | StrToInt of the digits of n is n, for every 32-bit n |
| `Decimal.StrToInt` | Task/CommunicationConfig.c:185-197 | returns the value of a string of digits in machine words, and 0 if there is any other character |
| `Decimal.IntToStr` | Task/CommunicationConfig.c:206-229 | writes the digits of n without leading zeros, and leaves what is behind them |
| `DeviceIdFile.SaveThenRead` | Task/CommunicationConfig.c:108-178 | for all contents of the registers, saving and reading back restores all 256 ids whatever the registers hold before, and changes no other register |
| `DeviceIdFile.ReadRestores` | Task/CommunicationConfig.c:142-178 | reading the lines from node i on restores exactly the ids from i on |
| `DeviceIdFile.LineRead` | Task/CommunicationConfig.c:156-175 | f_gets takes exactly one line, and its two fields are the number and the id |
| `DeviceIdFile.TextLength` | Task/CommunicationConfig.c:153-155 | the file fits the 16-bit size and the buffer holds every line |
| `DeviceIdFile.SaveDeviceIdFile` | Task/CommunicationConfig.c:108-133 | writes the lines of all nodes, number and id |
| `DeviceIdFile.ReadDeviceIdFile` | Task/CommunicationConfig.c:142-178 | refines the pure reader on the register array |

## Left out

- MemHeap.Heap.Realloc: requires that the guard at `src/memheap.c:350` does not wrap, because the code then overwrites the header of the block; `MemHeapSpec.ReallocExactly` covers all sizes.
- MemHeap.Heap.ReallocBlock: the same.
- MemHeap.Heap.MoveBlock: the bytes of the payloads are not part of the object; what is copied is stated in `MemHeapSpec.MoveCopies`.
- MemHeapSpec.StepInv: a reallocation whose guard wraps is not a legal call, for the same reason.
- MemHeapSpec.RunsKeepInv: the same.
- MemHeap.Heap.constructor: requires a pool of at least 48 bytes; with less the two headers overlap.
- SystemHeap.Heap.Malloc: requires that the call comes back: in a heap of less than 12 bytes the search for a request that is not refused does not end (`SystemHeapSpec.SearchNeverEnds`).
- SystemHeap.Heap.Realloc: the same, where it calls rt_malloc.
- SystemHeap.Heap.ReallocOutside: the same, where it calls rt_malloc.
- SystemHeap.Heap.constructor: takes the size of the heap; rounding the two given addresses and refusing too small a range is not modelled.
- SlabHeap.Heap.Realloc: the bytes of the blocks are not part of the object; what is copied is stated in `SlabSpec.MoveCopies`.
- SlabHeap.Heap.Malloc: the counters used_mem and max_mem of the slab allocator are not modelled, and the lock that is released around the page allocator is taken to be held.
- SlabHeap.Heap.Free: the counter used_mem is not modelled.
- TimerSpec.StartKeeps: requires a period of at least 1 for a periodic timer, because with 0 the check does not end (`TimerSpec.ZeroPeriodNeverEnds`).
- TimerWheel.Wheel.Control: the same.
- TimerWheel.Wheel.InsertTimer: requires a right step, and with more than one row that all listed deadlines are comparable; `TimerTicks.InsertExactly` and `TimerTicks.RowsExactly` show that this is exact.
- TimerWheel.Wheel.Start: requires a right step; `TimerTicks.StartExactly` shows that this is exact.
- TimerSpec.SplitStartExact: over legal runs, because beyond these the kernel misses the time (`TimerTicks.RunExactly`, `TimerTicks.LostTimer`); two starts of the same timer do not overlap.
- TimerSpec.OnTime: the same.
- TimerWheel.Wheel.Check: requires a right step, exactly as `TimerTicks.CheckExactly` says; callbacks leave timers alone, and `FireRestarted` and `StopRestarted` show what one that restarts its own timer does to the flag.
- TimerWheel.Wheel.TickIncrease: the same; the time slice of the current thread is not modelled.
- MutexProtocol.TakeInv: asks for threads that hold at most one mutex at a time and nest at most 255 deep, because inheritance fails otherwise; `MutexNesting` has the structure over all runs and the exact condition of inheritance for every event.
- MutexProtocol.StepInv: the same.
- MutexProtocol.RunInv: the same.
- MutexProtocol.Safety: the same.
- MutexProtocol.Restored: the same.
- MutexProtocol.NoStrangePriority: the same.
- DeviceIdFile.ReadDeviceIdFile: requires lines of two fields, because the code passes a null pointer on otherwise; FatFs is a sequence of characters.
- Heap locks: each locked region is atomic.
- SMP branches, spin locks and interprocessor interrupts of the scheduler.
- Signals, and the EINTR retry of rt_mutex_take.
- Soft timers, rt_tick_set, and the time slice counters of rt_tick_increase.
- Semaphores, memory pools, detaching and deleting of objects, and closing of threads: easy members beside the objects that are modelled.
- Kconfig choices, string and integer symbols, file parsing, warnings and writing.
- Context switches, interrupt masking, hooks, logging, stack checks, devices, object registries and formatted printing.
- The other tasks of the relay application and the remaining build scripts.
