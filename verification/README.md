# Kernel memory and scheduling model

A Dafny model of the hard core of the ICARUS kernel, with proofs. Each module is named after what it models;
a method that the kernel runs in place is a method on a class here, tied to a function on values, and the
properties are lemmas about that function.

- **Physical frames** (`Bits`, `BitMap`, `Runs`, `Scan`, `Frames`, `Alloc`, `AllocRuns`, `FreshMap`, `MemMap`,
  `PageList`).
  A bitmap of frames is written bit by bit and byte by byte and read 64 bits at a time; regions have padded rows
  and counters. The word scan is proved to be first fit, and whole runs of allocations and frees are proved
  disjoint and conserving.
- **Scheduler** (`SchedSpec`, `SchedRuns`, `Scheduler`). A doubly linked queue aged and relinked in place, proved
  equal to a step on a sequence of threads; over all runs: the state invariant, selection quality, no starvation.
- **Page tables** (`PageSpec`, `PageMap`, `PageCost`, `PageEntries`, `PagePerms`, `PageRuns`, `Paging`). Frames of 512 entries in a memory
  that many address spaces share. `page_in` is proved to change exactly one page's translation and rights;
  to succeed exactly when frames for the missing tables are free, and to write only the entries on its path; over
  runs the latest request for a page wins, and address spaces do not disturb each other.
- **Threads and kernel mappings** (`Threads`, `SupplyRuns`, `ThreadRuns`, `KernelMaps`). Copied level-4 tables, the loops that
  supply memory to a thread, show physical memory in the kernel window, and map device registers.
- **Heap** (`HeapSpec`, `Heap`). Headers in memory, splitting, freeing, tiling over whole runs.
- **Interrupt controller table** (`Madt`, `MadtTable`). The counting pass and the filling pass over the MADT of the
  ACPI specification, section 5.2.12, and a writer of such tables that reading undoes.

Integers are unbounded, so every width that matters is written out: 64-bit addresses and counters, the 32-bit
product of the frame allocator, 16-bit priorities, the 28-bit frame field and its sign extension.

## What callers must provide

- Regions are registered in address order, disjoint, page-aligned, at least one page each and below 2^40, which is
  what the 28-bit frame field can name.
- First fit, runs, page lists and page tables are stated on maps whose padding is marked and whose counters are
  right; `Alloc.MarksIff` and `FreshMaps.ZeroSoundIff` say what happens otherwise. Runs, page lists and page tables
  also need regions of at most 2^20 frames; `Alloc.AllSoundIffSmall` says why.
- `page_in` needs a clear path: no larger page already in the way. Free frames lie below 2 GiB, since tables are
  reached through the window at `KERNEL_VMA`; `Paging.ReadBackIff` says why.
- Thread ids are new when a thread is added. A list of frames starts with at least one frame free, since the code
  does not check the first allocation.
- A sub-space's addresses behind its current size are unmapped when it is extended.

## Where the code and its comments disagree

The model follows the code.

- The padding bits that `src/kernel/Memory/PMM/mem_map.c:48` says are set stay 0, because line 56 adds byte lengths to a bit index:
  `FreshMaps.PaddingStaysFree`, and `FreshMaps.ZeroSoundIff` for when the map is sound all the same. Frames then are
  handed out twice, as `Alloc.MarksIff` and `Alloc.HandedOutTwice` state.
- `src/kernel/Memory/paging.c:31-32` says offset bits are ignored. For virtual addresses they are; a 2 MiB or 1 GiB leaf keeps bits 12 and
  up of the physical offset: `Paging.OffsetIgnoredIff`, `Paging.OffsetKept`.
- `docs/Scheduling/Design.md:40-43` picks the first thread whose active priority is 0. The code picks a
  near-minimum in one pass: `SchedRuns.FirstZeroIff`, `SchedRuns.FirstZeroPassedOver`, `SchedRuns.PickQuality`.
- `src/kernel/Memory/alloc.c:145-147` calls the search first fit; it stops at the first free block: `HeapSpec.FirstFitIff`,
  `HeapSpec.SmallBlockHidesLarge`.
- `src/kernel/Memory/alloc.c:226-236` adds a header size to sizes that already hold it: `Heaps.FreeRightIff`, `Heaps.JoinReachesIntoNext`.
- `src/kernel/Memory/DMA/ACPI/MADT.c:53` tests for null, but a refused `Imalloc` returns FRAME_ALLOC_FAILED: `Madt.HandleMadt`.
- `src/kernel/Memory/memory_mapping.c:104-111` computes a page size that the call below it does not use; the loop always maps 2 MiB.
- `src/kernel/Memory/DMA/ACPI/MADT.c:76` fills `acpi_id` from the APIC id: `MadtTables.ProcessorIdIff`.
- `include/kernel/Memory/DMA/ACPI_helpers.h:152-159` gives type-3 records two bytes more than section 5.2.12.6 of the ACPI specification:
  `MadtTables.StandardNmiMisread`.
- `include/kernel_helper.h:22` adds KERNEL_VMA to any physical address; from 2 GiB on the sum wraps: `Paging.WindowWraps`.

## Model

| member | source | states |
|---|---|---|
| BitMaps.BitMap.SetLen | src/kernel/util/BitMap.c:71-98 | Sets exactly the bits [start, start+len), through the bit, byte, bit phases; a range outside the map is refused with -1 and changes nothing. |
| BitMaps.BitMap.ClearLen | src/kernel/util/BitMap.c:100-127 | Clears exactly the bits [start, start+len); the same refusal. |
| BitMaps.BitMap.ReadWord | src/kernel/Memory/PMM/mem_map.c:252 | Bit j of the little-endian 64-bit read at byte `at` is abstract bit 8*at + j, so byte writes and word reads agree. |
| Bits.BitOfLoad | src/kernel/Memory/PMM/mem_map.c:252 | The same fact on values: bit j of a word loaded from bytes is bit j of those bytes, lowest bit of the lowest byte first. |
| Bits.ZeroIffNoBits | src/kernel/Memory/PMM/mem_map.c:255 | The test `qword == 0` means that none of the 64 places is set. |
| Bits.Ctz | src/kernel/Memory/PMM/mem_map.c:270 | Trailing zeros: the result is a set place and every lower place is clear. |
| Bits.Clz | src/kernel/Memory/PMM/mem_map.c:293 | Leading zeros: the places above the highest set one, all clear. |
| Scan.CoversMore | src/kernel/Memory/PMM/mem_map.c:206-210 | Shift-doubling step: if bit i of the mask says that `covered` free places start at i, and-ing with the mask shifted by at most that much says it for `covered + shift`. |
| Scan.FindRunInWord | src/kernel/Memory/PMM/mem_map.c:203-212 | Returns the least place where `runLength` free bits start inside the word, and -1 if and only if there is none. |
| Scan.CarriedHit | src/kernel/Memory/PMM/mem_map.c:260-279 | When the carried run grown by free places reaches n, its start is the first run of the whole region. |
| Scan.InWordHit | src/kernel/Memory/PMM/mem_map.c:281-290 | When the carried run fails and the word holds a run, the word's first run is the region's first run. |
| Scan.CarryTop | src/kernel/Memory/PMM/mem_map.c:293-295 | Otherwise the word's top free places are the new maximal free suffix, still shorter than n, and no run of n lies in the words scanned. |
| Scan.ScanWord | src/kernel/Memory/PMM/mem_map.c:251-296 | One word of the scan: answers with the region's first run, or keeps the scan invariant (maximal free suffix, too short, nothing missed) one word further. |
| MemMaps.MemMap.FindInRegion | src/kernel/Memory/PMM/mem_map.c:249-297 | The word loop finds the region's first run of n free bits, or none exists. |
| Runs.FirstRun | src/kernel/Memory/PMM/mem_map.c:200-202 | The place-by-place definition of a first run that the word scan is proved equal to. |
| Runs.CountFill | src/kernel/Memory/PMM/mem_map.c:82-85 | Marking n free places lowers the number of free places by n, clearing n marked ones raises it: what the counters rely on. |
| Runs.RunIsCounted | src/kernel/Memory/PMM/mem_map.c:245-247 | A row has no free run longer than its number of free places. |
| MemMaps.MemMap.RegisterRegion | src/kernel/Memory/PMM/mem_map.c:22-45 | Appends a region behind the others with its own 64-bit padded row; earlier records and bits stay, the layout stays sound, `mem_size` grows by the length. |
| MemMaps.MemMap.FindHolder | src/kernel/Memory/PMM/mem_map.c:76-80 | The walk finds the first region containing the address range. |
| MemMaps.MemMap.PaintRegion | src/kernel/Memory/PMM/mem_map.c:82-86 | Counter and bits of one region change together; everything else stays. |
| MemMaps.MemMap.SetMemRegion | src/kernel/Memory/PMM/mem_map.c:68-90 | New map and return code are those of the range write on values: refused outside, silent between regions, otherwise exactly that range of one region marked and its counter lowered. |
| MemMaps.MemMap.ZeroMemRegion | src/kernel/Memory/PMM/mem_map.c:92-111 | The same for clearing. |
| Frames.WriteAt | src/kernel/Memory/PMM/mem_map.c:76-86 | A page-aligned range inside region i changes region i at exactly the matching places. |
| Frames.HolderIs | src/kernel/Memory/PMM/mem_map.c:79-80 | A non-empty range lies in at most one region, so the first one found is the only one. |
| Frames.PaintRow | src/kernel/Memory/PMM/mem_map.c:82-86 | Changing one region's places changes no other region's row. |
| Frames.PaintWf | src/kernel/Memory/PMM/mem_map.c:82-85 | Flipping a run inside a region's frames keeps padding marked and every counter equal to the number of free bits. |
| Frames.PaintBack | src/kernel/Memory/PMM/mem_map.c:92-111 | Marking a free run and clearing it restores bits and counters exactly. |
| Frames.WriteSparesPadding | src/kernel/Memory/PMM/mem_map.c:56 | No call of the range write, whatever its addresses, ever marks padding. |
| Frames.PaddedIffWholeWords | src/kernel/Memory/PMM/mem_map.c:47-59 | With padding left free, padding is as line 48 intends if and only if every region is a whole number of 64-frame words. |
| MemMaps.MemMap.ZeroMemMap | src/kernel/Memory/PMM/mem_map.c:50-59 | The new map is that of the clearing and marking steps on values, for every registered map: all bits cleared, then for each region the mis-addressed write, then its counter as before. |
| FreshMaps.PaddingStaysFree | src/kernel/Memory/PMM/mem_map.c:47-59 | Whatever the regions, all padding ends free, against the comment at line 48. |
| FreshMaps.ZeroSoundIff | src/kernel/Memory/PMM/mem_map.c:47-59 | The map left is sound (padding marked, counters equal to the free bits) if and only if every region is a whole number of 64-frame words and every counter was its region's size. |
| FreshMaps.MarkedIff | src/kernel/Memory/PMM/mem_map.c:53-56 | A frame ends marked if and only if some region's write covers it: the addresses from the region's first bit number plus its length in bytes to that bit number plus 4096 for each of its places, when one region holds them all. |
| FreshMaps.CounterLeft | src/kernel/Memory/PMM/mem_map.c:53-57 | The counter a region is left with: its old value less the frames that other regions' writes marked in it, modulo 2^64; the frames its own write marked there are not counted. |
| MemMaps.MemMap.AllocFrameContiguous | src/kernel/Memory/PMM/mem_map.c:229-299 | On every layout, padding marked or not, the in-place scan has the result of the search on values: same map afterwards, same address. |
| Alloc.Search | src/kernel/Memory/PMM/mem_map.c:242-299 | What the scan settles on: the lowest place of the lowest region whose counter admits the request and that has n free bits in a row; None means that there is no such region. |
| Alloc.SearchIsFirstFit | src/kernel/Memory/PMM/mem_map.c:245-247 | Where padding is marked and counters are right, that is first fit. |
| Alloc.FirstFit | src/kernel/Memory/PMM/mem_map.c:224-228 | First fit in plain words, without counters: the lowest place of the lowest region with n free frames in a row; None means that no region has such a run. |
| Alloc.AllocExact | src/kernel/Memory/PMM/mem_map.c:229-299 | A first fit below the 32-bit limit is marked exactly, its address is returned, and padding and counters stay right. |
| Alloc.FailsIff | src/kernel/Memory/PMM/mem_map.c:298 | FRAME_ALLOC_FAILED if and only if no region has n consecutive free frames. |
| Alloc.SkipIsSound | src/kernel/Memory/PMM/mem_map.c:245-247 | Skipping a region by its counter never skips a run. |
| Alloc.AllocSoundIff | src/kernel/Memory/PMM/mem_map.c:261-288 | The frames returned were all free if and only if the first fit starts below frame 2^20 of its region (`run_start * DEFAULT_PAGE_SIZE` is a 32-bit product). |
| Alloc.AllSoundIffSmall | src/kernel/Memory/PMM/mem_map.c:261-288 | Over all sound maps of given regions, every call returns free frames if and only if no region has more than 2^20 frames. |
| Alloc.WrapHandsOutTakenFrame | src/kernel/Memory/PMM/mem_map.c:261 | A map, sound in every other way, on which the call hands out a taken frame. |
| Alloc.MarksIff | src/kernel/Memory/PMM/mem_map.c:56-57 | On any map, padding free or not, a call below the 32-bit limit marks the frames it returns in their region if and only if they all are frames of it; otherwise the block ends behind the region and the next equal call returns the same address. |
| Alloc.HandedOutTwice | src/kernel/Memory/PMM/mem_map.c:56-57 | A hundred frames with free padding, on which a request for two is answered twice with the last frame. |
| Alloc.AllocOne | src/kernel/Memory/PMM/mem_map.c:195-198 | A single-frame call returns the lowest free frame of all, takes that frame and no other, and fails only when none is free. |
| Alloc.FreeUndoesAlloc | src/kernel/Memory/PMM/mem_map.c:302-321 | Freeing what was just allocated restores the map, bits and counters. |
| MemMaps.MemMap.DeallocFrame | src/kernel/Memory/PMM/mem_map.c:302-321 | New map and return code of a free are those on values, for every address and size. |
| AllocRuns.RunInv | src/kernel/Memory/PMM/mem_map.c:229-321 | Every state of every run of allocations and frees: blocks lie in one region at their address, frames marked are those marked at the start or held by a live block, counters and padding right. |
| AllocRuns.LiveBlocksDisjoint | src/kernel/Memory/PMM/mem_map.c:229-321 | In any run live blocks lie inside one registered region each and never overlap in memory. |
| AllocRuns.FramesConserved | src/kernel/Memory/PMM/mem_map.c:229-321 | In any run free frames plus frames of live blocks equal the free frames at the start, and each counter is its region's number of free bits. |
| AllocRuns.AllReturned | src/kernel/Memory/PMM/mem_map.c:229-321 | Any run that has given everything back ends in exactly the map it started from. |
| AllocRuns.TakeKeeps | src/kernel/Memory/PMM/mem_map.c:229-299 | One allocation keeps the run invariant. |
| AllocRuns.GiveKeeps | src/kernel/Memory/PMM/mem_map.c:302-321 | One free of a live block keeps the run invariant. |
| AllocRuns.StepBlocks | src/kernel/Memory/PMM/mem_map.c:229-321 | An allocation that can be met adds one block of as many frames, at the first fit and its address; a free removes the block named and no other. |
| AllocRuns.OneTaken | src/kernel/Memory/PMM/mem_map.c:195-198 | A single-frame call fails exactly when the counters add up to zero, and otherwise lowers their sum by one. |
| PageLists.MapAllocFrame | src/kernel/Memory/PMM/mem_map.c:219-222 | The next single frame for default pages, or a failure exactly when no frame is left. |
| PageLists.IallocFrames | src/kernel/Memory/PMM/mem_map.c:137-163 | Succeeds if and only if count is at most 510 and that many frames are free; the list in its own first frame then holds count, page size and the addresses taken, in order. |
| PageLists.IdeallocFrames | src/kernel/Memory/PMM/mem_map.c:169-179 | For lists of any of the three page sizes: the tail is freed in order, each address aligned down to the page size, then the page holding the list; the result is that of freeing them one by one. |
| PageLists.ListRoundTrip | src/kernel/Memory/PMM/mem_map.c:137-179 | Taking n single frames and giving the list back restores every bit and counter. |
| PageLists.ListDistinct | src/kernel/Memory/PMM/mem_map.c:150-156 | The addresses of a list are all different. |
| PageLists.TakenCount | src/kernel/Memory/PMM/mem_map.c:150-156 | n single-frame allocations succeed exactly while n frames are free, and lower the total by n. |
| PageLists.ListFillsFrame | src/kernel/Memory/PMM/mem_map.c:140 | Two header words and the 510 entries a list may have fill one 4 KiB frame exactly. |
| AllocRuns.SomeFree | src/kernel/Memory/PMM/mem_map.c:242-247 | A single frame can be found if and only if some counter is not zero. |
| SchedSpec.ChoiceExists | src/kernel/Processes/Scheduling/scheduler.c:51-65 | The scan finds a thread if and only if some READY thread has active priority below 65535. |
| SchedSpec.NearlyLeast | src/kernel/Processes/Scheduling/scheduler.c:57-64 | The thread found has at most one more than the least active priority of all READY threads. |
| SchedSpec.AheadWorse | src/kernel/Processes/Scheduling/scheduler.c:57-64 | Every READY thread ahead of the one found was strictly worse. |
| Schedulers.CreateThread | src/kernel/Processes/thread.c:29-31 | Null exactly for the priority whose increment would wrap; otherwise a NEW thread with active priority equal to its priority. |
| Schedulers.Scheduler.constructor | src/kernel/Processes/Scheduling/scheduler.c:169-185 | Builds the two-node list of first thread and DENIED dummy; the dummy is the one counted as running. |
| Schedulers.Scheduler.AddThread | src/kernel/Processes/Scheduling/scheduler.c:191-198 | Appends behind the last node: list well formed, order kept, count one higher. |
| Schedulers.Scheduler.Visit | src/kernel/Processes/Scheduling/scheduler.c:51-64 | One stop: a READY thread ages by one, and becomes the choice exactly when it beats the bar. |
| Schedulers.Scheduler.ScanQueue | src/kernel/Processes/Scheduling/scheduler.c:45-65 | The pointer walk ages every READY thread once and ends with the choice of the scan over the whole list. |
| Schedulers.Scheduler.MoveToBack | src/kernel/Processes/Scheduling/scheduler.c:96-115 | Relinking moves the node to the back; the same nodes, others in order, links and ends right. |
| Schedulers.Scheduler.PickNextThread | src/kernel/Processes/Scheduling/scheduler.c:44-116 | The list stays well formed, the thread picked is last, the others keep their order, and the threads' states are those of a pick on values; with none found the list does not move. |
| Schedulers.Scheduler.ContextSwitch | src/kernel/Processes/Scheduling/scheduler.c:135-157 | The state part: the thread that ran is READY unless it is the dummy, the next one RUNNING and recorded as such. |
| Schedulers.Scheduler.Schedule | src/kernel/Processes/Scheduling/scheduler.c:200-203 | One timer tick on the linked list is one tick on values. |
| SchedRuns.InitInv | src/kernel/Processes/Scheduling/scheduler.c:169-185 | `scheduler_init` establishes the run invariant. |
| SchedRuns.TickKeeps | src/kernel/Processes/Scheduling/scheduler.c:44-203 | A tick keeps it; afterwards the running thread is not the dummy and is last. |
| SchedRuns.TickOrder | src/kernel/Processes/Scheduling/scheduler.c:96-115 | A tick keeps the same threads: the picked one goes last, the others keep their order. |
| SchedRuns.NoneMeansRunningLast | src/kernel/Processes/Scheduling/scheduler.c:70-84 | Whenever none is found, the last thread is the running thread and not the dummy. |
| SchedRuns.ChosenIsThread | src/kernel/Processes/Scheduling/scheduler.c:44-116 | No tick ever picks the dummy; a thread found by the scan is not the running one. |
| SchedRuns.RunSafe | src/kernel/Processes/Scheduling/scheduler.c:44-203 | In any run from boot: the count is the length minus one, exactly the thread last switched to is RUNNING, the dummy stays DENIED, active priority is at most priority + 1, and that increment never wraps sixteen bits. |
| SchedRuns.CounterIsFresh | src/kernel/Processes/thread.c:35 | Ids that never repeat, as a counter gives them, meet what every law over runs asks of new threads. |
| SchedRuns.SpawnJoins | src/kernel/Processes/Scheduling/scheduler.c:191-198 | A new thread joins at the end, READY, with active priority equal to its priority; only priority 65535 is refused. |
| SchedRuns.PickQuality | src/kernel/Processes/Scheduling/scheduler.c:45-65 | With an eligible thread, the choice's active priority is within one of every READY thread's, and each other READY thread ends exactly one lower, at zero at least. |
| SchedRuns.TurnTaken | src/kernel/Processes/Scheduling/scheduler.c:92-94 | The thread switched to ends RUNNING, last, with active priority equal to priority + 1; threads that are not READY do not age. |
| SchedRuns.FirstZeroIff | docs/Scheduling/Design.md:40-43 | The first READY thread with active priority 0 is picked if and only if the scan reaches it with a bar above 0, that is, not standing at a thread with active priority 1. |
| SchedRuns.FirstZeroPassedOver | docs/Scheduling/Design.md:40-43 | A queue on which it is passed over for a thread ahead with active priority 1. |
| SchedRuns.TwoTurnsIff | docs/Scheduling/Design.md:33 | Two turns in a row happen if and only if no READY thread has active priority below 65535, for every priority and not only 0. |
| SchedRuns.NoStarvation | src/kernel/Processes/Scheduling/scheduler.c:44-116 | A READY thread with active priority a and k threads ahead is switched to within a + k + 1 ticks, whatever threads join meanwhile. |
| SchedRuns.TurnComes | src/kernel/Processes/Scheduling/scheduler.c:44-116 | In any run with more than a + k timer ticks, some tick switches to the READY thread at place k with active priority a. |
| SchedRuns.EveryThreadRuns | src/kernel/Processes/Scheduling/scheduler.c:44-203 | Every thread, the running one included, gets its next turn within priority + place + 3 ticks. |
| SchedRuns.PassedIsCloser | src/kernel/Processes/Scheduling/scheduler.c:51-64 | Each tick that misses a READY thread lowers its priority or moves a thread from ahead of it to the back. |
| PageSpec.SamePageIff | include/kernel/Memory/memory_mapping.h:18-30 | Between canonical addresses, agreeing in the indices down to a level is being in the same 4 KiB, 2 MiB or 1 GiB page. |
| PageSpec.RightsByMask | include/kernel/Memory/memory_mapping.h:33-47 | Each of the five rights of a request by its mask: 0x2 writes, 0x8 user access, 0x80 write-through, 0x8000 no caching, bit 63 no execution. |
| PageSpec.DescendWalk | src/kernel/Memory/paging.c:65-78 | Linking an empty table and raising rights changes no translation of any address space. |
| PageSpec.BuildKeeps | src/kernel/Memory/paging.c:40-101 | Walking down and building keeps the table forest unaliased (each new table a zeroed frame that was free) and every translation. |
| PageSpec.BuildMem | src/kernel/Memory/paging.c:40-101 | Building takes single frames from the memory map and leaves its regions otherwise as they are. |
| PageMap.ReachUnique | src/kernel/Memory/paging.c:40-101 | Below the roots each table is reached by one path from one table of each level: tables are a forest. |
| PageMap.InsertTranslates | src/kernel/Memory/paging.c:37-112 | After success exactly the addresses of the page translate to the requested leaf, in this address space and those sharing its level-3 table; all other translations of all address spaces are as before. After failure all are. |
| PageCost.InsertSucceedsIff | src/kernel/Memory/paging.c:41-98 | A call succeeds if and only if the tables missing on its path (counted from present bits alone) are no more than the free frames. It takes exactly that many frames; a call that fails has taken all there were and still lacks a table. |
| PageCost.NothingMissing | src/kernel/Memory/paging.c:41-98 | A page that is mapped already, with this size or a smaller one, lacks no table, so its call is never refused. |
| PageEntries.InsertEntries | include/kernel/Memory/memory_mapping.h:49-65 | Entry by entry: those leading to the leaf gain user and write access if asked for, and keep every other bit (a new one has the others clear); the entry at the leaf's level becomes the leaf; no other entry of any table changes. |
| PagePerms.RightsAreLeafs | include/kernel/Memory/memory_mapping.h:49-65 | Where no entry leading on disables execution or allows less than what is below it, the AND of write, user and execute rights along the walk is what the leaf states. |
| PagePerms.InsertPerms | include/kernel/Memory/memory_mapping.h:49-65 | Every mapping call, failed ones included, keeps that invariant for address spaces whose own entry to a shared table already allows the rights. |
| PageRuns.SharedShowsIff | include/kernel/Memory/memory_mapping.h:49-65 | In another address space sharing the level-3 table a mapped page shows the frame with the rights both its own entry and the call allow: those asked for if and only if its own entry already allows them. |
| PagePerms.InsertShows | src/kernel/Memory/paging.c:51-108 | After a call the page shows the frame and exactly the write, user and execute rights asked for; every other address shows what it showed. |
| PagePerms.EmptySpace | src/kernel/Memory/paging.c:47 | A zeroed level-4 table shows nothing and satisfies every invariant: the start of any run. |
| PagePerms.Serve | src/kernel/Memory/paging.c:37-112 | A request is served if and only if no larger page is in the way and the frames for its missing tables are free, and then exactly as the mapping call does. |
| PagePerms.LatestWins | src/kernel/Memory/paging.c:37-112 | After any run of calls an address shows what the latest successful call for its page asked for, frame and rights. |
| PagePerms.FirstRequest | src/kernel/Memory/paging.c:41-98 | In a space with nothing mapped a request succeeds if and only if there is a free frame for each level between the root and the page; the page then shows exactly what was asked for. So the laws about served requests are not empty. |
| PageRuns.OtherSpaceShows | src/kernel/Memory/paging.c:37-112 | A call on one address space, in a slot it does not share with another, changes nothing the other shows. |
| PageRuns.Isolation | src/kernel/Processes/thread.c:44-83 | Over any interleaving on many address spaces, one whose shared slots the others avoid shows only what its own requests asked for. |
| PageRuns.FillStep | src/kernel/Memory/paging.c:37-112 | Mapping the page behind a mapped stretch extends the stretch and keeps everything outside it. |
| Paging.PageMemory.PageIn | src/kernel/Memory/paging.c:37-112 | The in-place walk, allocating and writing through the kernel window, has the result of the mapping function on values. It returns 0 if and only if the tables missing on the path are no more than the free frames, and -1 leaves no frame free and a table missing. |
| Paging.PageMemory.NextTable | src/kernel/Memory/paging.c:40-54 | One level: a missing table is allocated, zeroed, linked; rights raised; the next table found through the window. |
| Paging.PageMemory.WalkTable | src/kernel/Memory/paging.c:114-141 | The software walk returns the leaf's frame field shifted and sign-extended, or INVALID_PHYS_ADDR exactly where nothing translates. |
| Paging.ReadBackIff | src/kernel/Memory/paging.c:125-140 | `page_ppn << 12` gives the frame's address back if and only if it is below 2 GiB. |
| Paging.AddressReadBackIff | src/kernel/Memory/paging.c:106-140 | A physical address survives being stored in an entry and read by the walk if and only if it is below 2 GiB. |
| Paging.ReadBackValue | src/kernel/Memory/paging.c:125-140 | What the walk returns for any frame: the low 32 bits of the address, with ones above when bit 31 is set. |
| Paging.WindowWraps | include/kernel_helper.h:22 | Physical memory from 2 GiB on is seen from address 0 on, since the sum with KERNEL_VMA wraps; below, in the top 2 GiB. |
| Paging.OffsetIgnoredIff | src/kernel/Memory/paging.c:31-32 | The offset bits of the physical address are ignored if and only if the offset in the page is below 4 KiB. |
| Paging.OffsetKept | src/kernel/Memory/paging.c:82-83 | A 2 MiB page at 0x20_1000 is stored with the frame 0x201. |
| Paging.TableInWindow | src/kernel/Memory/paging.c:53 | A table below 2 GiB is found through the kernel window where its entry points. |
| Threads.CreateThread | src/kernel/Processes/thread.c:44-53 | The new thread's level-4 table is a copy, in a frame that was free, of the table in use; nothing else changes. |
| Threads.CopyTranslates | src/kernel/Processes/thread.c:44-48 | The copy translates every address like the original, and all other address spaces are as before. |
| Threads.CopyShares | src/kernel/Processes/thread.c:44-48 | The copy shares with each address space exactly the tables the original shares or points to. |
| Threads.CopyPerms | src/kernel/Processes/thread.c:44-48 | The rights invariant extends to the copy. |
| Threads.SubSpaceSlot | include/kernel/Processes/thread.h:27-37 | Each sub-space is one whole level-4 slot: 9, 18 or 249. |
| Threads.ThreadPermsMean | src/kernel/Processes/thread.c:74 | User access is granted exactly to unprivileged threads or on request; every other right is as requested. |
| Threads.SupplyMemRegion | src/kernel/Processes/thread.c:67-83 | The first `done` addresses are mapped behind the sub-space's end, page by page, with the right rights; that sub-space's size, named by field, grows by done * page_size and the two others stay; everything mapped before and every unshared address space stays; 0 if and only if all are mapped, and -1 only when the next page lacks a table and no frame is free. |
| SupplyRuns.ThreadMemory | src/kernel/Processes/thread.c:67-83 | After any sequence of supplies to the three sub-spaces of a thread that started empty: each size is the bytes supplied to that one, every byte below it shows the frame and rights of the page it was supplied in, and nothing lies behind. |
| SupplyRuns.SizesAreGiven | src/kernel/Processes/thread.c:77 | Each size grows by exactly the bytes supplied to its sub-space. |
| SupplyRuns.PageStays | src/kernel/Processes/thread.c:67-83 | A page once supplied translates to its frame, with its rights, after all later supplies. |
| SupplyRuns.NoGap | src/kernel/Processes/thread.c:71-77 | Every byte below a size lies in a page of some supply: sub-spaces fill without a gap. |
| SupplyRuns.HistoryGrows | src/kernel/Processes/thread.c:67-83 | A history of supplies starts anywhere, and a supply as `thread_supply_mem` performs it extends it: the histories of the laws above are what calls add up to. |
| ThreadRuns.BothShareIff | src/kernel/Processes/thread.c:44-48 | Two threads copied from one table share a slot if and only if that table points to a level-3 table there. |
| ThreadRuns.ThreadsCanBeMade | src/kernel/Processes/thread.c:44-48 | With two free frames, two threads can be made from any sound address space, so the law of isolation is not empty. |
| ThreadRuns.ThreadIsolation | src/kernel/Processes/thread.c:44-83 | If slots 9, 18 and 249 of the copied table are empty, any interleaving of two threads' requests in those slots leaves each thread showing what its own requests asked for, and elsewhere what the copied table showed. |
| KernelMaps.WindowStep | src/kernel/Memory/memory_mapping.c:113-123 | Mapping one 2 MiB page shows it in the window and loses nothing shown. |
| KernelMaps.WindowLeaf | src/kernel/Memory/memory_mapping.c:119 | The window's leaves are 2 MiB, writeable, executable and cached, and not for user mode. |
| KernelMaps.PageInRegions | src/kernel/Memory/memory_mapping.c:94-127 | After success every address of a region from its first 2 MiB boundary on is shown by the window; nothing shown before is lost, even on failure; failure leaves no frame free and some page of some region without its tables. |
| KernelMaps.WindowReadsBack | src/kernel/Memory/memory_mapping.c:113-123 | A walk of the window reads a 2 MiB-aligned address back if and only if it is below 2 GiB. |
| KernelMaps.MapMmio | src/kernel/Memory/DMA/MMIO.c:13-30 | Maps the first `done` pages from the rounded-down address on and keeps every other translation; the result is the window address if all are mapped and FRAME_ALLOC_FAILED if not, which only happens when the next page lacks a table and no frame is free. |
| KernelMaps.MmioCoversIff | src/kernel/Memory/DMA/MMIO.c:15-17 | Every byte of the request is mapped if and only if the offset of its first byte leaves room in the last page; always so for a page-aligned address. |
| HeapSpec.UnitsSufficeIff | src/kernel/Memory/alloc.c:149-150 | Header and request fit the rounded size if and only if the 64-bit sums do not wrap; then less than 16 bytes are spare. |
| HeapSpec.FirstFitIff | src/kernel/Memory/alloc.c:145-183 | The search serves the true first-fit block if and only if no free block ahead of it is too small, because it stops at the first free block. |
| HeapSpec.SmallBlockHidesLarge | src/kernel/Memory/alloc.c:179-180 | A tiled heap where a small free block hides a large one. |
| HeapSpec.SplitTiles | src/kernel/Memory/alloc.c:163-177 | Splitting keeps the tiling, and every header's backward distance still leads to a header although the block behind the split is not updated. |
| HeapSpec.TakeHolds | src/kernel/Memory/alloc.c:157-177 | A request hands out exactly one block more; no block held moves, shrinks or is lost. |
| HeapSpec.GiveHolds | src/kernel/Memory/alloc.c:220-237 | A free without merging takes exactly that block from those held. |
| HeapSpec.HeldDisjoint | src/kernel/Memory/alloc.c:148-183 | Blocks held do not overlap and lie in the heap. |
| HeapSpec.RunInv | src/kernel/Memory/alloc.c:148-237 | Any run from a fresh heap of served requests and frees without merging: blocks of 16-byte units tile the heap, and each live request has a block of its own with room for its bytes. |
| HeapSpec.StepLives | src/kernel/Memory/alloc.c:148-237 | A request served adds exactly one live request, at a place where none was; a release removes exactly one. |
| HeapSpec.LivePayloadsDisjoint | src/kernel/Memory/alloc.c:148-237 | In any such run the bytes of live requests never meet each other or a header, and stay inside the heap. |
| HeapSpec.SampleRun | src/kernel/Memory/alloc.c:148-237 | A run with a release between two requests is legal, and leaves the other two blocks live where they were put. |
| Heaps.Heap.constructor | src/kernel/Memory/alloc.c:94-112 | The fresh heap is one free block, 16 bytes short of the whole pages asked for. |
| Heaps.Heap.Imalloc | src/kernel/Memory/alloc.c:148-183 | The header walk terminates and serves exactly when the first free block is large enough; headers written are those of the split heap and the address is 16-aligned behind the header. |
| Heaps.Heap.Free | src/kernel/Memory/alloc.c:220-237 | What is written, for every combination of free neighbours; with both in use exactly that block becomes free. |
| Heaps.FreeShows | src/kernel/Memory/alloc.c:220-237 | With both neighbours in use the memory shows the same blocks with this one free. |
| Heaps.FreeRightIff | src/kernel/Memory/alloc.c:226-236 | For every block but the last: the headers afterwards show the blocks a free should leave, joined to exactly their units, if and only if neither neighbour that the headers name is free. |
| Heaps.JoinSizes | src/kernel/Memory/alloc.c:227-234 | A join makes the block larger than it should be by at least one header for each neighbour joined. |
| Heaps.JoinReachesIntoNext | src/kernel/Memory/alloc.c:232-234 | A heap on which a join reaches into a block in use. |
| Heaps.MergeWithLastOverruns | src/kernel/Memory/alloc.c:232-234 | Joining with a free last block leaves memory that no blocks tile: the header size added again reaches past the end. |
| Madt.RecordsTile | src/kernel/Memory/DMA/ACPI/MADT.c:29-41 | The records read lie one behind the other from 0x2C to where both passes stop. |
| Madt.OfTypeAll | src/kernel/Memory/DMA/ACPI/MADT.c:32-39 | A type's list holds each of its records as often as it occurs. |
| Madt.CountRecords | src/kernel/Memory/DMA/ACPI/MADT.c:29-41 | The first pass counts exactly the records of each of the five types before the stop. |
| Madt.PlanFits | src/kernel/Memory/DMA/ACPI/MADT.c:43-62 | The five arrays follow the 72-byte header without overlap, every entry inside, and end exactly at `total`, which is 72 bytes and 8, 12, 12, 8 and 4 for each entry of the five types. |
| Madt.MadtInfo.RoomLeft | src/kernel/Memory/DMA/ACPI/MADT.c:68-103 | At each record the second pass still has a free slot of its type. |
| Madt.MadtInfo.Fill | src/kernel/Memory/DMA/ACPI/MADT.c:64-112 | The second pass leaves each array holding exactly the entries of its type, in table order, and the controller address of the last type-5 record, or the header's. |
| Madt.HandleMadt | src/kernel/Memory/DMA/ACPI/MADT.c:18-119 | Both passes agree: for every byte table each counted slot is written and none outside. The null test refuses exactly a null pointer; the failure value of the heap passes it. |
| MadtTables.ReadRecord | include/kernel/Memory/DMA/ACPI_helpers.h:126-174 | Each reader gives back the fields of a record of its type written byte by byte, little-endian, in the packed layout; only the processor id is replaced by the controller's. |
| MadtTables.TableHolds | include/kernel/Memory/DMA/ACPI_helpers.h:114-124 | Header, controller address, flags and any records that fit, written one after the other, are a table of the kind the laws below read. |
| MadtTables.RecordsFound | src/kernel/Memory/DMA/ACPI/MADT.c:29-41 | Reading a table written from typed records finds each record where it was written, and no other. |
| MadtTables.TableRead | src/kernel/Memory/DMA/ACPI/MADT.c:64-112 | What the second pass leaves for such a table: all five arrays hold the fields of the records of their type, in order, with the counts; the controller address is that of the last record of type 5 or else the header's. |
| MadtTables.ProcessorIdIff | src/kernel/Memory/DMA/ACPI/MADT.c:76 | The processor id stored is the table's if and only if it equals the controller's id. |
| MadtTables.StandardNmiMisread | include/kernel/Memory/DMA/ACPI_helpers.h:152-159 | A type-3 record as the ACPI specification lays it out is misread: the low half of the interrupt becomes the flags. |

## Left out

- MemMaps.MemMap.RegisterRegion: regions come in address order, page-aligned and below 2^40, as the caller rounds them and boot loaders list them; the bits of the new row are whatever the bitmap held, and `zero_mem_map` clears them afterwards.
- PageLists.IallocFrames: default pages only, since 512 and 262144 do not fit the 8-bit unit count for larger ones; a failure leaves the frames taken so far marked, as in the code; a map without a free frame is left out, since the code then writes through the failure value.
- PageLists.IdeallocFrames: the frame that holds the list is an array of 512 words beside the bitmap rather than a part of one memory.
- Schedulers.Scheduler.ContextSwitch: only the thread states and the running thread; saved registers, CR3 and the end-of-interrupt write are not modelled.
- Schedulers.Scheduler.PickNextThread: the timer interrupt only, which is the one caller; the wait loop for other sources is left out.
- Schedulers.CreateThread: the priority guard and the scheduling fields; the address space is Threads.CreateThread, register values are left out.
- Threads.CreateThread: null when no frame is left for the table; the code goes on with the failure value there.
- Threads.SupplyMemRegion: page sizes are the three of the page tables and the extended sub-space stays inside its 512 GiB slot.
- Paging.PageMemory.PageIn: needs a clear path; what happens when a larger leaf is read as a table is left out, and so is `invlpg`.
- KernelMaps.PageInRegions: starts from an address space without 1 GiB leaves.
- KernelMaps.MapMmio: stays below 2^40 and needs that nothing larger than 4 KiB is mapped where it maps.
- Heaps.Heap.Imalloc: needs a free block, since without one the walk reads past the last header; None stands for the growth path, which asks for a byte count as pages and ends in failure.
- Heaps.Heap.Free: not the last block, whose next header lies outside the heap.
- Heaps.Heap.constructor: the pages that back the heap are mapped by `page_in`, which is modelled on its own.
- Madt.MadtInfo.constructor: counters start at zero although only 8 bytes are cleared; from other values the second pass would write elsewhere.
- Madt.HandleMadt: what is written through the heap's failure value; the final `map_mmio` calls are KernelMaps.MapMmio; the global pointer is left out.
- `page_out`: it clears the whole path up to the level-4 entry, so it does not undo `page_in`.
- `bitmap_set_value`, `bitmap_set`, `bitmap_clear`, `bitmap_get`: not used by the allocator.
- `thread_supply_new_mem`, `thread_supply_mem`, `thread_exit`: argument shuffling around what is modelled, and an exit that assumes an interior node.
- `Irealloc`, `Icalloc`: thin wrappers of the heap.
- Multiboot tags, tar, drivers, APIC, PIC, PCIe, descriptor tables, fonts and printing: input and output without an algorithm behind them.
