# Memory management and scheduling of tachyon3, in Dafny

This project models the memory-management stack and the scheduler of the tachyon3 x86_64 kernel and proves what
their operations keep and promise, for every input and over whole runs:

- **Kernel heap** (`HeapTiling`, `HeapTags`, `HeapSteps`, `HeapCarve`, `Memory`, `Heaps`): a first-fit boundary-tag
  allocator over a memory of 8-byte words. `HeapTiling` is the heap as a row of blocks with whole runs of calls; `HeapTags` and
  `HeapSteps` relate the row to tag words in memory and to the contents of live payloads; `HeapCarve` follows the tags
  at byte addresses for sizes that are not whole words; `Heaps.Heap` is the code.
- **Page tables** (`PageTree`, `ClobberTree`, `PageTables`): 4-level tables as a tree of frames, edited through a window
  of ten temporary slots. The meaning of a space is a partial map from virtual addresses to pages.
- **Physical pages** (`Bitmaps`, `PhysZones`, `PhysMem`): bitmaps with a search hint and a count, a list of regions,
  adding, reserving, allocating and freeing.
- **Scheduler** (`LinkedLists`, `SchedModel`, `SchedRuns`, `SchedIdle`, `SchedWaiting`, `SchedSlices`,
  `Schedulers`): linked queues that refine
  sequences, a state machine for any number of CPUs, theorems over its runs, and the operations on the linked queues.
- **Stacks** (`Stacks`) and **paths** (`CStrings`, `Paths`).

The classes hold the state that the code updates in place; each method's contract ties the new state to a value-level
function, and the theorems are lemmas about those functions. Every critical section is one step. Pages that can be
had, mappings that can be made, the clock and the number of CPUs are parameters.

Some promises do not hold of the code as it stands. The code is modelled as it is, and the exact condition is proved:

- Resizing a heap block into the last block leaves no free last block, and the next request that finds no room hands the
  absorbed block out again (`AfterResizeSound`, `AbsorbedLastExample`, `AbsorbedLastIsReused`).
- Resizing in place writes a size that is not rounded. The tags still tile the heap exactly when the size is a multiple
  of 4 (`HeapCarve.CarveTilesIff`); for an odd multiple of 4 what breaks is the alignment of the next payload, which
  validation then refuses (`HeapCarve.RemainderAlignedIff`). Tiled and aligned it stays exactly for multiples of 8
  (`HeapCarve.CarveAlignedIff`).
- Growth never looks at the end of the heap, so a live pointer can be refused by validation, and freeing it does nothing:
  exactly when its payload reaches past the end (`ValidateLive`, `FirstAlloc`, `PastEndExample`).
- Mapping a large page sets the large-page bit in the upper tables as well, so the processor's walk differs from the
  kernel's (`AgreesIff`, `Vmem.Map`); destroying a space frees a large page twice (`LargeFreedTwice`), and gives no frame
  back twice exactly when no large page is in reach and no frame stands in two entries (`OnceEachIff`).
- The last page of a region is never handed out: a request is refused exactly when no region has a free run of its length
  that ends before the last page (`PhysMem.Allocator.Alloc`, `FullIff`).
- Reserving a range misses a page where a region ends at the start of one listed before it (`ReachedAllIff`), and adding a
  region can swallow another one (`AddedDisjointIff`).
- `sched_remove` does not remove a thread that is current (`RemovedIff`, `RemovedStays`). One idle thread is enough for
  one CPU only: `n` CPUs need `n` threads that always can run, exactly (`EnoughIff`, `IdleNeeded`).
- A fault inside the mapped part of a stack moves its lower end up (`GrownAbove`), and the room a stack reserves may reach
  below its region (`Stacks.Allocator.Alloc`).

## Model

| member | source | states |
|---|---|---|
| `HeapTiling.WordsForBytes` | src/heap.c:209 | The words of a request hold its bytes, and not a word more than needed. |
| `HeapTiling.GrowthSuffices` | src/heap.c:228-251 | When no block fits, at most two growth rounds are needed, and afterwards the last block is the first that fits. |
| `HeapTiling.AllocFits` | src/heap.c:213-226 | In sizes alone: a request that some free block has room for, with two tags, comes out of the lowest such block; no page is mapped; the counters move by the request. |
| `HeapTiling.AllocGrows` | src/heap.c:228-251 | In sizes alone: otherwise the least pages that hold the request are mapped, or twice as many, and the last block is split; when pages run out it gets those there are. |
| `HeapTiling.SplitSound` | src/heap.c:216-226 | Splitting a free block keeps the whole invariant: no two free neighbours, a free last block, exact byte and block counters. |
| `HeapTiling.GrowthSoundIff` | src/heap.c:228-247 | Growth keeps the invariant exactly when the last block was free, because it is overwritten as free untested. |
| `HeapTiling.ReleaseSound` | src/heap.c:260-293 | Freeing with merging on both sides keeps the invariant, the counters falling by the freed block. |
| `HeapTiling.ReleaseUndoesSplit` | src/heap.c:216-226 | Freeing a block that was just split off restores exactly the tiling before: it merges with the remainder and nothing else. |
| `HeapTiling.AbsorbSoundIff` | src/heap.c:322-329 | Taking the whole free successor keeps the invariant exactly when that successor is not the last block. |
| `HeapTiling.CarveSound` | src/heap.c:330-337 | Taking part of the free successor keeps the invariant. |
| `HeapTiling.ResizeIs` | src/heap.c:311-345 | In sizes alone: a large enough block stays, one with a free successor takes what it needs of it or the whole, all others move; row and counters afterwards. |
| `HeapTiling.MoveTotals` | src/heap.c:342-345 | A move changes the byte counter by the difference of the two sizes and leaves the block counter. |
| `HeapCarve.OrTags` | src/heap.c:107-108 | For whole words the byte-level tags are the tags of the word model. |
| `HeapCarve.CarveTilesIff` | src/heap.c:330-337 | After an unrounded resize the walk over the whole heap meets only agreeing tags and ends at the mark exactly for multiples of 4. |
| `HeapCarve.RemainderAlignedIff` | src/heap.c:330-337 | The payload cut from the remainder is aligned exactly when the size rounded down to 4 is a multiple of 8. |
| `HeapCarve.CarveAlignedIff` | src/heap.c:330-337 | Heap tiled and every payload aligned, as validation demands, exactly for multiples of 8. |
| `HeapTiling.AfterResizeSound` | src/heap.c:295-346 | Every route of a resize keeps the invariant, except absorbing the last block: if and only if. |
| `HeapTiling.FreeUndoesAlloc` | src/heap.c:206-293 | Allocating and freeing again restores counters and tiling, exactly so when no page had to be mapped. |
| `HeapTiling.RunSound` | src/heap.c:167-346 | In every state of every run of allocations, frees, resizes and refused calls from a fresh heap the invariant holds. |
| `HeapTiling.AbsorbedLastIsReused` | src/heap.c:228-247 | After a resize has absorbed the last block, the next request without room grows and splits that used block. |
| `HeapTiling.AbsorbedLastExample` | src/heap.c:322-329 | A concrete heap on which that happens. |
| `HeapTags.TagRoundTrip` | src/heap.c:14-24 | Size, used bit and footer bit are read back from a tag word as written. |
| `HeapTags.RetagTiles` | src/heap.c:107-108 | Writing both tags of the blocks that replace a stretch of the row leaves memory tiled by the new row. |
| `HeapTags.RetagAt` | src/heap.c:107-108 | Retagging a stretch leaves the payloads of all other blocks as they were. |
| `HeapSteps.LiveDisjoint` | src/heap.c:206-226 | Two live payloads do not overlap. |
| `HeapSteps.SplitEffect` | src/heap.c:216-226 | Splitting makes one new payload and changes no other. |
| `HeapSteps.GrowEffect` | src/heap.c:233-247 | Mapping a page behind a free last block changes no live payload. |
| `HeapSteps.ReleaseEffect` | src/heap.c:272-291 | Freeing ends one payload and changes no other. |
| `HeapSteps.AbsorbEffect` | src/heap.c:325-329 | Absorbing lengthens one payload, keeps its words and changes no other. |
| `HeapSteps.CarveEffect` | src/heap.c:330-337 | Carving lengthens one payload, keeps its words and changes no other. |
| `HeapSteps.CopyEffect` | src/heap.c:343 | Copying a payload into a larger one changes only the latter, which then begins with the words of the former. |
| `HeapSteps.AnsweredFrom` | src/heap.c:213-226 | The pointer given out is that of the lowest block with room for the bytes and two tags, and no page is mapped. |
| `HeapSteps.AnsweredLast` | src/heap.c:228-251 | Without such a block it is that of the last block, after one or two rounds of the least pages that hold the bytes. |
| `Memory.Memmove` | src/mem.c:36-57 | The target range gets the old contents of the source range, also when they overlap; nothing else changes. |
| `Heaps.Heap.Init` | src/heap.c:167-198 | Succeeds exactly with a usable range and a page; the heap is then one free block and valid. |
| `Heaps.Heap.ReadTags` | src/heap.c:24-98 | What header and footer words say agrees with the block row: sizes, used bit, neighbours. |
| `Heaps.Heap.Take` | src/heap.c:216-226 | Splits the block found: a new payload of the requested size, all other payloads unchanged. |
| `Heaps.Heap.MapPage` | src/heap.c:233-247 | One page more behind the last block, all payloads but that block's unchanged. |
| `Heaps.Heap.Grow` | src/heap.c:228-247 | Maps pages one by one; when mapping fails midway memory is still tiled. |
| `Heaps.Heap.FindRoom` | src/heap.c:211-257 | The search ends, at the first fit, growing only by the pages needed; it fails exactly when they cannot be had. |
| `Heaps.Heap.AllocWords` | src/heap.c:211-258 | Search and split on whole words: the row, counters and payloads afterwards, with and without room. |
| `Heaps.Heap.AllocStep` | src/heap.c:211-258 | The same as a step on the row of blocks, keeping the invariant. |
| `Heaps.Heap.Alloc` | src/heap.c:206-258 | In bytes: the lowest free block with room for the request and two tags, without mapping a page; with no such block exactly the pages that one or two growth rounds map; the new payload is the request rounded up to 8, was not live before, no other payload changed, counters exact, invariant kept; null exactly when pages run out. |
| `Heaps.Heap.ValidateLive` | src/heap.c:139-165 | Live pointers are aligned, and validation accepts one exactly when its footer is not past the end. |
| `Heaps.FirstAlloc` | src/heap.c:228-247 | In a fresh heap of any range the first allocation is live, and validation accepts it exactly when it ends in time. |
| `Heaps.PastEndExample` | src/heap.c:139-165 | A heap of one page and a request of 4096 bytes: a live pointer that is refused. |
| `Heaps.Heap.FreePrev` | src/heap.c:281-289 | Finds the previous block through its footer and says whether it is free. |
| `Heaps.Heap.Coalesce` | src/heap.c:266-289 | Position and size of the merged block. |
| `Heaps.Heap.Drop` | src/heap.c:266-291 | The row after freeing, the counters, and exactly one payload gone. |
| `Heaps.Heap.Free` | src/heap.c:260-293 | A live pointer that validates is freed, no other payload changes, counters exact and no two free blocks adjoin; any other pointer changes nothing. |
| `Heaps.Heap.Absorb` | src/heap.c:325-329 | Merges the whole successor, the payload keeping its words. |
| `Heaps.Heap.Carve` | src/heap.c:330-337 | Merges part of the successor, the payload keeping its words. |
| `Heaps.Heap.Copy` | src/heap.c:343 | Copies the whole old payload. |
| `Heaps.Heap.Relocate` | src/heap.c:343-344 | The new payload begins with the old words, the old one is gone, others are unchanged. |
| `Heaps.Heap.Move` | src/heap.c:342-345 | The move route: a new block with the old words, or a fault when there is no block to copy to. |
| `Heaps.Heap.GrowInPlace` | src/heap.c:315-340 | Grows in place exactly when the successor is free and both blocks have room; valid afterwards unless the last block was absorbed. |
| `Heaps.Heap.Resize` | src/heap.c:311-345 | All routes of a resize of a live payload; the pointer stays exactly when the block, or it and its free successor, are large enough. |
| `Heaps.Heap.Realloc` | src/heap.c:295-346 | All routes: the pointer stays exactly when the block, or it and its free successor, are large enough; old words kept, size reached, other payloads unchanged, a moved payload rounded up to 8; exactly when it faults, when the invariant survives, and when a plain allocation gives null. |
| `PageTree.SetPage` | src/vmem.c:12-20 | Writing an entry at the end of a walk changes the translation of exactly the addresses of that page and keeps the tree. |
| `PageTree.PutOneEntry` | src/vmem.c:12-20 | Of all present entries met on all ways through the tables, flags included, exactly the one written differs. |
| `PageTree.MappedEverywhere` | src/vmem_mgmt.c:44-55 | A page that has been mapped carries its flags at every level of its way. |
| `PageTree.ThirdTaken` | src/vmem_mgmt.c:182-187 | A mapped page or a page table in the way of a large page occupies its entry in the directory. |
| `PageTree.WalkOther` | src/vmem_mgmt.c:155-208 | A walk that does not pass the changed entry gives the same result. |
| `PageTree.Link` | src/vmem_mgmt.c:44-55 | Hanging an empty table into a free entry changes no translation and keeps the tree. |
| `PageTree.Widen` | src/vmem_mgmt.c:52-55 | Adding flags to a table's entry changes no translation of the kernel's walk. |
| `PageTree.OtherSpace` | src/vmem_mgmt.c:155-218 | A space none of whose tables changed keeps all its translations. |
| `PageTree.SamePage` | src/vmem_mgmt.c:163-165 | Two addresses have the same indices exactly when they lie in the same page, for 4K and for 2M pages. |
| `PageTree.PageDigits` | src/vmem_mgmt.c:163-165 | The indices are the digits of the page number, the root's the highest. |
| `PageTree.CleanAgrees` | src/vmem_mgmt.c:155-208 | Without large-page bits in the upper tables the processor's walk (section 4.5 of the Intel SDM, Volume 3A) agrees with the kernel's. |
| `PageTree.AgreesIff` | src/vmem_mgmt.c:52-55 | For a mapped page the two walks agree exactly when neither upper entry carries the large-page bit. |
| `PageTree.UnmapRestores` | src/vmem.c:67-100 | Setting and clearing one unmapped page leaves every translation as it was. |
| `PageTables.Vmem.MapSlot` | src/vmem_mgmt.c:107-124 | Takes the first free slot; with a free slot the abort is not reached. |
| `PageTables.Vmem.UnmapSlot` | src/vmem_mgmt.c:126-135 | Frees exactly that slot. |
| `PageTables.Vmem.AllocTable` | src/vmem_mgmt.c:137-149 | A zeroed frame that no table uses; window and translations unchanged. |
| `PageTables.Vmem.CheckEntry` | src/vmem_mgmt.c:44-55 | The entry leads to a table, created writable if asked for, and gets the given flags; no other entry on any way and no translation changes. |
| `PageTables.Vmem.Descend` | src/vmem_mgmt.c:172-179 | One level of the walk, one slot more. |
| `PageTables.Vmem.SplitRest` | src/vmem_mgmt.c:181-218 | The last level and the release of the upper slots: what each result means, only the directory changed. |
| `PageTables.Vmem.Split` | src/vmem_mgmt.c:155-218 | The walk: what each result means, no translation changed, exactly the upper entries on the way opened with the flags, and the window as before up to the returned slots on every exit. |
| `PageTables.Vmem.Map` | src/vmem.c:67-96 | Succeeds exactly when nothing is mapped there and the entry is free. The page then ends at the entry with that frame and those flags, the upper entries on its way have the flags added, every other entry of the space, flags included, is what it was; failure changes no translation; the window is restored, four free slots are enough. |
| `PageTables.Vmem.Unmap` | src/vmem.c:98-100 | Returns the frame of the page, small or large, or 0; of all entries on all ways, flags included, exactly that page's is cleared; restores the window. |
| `PageTables.Vmem.Resolve` | src/vmem.c:102-104 | Returns the frame of the page, small or large, or 0, and changes nothing. |
| `PageTables.Vmem.FindUnmap` | src/vmem.c:22-65 | The shared body of unmap and resolve, on table indices. |
| `PageTables.Vmem.MapAndUnmap` | src/vmem.c:67-100 | Unmapping straight after mapping returns the frame and restores every translation. |
| `ClobberTree.ReleasesExactly` | src/vmem_mgmt.c:335-382 | The free calls below a table are one per reachable entry, and one more for a large page. |
| `ClobberTree.AllExactly` | src/vmem_mgmt.c:384-395 | The same for the whole space. |
| `ClobberTree.FreedOnceIff` | src/vmem_mgmt.c:335-395 | With small pages only, no frame is freed twice exactly when no frame stands in two entries. |
| `ClobberTree.OnceEachIff` | src/vmem_mgmt.c:335-395 | For every space: no frame is given back by two calls exactly when no large page is in reach and no frame stands in two entries. |
| `ClobberTree.LargeFreedTwice` | src/vmem_mgmt.c:366-375 | A large page is freed twice. |
| `ClobberTree.EntryIsPage` | src/vmem_mgmt.c:355-395 | The entries visited at the lowest level are those of mapped small pages outside the shared tables. |
| `ClobberTree.GivenBackIff` | src/vmem_mgmt.c:335-395 | A frame is given back as a page exactly when some way through the tables meets it in a present entry, not through the kernel's root entry nor through the first two entries of a directory that begins with the low page table. |
| `ClobberTree.LargeGivenIff` | src/vmem_mgmt.c:366-370 | A frame is given back as 512 pages exactly when it is that of a large page on such a way. |
| `ClobberTree.PageGiven` | src/vmem_mgmt.c:335-395 | Every mapped page outside what is shared is given back, small or large. |
| `ClobberTree.TableGiven` | src/vmem_mgmt.c:335-395 | Every table below the root outside what is shared is given back. |
| `ClobberTree.ChildUnprotected` | src/vmem_mgmt.c:360-392 | The recursion never enters the kernel's shared tables or the low identity table. |
| `PageTables.Vmem.ClobberTable` | src/vmem_mgmt.c:355-382 | Frees what hangs below a table and touches nothing else. |
| `PageTables.Vmem.ClobberAll` | src/vmem_mgmt.c:384-395 | The root table worked through in a slot that is released again. |
| `PageTables.Vmem.ClobberSpace` | src/vmem_mgmt.c:384-395 | The calls made; every mapped page outside what is shared is given back; frames that are no tables of the space and tables at or below a shared one unchanged; every root entry but the kernel's not present; window restored. |
| `Bitmaps.CountFilled` | src/bmap.c:92-103 | Filling moves the number of set bits by the length of the range exactly when every bit of it changes. |
| `Bitmaps.Bitmap.constructor` | src/bmap.c:33-46 | All bits but the last are cleared; the count is right exactly when the last one was clear. |
| `Bitmaps.Bitmap.Set` | src/bmap.c:67-82 | One bit changes; the count stays right exactly when the bit had the other value. |
| `Bitmaps.Bitmap.Fill` | src/bmap.c:92-103 | A half-open range, refused when it reaches the last bit; when the count stays right. |
| `Bitmaps.Bitmap.Scan` | src/bmap.c:137-155 | The first run from a position, or a position from which the run does not fit by at least two bits. |
| `Bitmaps.Bitmap.Search` | src/bmap.c:105-177 | From the hint, then from the start; not found means there is no run at all. |
| `PhysZones.ClipKeeps` | src/pmem.c:149-179 | Clipping leaves out only managed pages, ends, and keeps a range that starts and ends outside every region. |
| `PhysZones.AddedPages` | src/pmem.c:146-202 | The managed pages afterwards are the old ones and the requested ones; none of the new ones is taken. |
| `PhysZones.AddedDisjointIff` | src/pmem.c:146-202 | Regions stay disjoint exactly when no region ends in the request and starts behind an unmanaged page of it. |
| `PhysZones.SwallowedExample` | src/pmem.c:165-176 | A region in the middle of a request is swallowed. |
| `PhysZones.ReachedAllIff` | src/pmem.c:277-304 | A pass visits every managed page of the range exactly when no region ends where an earlier-listed one starts inside it. |
| `PhysZones.MissedExample` | src/pmem.c:280-301 | Two neighbouring regions in falling order: a page is missed. |
| `PhysZones.ReachedShape` | src/pmem.c:273-310 | Both passes visit the same pages. |
| `PhysZones.AllFreeIff` | src/pmem.c:284-289 | The first pass succeeds exactly when no visited page is taken. |
| `PhysZones.SetAllHeld` | src/pmem.c:290-292 | The second pass takes exactly the visited pages. |
| `PhysZones.LiveGets` | src/pmem.c:229-234 | Handing out free pages keeps the live blocks disjoint. |
| `PhysZones.LiveGives` | src/pmem.c:317-326 | Giving a live block back keeps the others. |
| `PhysMem.Pages` | src/pmem.c:16 | The pages for a length hold it, and one less would not. |
| `PhysMem.PageBytes` | src/pmem.c:16-19 | A page is among those at an address exactly when it starts within the bytes asked for. |
| `PhysMem.FullBytes` | src/pmem.c:215-259 | No room for a number of pages, in bytes and bits alone. |
| `PhysMem.ReservedBytes` | src/pmem.c:273-310 | A reservation visits only managed pages that start within its bytes, and all of them unless a region ends where an earlier-listed one starts. |
| `PhysMem.FilteredIsFull` | src/pmem.c:219-224 | The fill-degree filter passes over only regions with no more free pages than requested. |
| `PhysMem.AllocIn` | src/pmem.c:229-235 | Success covers only clear bits; a run off the end is always refused; what a failed search means for the region. |
| `PhysMem.SearchRegion` | src/pmem.c:218-240 | One region of the search, with the filter. |
| `PhysMem.AllocHelper` | src/pmem.c:215-244 | A pass over the regions: pages handed out were free, or nothing changed. |
| `PhysMem.AllocPages` | src/pmem.c:246-259 | Both passes: a request of any length is refused exactly when no region has a free run for it before its last page. |
| `PhysMem.FullIff` | src/pmem.c:215-259 | That condition in terms of free runs. |
| `PhysMem.FullOnePage` | src/pmem.c:215-259 | For one page: every page but the last of its region is taken. |
| `PhysMem.Release` | src/pmem.c:317-332 | Clears the block in the first region that holds it; the count stays right when all its pages were taken. |
| `PhysMem.CheckPass` | src/pmem.c:277-304 | Says whether all visited pages are free. |
| `PhysMem.SetPass` | src/pmem.c:277-304 | Marks the visited pages, the counts staying right. |
| `PhysMem.NeverTwice` | src/pmem.c:146-332 | In every state of every run of allocations, frees of live blocks, reservations and additions no page is in two live blocks, and a block handed out shares no page with a live one. |
| `PhysMem.ClipRequest` | src/pmem.c:149-179 | Computes the clipped range, the length falling with every restart. |
| `PhysMem.Allocator.constructor` | src/pmem.c:92-101 | The boot region, all pages free. |
| `PhysMem.Allocator.Alloc` | src/pmem.c:246-259 | In bytes: exactly the pages that start within the bytes at the returned address are taken, none was before, and no page is in two live blocks; counts right; memory runs out exactly when no region has free pages for the bytes that end before its last page. |
| `PhysMem.Allocator.Free` | src/pmem.c:317-332 | A live block's pages, in bytes, become free and no others; counts right. |
| `PhysMem.Allocator.Reserve` | src/pmem.c:261-315 | All or nothing: refused exactly when a visited page is taken, and then nothing changes; otherwise only managed pages that start within the bytes are taken, and all of them unless a region abuts. |
| `PhysMem.Allocator.Add` | src/pmem.c:146-202 | Managed pages grow by the request; the invariant survives exactly when no region is swallowed. |
| `PhysMem.Allocator.Info` | src/pmem.c:334-346 | The reported numbers are the bits that are set and clear. |
| `LinkedLists.List.Add` | src/list.c:32-63 | The items are the old ones and the new one at the end; head, tail and size stay right. |
| `LinkedLists.List.Remove` | src/list.c:65-96 | The first occurrence is gone, or nothing changes; head, tail and size stay right. |
| `LinkedLists.List.Unlink` | src/list.c:75-89 | Taking one node out of the chain, with the tail moved when it was the last. |
| `LinkedLists.List.Clear` | src/list.c:112-116 | Nothing is left. |
| `SchedModel.ChooseBest` | src/sched.c:66-83 | The choice is the first runnable thread of the highest priority that has one. |
| `SchedModel.ChooseNone` | src/sched.c:66-83 | There is no choice only when no queued thread can run. |
| `SchedModel.SwitchPlaces` | src/sched.c:115-127 | A switch keeps every thread's number of places. |
| `SchedModel.OnePlace` | src/sched.c:55-127 | Under the invariant a registered thread is current on exactly one CPU or once in the queue of its own priority, never both. |
| `SchedRuns.StepKeeps` | src/sched.c:85-157 | No step loses or duplicates a thread; adding and removing change one thread's places. |
| `SchedRuns.RunInv` | src/sched.c:85-157 | The invariant holds in every state of every run with any number of CPUs. |
| `SchedRuns.RunPlaces` | src/sched.c:85-157 | A thread that nobody adds or removes keeps its registration in every run. |
| `SchedRuns.RemovedIff` | src/sched.c:153-157 | Removing takes a thread out exactly when it is not current. |
| `SchedRuns.Crowded` | src/sched.c:129-134 | As many threads on CPUs as there are CPUs leave none to another thread. |
| `SchedRuns.StepGoesOn` | src/sched.c:113-134 | With as many always runnable threads as CPUs a step never finds "no thread left". |
| `SchedRuns.RunGoesOn` | src/sched.c:85-138 | The same at every point of every run that spares those threads, whatever becomes of the others. |
| `SchedRuns.IdleSuffices` | src/idle.c:17-23 | One CPU: one idle thread is enough. |
| `SchedIdle.BusyReached` | src/sched.c:85-151 | From a scheduler without threads a run leads to one with a thread on each of the first CPUs. |
| `SchedIdle.IdleNeeded` | src/sched.c:129-134 | For every smaller number of always runnable threads than CPUs a reached state has a step that finds no thread left. |
| `SchedIdle.EnoughIff` | src/sched.c:113-134 | That number of threads is enough exactly when it is at least the number of CPUs. |
| `SchedIdle.RemovedStays` | src/sched.c:153-157 | A current thread, on any of the CPUs, that removal leaves in place. |
| `SchedWaiting.ScheduleRank` | src/sched.c:85-138 | A switch moves a waiting kernel thread forward by one; nothing moves it back. |
| `SchedWaiting.StepRank` | src/sched.c:85-157 | The same for every kind of step, including exits, additions and removals of others. |
| `SchedWaiting.WaitingBound` | src/sched.c:66-127 | While a thread waits, the switches number at most the runnable threads that were before it. |
| `SchedWaiting.ChosenInTime` | src/sched.c:66-127 | A kernel thread that stays runnable gets a CPU in every run with more switches than runnable threads before it. |
| `SchedWaiting.RunHolds` | src/sched.c:92-98 | In every run a thread keeps its CPU and its time slice until the slice ends, unless it yields or stops. |
| `SchedSlices.DueSwitches` | src/sched.c:94-127 | When the slice of a CPU's thread is over, or the thread has none, yielded or stopped, and a queued thread is runnable: the first runnable thread of the highest priority becomes current with 5000 microseconds, the old one is last in the queue of its priority, and nothing else changes. |
| `SchedSlices.NotDueStays` | src/sched.c:94-98 | A runnable thread with time left keeps its CPU and nothing changes. |
| `SchedSlices.DueAlone` | src/sched.c:129-134 | With nothing else to run: the old thread goes on if it can, otherwise no thread is left. |
| `SchedSlices.YieldGivesWay` | src/sched.c:140-145 | A thread that yields gives way to any runnable queued thread and is then runnable and last in its queue. |
| `SchedSlices.StopEnds` | src/thread.c:116-138 | A thread that has stopped keeps its state and does not have the CPU. |
| `SchedSlices.ChosenWhenDue` | src/sched.c:85-138 | A kernel thread that stays runnable gets a CPU in every run with more calls on CPUs whose thread is due than runnable threads before it. |
| `SchedSlices.SwitchBetween` | src/sched.c:92-127 | While a thread waits, between two ticks of a CPU that are 5000 microseconds apart there is a switch. |
| `SchedSlices.ChosenWithinSlices` | src/sched.c:85-138 | In time: such a thread gets a CPU within as many slices of one ticking CPU as there were runnable threads before it, and one. |
| `Schedulers.FirstIn` | src/sched.c:68-79 | The walk along a linked queue finds its first runnable thread. |
| `Schedulers.ChooseFrom` | src/sched.c:66-83 | The walk over the queues makes the choice of the state machine. |
| `Schedulers.AddTo` | src/sched.c:55-60 | A thread at the end of its queue, which is created when needed; other queues unchanged. |
| `Schedulers.RemoveFrom` | src/sched.c:62-64 | A thread out of its queue; other queues unchanged. |
| `Schedulers.Scheduler.SwitchTo` | src/sched.c:115-127 | The new current thread, its time slice, and both queues. |
| `Schedulers.Scheduler.Schedule` | src/sched.c:85-138 | Takes the state machine's step, with both failures. |
| `Schedulers.Scheduler.Yield` | src/sched.c:140-145 | Takes the yield step. |
| `Schedulers.Scheduler.Add` | src/sched.c:147-151 | Takes the registration step. |
| `Schedulers.Scheduler.Remove` | src/sched.c:153-157 | Takes the removal step. |
| `Schedulers.Scheduler.Exit` | src/thread.c:133-138 | Takes the step in which a thread exits. |
| `Schedulers.Scheduler.Abort` | src/thread.c:116-131 | Takes the step in which a thread aborts; a kernel thread halts the system. |
| `Stacks.GrownBelow` | src/stka.c:142-144 | A fault below the mapped part moves its end to the page of the fault, 64-bit wrap-around included. |
| `Stacks.GrownAbove` | src/stka.c:142-144 | A fault inside the mapped part moves its end up, exactly when it is a page or more above it. |
| `Stacks.Allocator.Grow` | src/stka.c:55-88 | Succeeds exactly for whole pages with room that can all be mapped; otherwise the end stays. |
| `Stacks.Allocator.NewStack` | src/stka.c:101-107 | The new stack, its initial pages mapped when that works and no page outside it. |
| `Stacks.Allocator.GrowTo` | src/stka.c:142-144 | The mapped part ends at the page of the fault; only pages of the stack are added. |
| `Stacks.Allocator.Alloc` | src/stka.c:90-120 | Reserved ranges of all stacks stay disjoint with a page between any two; refusal exactly when the initial pages do not fit. |
| `Stacks.Allocator.PageFault` | src/stka.c:138-145 | Between guard and mapped part never refused for want of room; the mapped part then ends at the page that holds the fault and is mapped whole, and only pages between guard and its old end are added. |
| `Stacks.Allocator.Free` | src/stka.c:122-136 | Unmaps that stack's pages and leaves the others mapped and apart. |
| `CStrings.StrLen` | src/string.c:51-57 | The length of the text before the first NUL. |
| `CStrings.StrNCmp` | src/string.c:6-21 | The order of the first `n` characters, as signed bytes. |
| `CStrings.StrNCpy` | src/string.c:38-49 | Exactly `n` characters are written, filled up with NUL. |
| `CStrings.StrStr` | src/string.c:59-72 | The first occurrence of the pattern; none for an empty one. |
| `Paths.JoinSplit` | src/path.c:8-78 | Joining the parts of a path gives the path. |
| `Paths.SplitJoin` | src/path.c:8-78 | Splitting joined separator-free parts gives the parts. |
| `Paths.CountSlashes` | src/path.c:18-20 | The first loop counts the separators, which is the number of parts. |
| `Paths.Parts` | src/path.c:25-43 | The second loop fills a table of exactly that many parts. |
| `Paths.Create` | src/path.c:8-46 | The parts of an absolute path; none for a null pointer or another path. |
| `Paths.ToString` | src/path.c:48-78 | The joined parts. |
| `Paths.SplitAgain` | src/path.c:8-78 | Splitting the string of a path gives its parts again. |
| `Paths.JoinAgain` | src/path.c:8-78 | The string of a split path is the path. |

## Left out

- Heaps.Heap.Alloc: a request of 0 bytes is modelled only when a block fits, because the code otherwise grows by no pages for ever (src/heap.c:231); sizes near 2^64, where rounding wraps around, are not modelled.
- Heaps.Heap.Realloc: in-place growth to a size that is not a multiple of 8 leaves the model of whole words; `HeapCarve` follows it at byte addresses and says exactly what breaks.
- Heaps.Heap.GrowInPlace: the same.
- HeapTiling.AfterResizeSound: the same, for the row of blocks.
- HeapTiling.RunSound: a run leaves out the resizes that break the invariant, which `AfterResizeSound` and `HeapCarve.CarveAlignedIff` name exactly, and requests of 0 bytes.
- Heaps.Heap.Init: a start address that is not a multiple of 8, with which validation refuses every pointer; no caller has one.
- Heaps.Heap.Free: an unaligned or stale pointer whose tags happen to pass validation is not modelled.
- Heaps.Heap.Grow: the global heap's growth re-enters the heap to record the mapping (src/heap.c:244-245); the heap modelled is one that is not global.
- Memory.Memmove: copies words, not bytes; payloads are whole words.
- PageTables.Vmem.Map: the uninitialised table pointers are taken as null, and the slot window is kept apart from the tables, so that addresses in the top 2 MB, where it lives, are not modelled.
- PageTables.Vmem.ClobberSpace: TLB invalidation is a no-op.
- Bitmaps.Bitmap.Set: bits are booleans; the 32-bit shift inside a 64-bit word and the access at `bit == bits` are not modelled.
- Bitmaps.Bitmap.Search: backward search and alignments of more than one page, which no caller uses.
- PhysMem.Allocator.Alloc: "out of physical memory" is an outcome; alignment is at most one page; regions start and end at page borders and have at least one page.
- PhysMem.Allocator.Add: a request has at least one page; storage of a new bitmap is zero; partial failure of the two bookkeeping allocations is one outcome.
- LinkedLists.List.Add: insertion behind another node than the tail (`list_insert`), which only the timer uses; without a node it drops a non-empty list.
- Schedulers.Scheduler.Schedule: saving and loading CPU contexts, address-space switches and interrupts; threads are known by address and their fields kept in a map.
- Stacks.Allocator.constructor: the region starts at least 257 pages above address 0 and ends at a page border, as a valid description does.
- Stacks.Allocator.Alloc: a lock that stays taken when no stack can be had; page contents.
- Paths.ToString: the buffer has the needed size; the code adds the separators' room after allocating.
- `vmem_mgmt_make_glob_spc`, dumping of address spaces, and recording of global mappings.
- Timers, waiting and waking, process and thread creation, symbol tracing, logging.
- The real-mode emulator, drivers, boot code, VFS stubs and build tools.
