# A model of a small 32-bit kernel's memory manager, its ListFS disk images, its scheduler and its keyboard ring

The project models three parts of the repository and proves what they are for.

1. **Memory.** The physical allocator keeps a circular doubly linked list of free runs whose nodes lie
   in the free pages themselves and are reached through a one-page window. Two-level page tables call
   it while they are walked, and every address space has a table of virtual blocks in descending order.
   `PhysMemory` and `VirtualMemory` are classes over one memory, a sequence of frames of words, and
   carry the source's globals as fields. The main results: every run of allocations and releases keeps
   the ring; any interleaving of threads around the mutex hands out no page twice, and a request that can be met
   is met; a mapped range reads back entry by entry; every run of requests serves each as it should, changes no
   translation of a block, and leaves every managed frame in exactly one class (free list, memory block, page
   table or directory, table storage), and the pages those structures hold add up to the pool.
2. **ListFS.** The builder takes blocks from a bitmap, writes chained index blocks and doubly linked
   header chains, and the boot loader reads them. The main results: the builder completes exactly when
   the disk has room for what it must store; the image reads back as the tree it was built from; every
   block has one owner; the boot loader and the kernel find the same header for a name.
3. **Threads and keys.** `list_append` can be preempted between any two of its stores, and the keyboard
   interrupt can come between any two steps of `in_scancode`. The main results: the links always form
   one cycle, no thread is dispatched twice while a runnable one waits, every thread gets its own
   registers back, and the keyboard ring is a queue up to 15 unread codes.

## Modules

| module | about |
|---|---|
| `Frames`, `Bits`, `Options`, `Cycles` | memory as frames of words; masks and shifts as div and mod; small common definitions |
| `BlockList`, `FreeRing`, `PhysicalMemory` | the free list as a value, the ring in the pages, the allocator |
| `AllocatorLock`, `AllocatorProgress` | any number of threads running the allocator step by step: safety, and that requests are met |
| `PageTables`, `ProcessTables` | `map_pages`, `get_page_info`, `init_page_tables` |
| `BlockTable`, `Ownership`, `OwnershipMoves` | block tables, who owns each frame, and the moves that keep it so |
| `VirtualSteps`, `Conservation`, `VirtualMemory`, `VirtualAsWritten` | the virtual allocator, its conservation law, and its text where that differs |
| `ListFsFormat`, `ListFsLayout`, `ListFsBuilder`, `ListFsImage` | bytes, layout, builder, whole image |
| `ListFsReader`, `ListFsLookup` | the reader, name lookup, the round trip |
| `ThreadRing`, `Scheduler` | the intrusive ring, `switch_task`, fairness and contexts |
| `Keyboard` | the scan code ring |

## Where the code departs from its intent

In these places the text of the source is modelled beside its repair, and the exact condition under which it
is right is proved for all inputs. Where the condition does not name a failing input by itself, one is given.

- `src/kernel/memory_manager.c:195-206` links the old node behind the new one when the ring has one run,
  line 209 reads `next` where the previous node is meant, and lines 208-217 link past the last run in
  the wrong place. `PhysicalMemory.TextIff` says exactly when the text is right,
  `PhysMemory.FreePhysPagesAsWritten` is the text, `PhysMemory.FreePhysPages` the repair, and
  `PhysicalMemory.TextKeepsSmallRing` says what the text still does on a ring of at most two runs.
- `src/kernel/memory_manager.c:85` masks with 12 instead of 0xFFF (`PageTables.MaskIff`, `MaskFailure`).
- `src/kernel/memory_manager.c:246` passes pages where bytes are meant (`BlockTable.FindGapAsWritten`,
  `FindGapFailure`); `VirtualMemory` uses the test in pages.
- `src/kernel/memory_manager.c:267-271` returns an address that nothing backs when no run of frames is
  left. This is kept: `VirtualMemory.AllocVirtPages` says exactly when it happens.
- `src/kernel/memory_manager.c:278-281` takes such an address for a new table
  (`VirtualAsWritten.GrowUserTableAsWritten`); the model does not.
- `src/kernel/memory_manager.c:294-302` records the larger capacity even when the page was not mapped
  (`VirtualAsWritten.GrowKernelTableAsWritten`, `GrowthFailure`); the model grows the table only if it was,
  and only into a page that no block uses.
- `src/kernel/memory_manager.c:304` shifts towards the back with a forward copy
  (`BlockTable.InsertEntryAsWritten`; every table with two entries behind the new one fails).
- `src/kernel/memory_manager.c:310-314` frees `paddr` even when it is the caller's
  (`VirtualAsWritten.FailPathAsWritten`, `AllocVirtPagesAsWritten`, `DevicePageFailure`); the model frees only
  frames that the call has taken. Line 312 unmaps with address and flags 0, but line 90 advances the address, so
  page k of the range is left with the entry 4096 * k, not present; the contracts say so (`VirtualSteps.UnmappedTo`).
- `src/kernel/memory_manager.c:335-336` assigns where a comparison is meant, and gives back the frames
  from the given address on instead of those from the block's base (`VirtualAsWritten.HandedBackIff`,
  `FreeVirtPagesAsWritten`, `DeviceReleaseFailure`). The model compares and uses the base.
- `make_listfs/make_listfs.c:188` starts the map inside the loader unless the loader is a positive number
  of whole blocks (`ListFsImage.MapBaseIff`, `MapBaseFailure`), and lines 189-192 size it too small for some
  block counts (`ListFsImage.MapRoomIff`). The builder is proved for inputs that meet both conditions.
- `src/lib/stdlib.c:122-126` never sets `list` for the first item, so a second append of it is not kept
  out: `ThreadRing.RingOfItems.ListAppend` gives all outcomes, `ThreadRing.SecondAppendOfFirst` the damage.

In these places the model only departs from the text, without a theorem about it.

- `src/kernel/memory_manager.c:243-251` has no lower bound, and the model answers NULL below the start of
  the space. `BlockTable.GapIff` says when the search as repaired in its units ends within it.
- `src/kernel/memory_manager.c:334-339`: the table entry is dropped before the frames go back, both under the
  lock, and a reserved block, in which the kernel keeps its table, is not dropped at all.
- `src/kernel/multitasking.c:72-79` and `126-144` do not clear the directory and tables of a new process;
  `VirtualMemory.AddSpace` clears its directory, and `InitPageTables` speaks only of entries written.
- `src/kernel/multitasking.c:84` does not clear the `list` field that `list_append` tests; the model takes
  a thread's fresh page to have it clear.
- `make_listfs/make_listfs.c:93` rejects a small block size only if it is a multiple of 8; the model asks for a
  multiple of 8 that holds a header.
- `make_listfs/make_listfs.c:286` writes to block -1 for an empty directory; directories are non-empty here.

## How the source's values are represented

- Addresses of pages are page numbers, sizes of blocks are pages, and the nodes of the free list hold page
  numbers. Words of memory are unbounded integers.
- `temp_map_page` sets the field `window`; the store of its own page-table entry is not in memory.
- The inner loop of `map_pages` runs exactly twice and is written out as its two rounds.
- An address space is described by the range of directory entries that its pages lie in.
- The methods on memory run with the mutex held. `AllocatorLock` treats the mutex and the interleavings,
  with the releases as repaired.
- A host file is a byte sequence with a position and an end-of-file flag, a directory a sequence of
  entries, the three times of a header opaque numbers, and a block number below 2^32 - 1.
- File data is stored and loaded for every block size that is a multiple of 8 and at least 16; headers need blocks of
  at least their 328 bytes.
- The reader is stated for every block size that the builder supports; the boot loader has 512 built in.
- Threads are identified by their addresses. A run is a sequence of states with the event between each two.

## Model

| member | source | states |
|---|---|---|
| BlockList.Canonical | src/kernel/memory_manager.c:127-229 | ascending lists of separated runs that cover the same pages are equal, so the list is the run decomposition of the free pages |
| BlockList.FirstFit | src/kernel/memory_manager.c:134-159 | the index found holds enough pages, every earlier run holds too few, and it is past the end if none fits |
| BlockList.NoFitMeansNoRun | src/kernel/memory_manager.c:127-166 | when no run of the list fits, no contiguous range of that many free pages exists anywhere |
| BlockList.CarveCovers | src/kernel/memory_manager.c:137-156 | exactly the pages handed out stop being free |
| BlockList.InsertMeets | src/kernel/memory_manager.c:168-229 | a release keeps runs ascending and separated, frees exactly its own pages and adds their number to the total |
| BlockList.WalkInserts | src/kernel/memory_manager.c:178-220 | the loop that stops at the first run it touches, precedes or ends at gives the same list as the recursive definition |
| BlockList.RunSorted | src/kernel/memory_manager.c:127-229 | every run of allocations and allowed releases leaves a sorted, coalesced list whose sizes add up to the number of its pages |
| BlockList.OrderDoesNotMatter | src/kernel/memory_manager.c:127-229 | two runs that leave the same pages free leave the same list |
| BlockList.ReleasesCommute | src/kernel/memory_manager.c:168-229 | two disjoint releases give the same list in either order |
| BlockList.FreeUndoesAlloc | src/kernel/memory_manager.c:127-229 | releasing what an allocation returned restores the list |
| FreeRing.JoinDropsNode | src/kernel/memory_manager.c:138-143 | joining a node's neighbours leaves a well-linked ring of the other runs |
| FreeRing.GrownNodes | src/kernel/memory_manager.c:181-194 | growing a run upwards, and swallowing the next one when they meet, leaves a well-linked ring |
| FreeRing.LinkAddsNode | src/kernel/memory_manager.c:208-217 | the five stores between predecessor and successor put the run at its place in the ring |
| PhysicalMemory.ReleasedRing | src/kernel/memory_manager.c:168-229 | the repaired stores turn the ring of a list into the ring of the coalesced list |
| PhysicalMemory.TextIff | src/kernel/memory_manager.c:181-217 | the stores as written give the ring of the coalesced list if and only if the branch taken meets the stated test on the number of runs |
| PhysicalMemory.TextFailureExamples | src/kernel/memory_manager.c:195-217 | three concrete releases that break the ring |
| PhysicalMemory.TextKeepsSmallRing | src/kernel/memory_manager.c:208-217 | on at most two runs the text still gives a circular doubly linked ring of all runs entered at the lowest |
| PhysicalMemory.OnlyOneGoodList | src/kernel/memory_manager.c:168-229 | no other sorted list with the right pages could be meant |
| PhysicalMemory.PhysMemory.AllocPhysPages | src/kernel/memory_manager.c:127-166 | NONE exactly when no run fits, else the end of the first run that fits; ring, head and counter follow; only free pages are written |
| PhysicalMemory.PhysMemory.FreePhysPagesAsWritten | src/kernel/memory_manager.c:168-229 | the text: the memory holds the ring of the coalesced list exactly under the condition of TextIff, and then the whole state is in order |
| PhysicalMemory.RunOperationsAsWritten | src/kernel/memory_manager.c:127-229 | over every run of the text whose releases all meet that condition the words of memory stay the ring of the list |
| PhysicalMemory.PhysMemory.FreePhysPages | src/kernel/memory_manager.c:168-229 | the repaired release keeps the ring, coalesces, moves the head and the counter, writes only pages that are free afterwards |
| PhysicalMemory.RunOperations | src/kernel/memory_manager.c:127-229 | over every run the words of memory stay the ring of the list that the operations on values give |
| AllocatorLock.SafeUnderInterleaving | src/kernel/memory_manager.c:127-229 | in every interleaving: one thread inside, no page held twice or held while free, no page lost, the counter never negative and exact whenever the lock is open |
| AllocatorLock.InvariantOverRuns | src/lib/stdlib.c:70-80 | the partition of the pool, exclusion by the swapped flag and the counter's lag are kept by every step |
| AllocatorLock.HandedOutOnce | src/kernel/memory_manager.c:160-165 | pages about to be returned belong to the pool, are not free and are nobody else's |
| AllocatorLock.StaleTestIsHarmless | src/kernel/memory_manager.c:128-159 | a caller that passed the early test before the counter fell finds no run under the lock |
| AllocatorProgress.CanMeetIff | src/kernel/memory_manager.c:134-159 | the walk finds a run exactly when that many consecutive pages are free, wherever they lie |
| AllocatorProgress.AllocationStep | src/kernel/memory_manager.c:134-159 | under the lock, with any other threads under way, an allocation takes that many consecutive free pages and no others if there are any, and answers NONE otherwise; the list is what the operation on values gives |
| AllocatorProgress.ReleaseStep | src/kernel/memory_manager.c:171-225 | under the lock a release makes exactly its pages free |
| AllocatorProgress.AllocationAlone | src/kernel/memory_manager.c:127-166 | a call that nobody comes between, early test included, returns with the lock open; the caller has gained that many pages that were free, list and counter lack them, exactly when so many consecutive pages were free; otherwise nothing has changed |
| AllocatorProgress.ReleaseAlone | src/kernel/memory_manager.c:168-229 | a release that nobody comes between makes exactly its pages free and adds them to the counter |
| AllocatorProgress.AloneIsARun | src/kernel/memory_manager.c:127-229 | such a call is one of the interleavings |
| Bits.MaskIsMod | src/kernel/memory_manager.c:67-67 | a mask of low bits is a remainder |
| Bits.ClearMaskIsFloor | src/kernel/memory_manager.c:116-116 | clearing the low bits rounds down to the page |
| PageTables.IndexBits | src/kernel/memory_manager.c:95-116 | the shifts by 22 and 12 and their masks give table and entry index of the address's page, and the cleared offset its start |
| PageTables.MaskIff | src/kernel/memory_manager.c:85-85 | the mask 12 gives the intended entry exactly when the offset bits it leaves are among the flags |
| PageTables.AlignedEntry | src/kernel/memory_manager.c:85-85 | for an aligned frame the entry is the frame and the flags, and is present exactly when the flags say so |
| PageTables.MaskFailure | src/kernel/memory_manager.c:32-33 | remapping the kernel's code with an old entry that was writable leaves it writable |
| PageTables.TableFor | src/kernel/memory_manager.c:66-83 | the table found or made is zeroed, in use and no other directory entry's, and the entry of a new one is present, writable and the user's; every page translates as before, and it fails exactly without table and without frame |
| PageTables.MapOne | src/kernel/memory_manager.c:64-88 | one page gets its entry, all others keep theirs; a new table's entry is present, writable and the user's |
| PageTables.MapPages | src/kernel/memory_manager.c:62-93 | it succeeds exactly when there are as many free frames as tables missing in the range, and uses that many; pages reached read back their entry, all others as before, and the directory entries of new tables are present, writable and the user's |
| PageTables.MapThenRead | src/kernel/memory_manager.c:62-120 | page k of a mapped range reads back frame k with the flags, every other page, the window's own aside, what it did before; a page mapped with the user's flags may be written by the user by the rights of both levels, unless a table that was there before forbids it |
| PageTables.GetPageInfo | src/kernel/memory_manager.c:107-120 | the two reads through the window are the flat lookup: the word of the table that a present directory entry names, else 0 |
| ProcessTables.FillEntries | src/kernel/multitasking.c:152-165 | consecutive entries name consecutive frames and nothing else is written |
| ProcessTables.InitPageTables | src/kernel/multitasking.c:126-174 | with four frames free: the first megabyte maps to itself, the next three to the image, the TSS page to a fresh frame, the last 8 MB as in the kernel's directory, whose two entries it has; the first table is the user's and that of the TSS is not; nothing in use is written, and of the directory and the TSS's table no other entry beyond the three words of a free node |
| ProcessTables.BuildThenMap | src/kernel/multitasking.c:126-174 | a directory as built, followed by any mappings through its own tables, the shared ones and the kernel's directory: each of them maps what it was asked to, and at every moment the directory translates every address of the last 8 MB as the kernel's does |
| ProcessTables.MapOnce | src/kernel/memory_manager.c:62-93 | one such mapping through the directory it names reads back as asked, every other page there as before, and it is complete exactly when there are frames for the missing tables |
| ProcessTables.AgreementSurvives | src/kernel/multitasking.c:132-144 | directories that share the last two tables, whichever of them is walked, share them afterwards and translate through them alike |
| BlockTable.OverlappedIsCommonPage | src/kernel/memory_manager.c:233-235 | the test is intersection for ranges that are not empty |
| BlockTable.FindGap | src/kernel/memory_manager.c:243-251 | with sizes in one unit the range found is vacant, in its place, and the highest one |
| BlockTable.GapIff | src/kernel/memory_manager.c:243-251 | the result is within the space exactly when the space has a gap of that size |
| BlockTable.FindGapAsWritten | src/kernel/memory_manager.c:243-251 | the text finds a vacant range exactly when every block that is in the way of its candidate starts in the part the test looks at, which one page always meets |
| BlockTable.FindGapFailure | src/kernel/memory_manager.c:243-251 | a table and a request for which it answers a range across a block |
| BlockTable.MixedTest | src/kernel/memory_manager.c:246-246 | pages taken for bytes test only the first part of the range |
| BlockTable.CheckRequest | src/kernel/memory_manager.c:252-265 | an explicit request is accepted exactly when it passes the bounds test and meets no block, and then belongs at the index found |
| BlockTable.BoundsTest | src/kernel/memory_manager.c:253-253 | the comparison against the last byte asks for one page more than the range |
| BlockTable.InsertKeepsOrder | src/kernel/memory_manager.c:304-309 | an entry at its position keeps the table descending, disjoint and in bounds, and removing it restores the table |
| BlockTable.GrowthIsOnePage | src/kernel/memory_manager.c:274-302 | rounding up and adding a page gives exactly one page more and room for further entries |
| VirtualAsWritten.GrowKernelTableAsWritten | src/kernel/memory_manager.c:273-302 | a full table with a vacant page above it: once a page was taken, the recorded entries are backed exactly when there was a frame more for the page's table, should that be missing; what is recorded either way |
| VirtualAsWritten.GrowthFailure | src/kernel/memory_manager.c:273-302 | a state within the invariant, the table full, one frame left and the page table missing, in which they are not |
| BlockTable.CopiedAt | src/lib/stdlib.c:14-20 | forward copying onto itself moves towards the front and repeats a stretch towards the back |
| BlockTable.MemCpy | src/lib/stdlib.c:14-20 | the loop performs exactly those copies |
| BlockTable.InsertEntryAsWritten | src/kernel/memory_manager.c:304-309 | the table is right afterwards if and only if at most one entry lay behind the new one |
| BlockTable.InsertEntry | src/kernel/memory_manager.c:304-309 | copying from the back inserts the entry for every table |
| BlockTable.RemoveEntry | src/kernel/memory_manager.c:338-339 | dropping an entry is right as written |
| VirtualMemory.VirtualMemory.constructor | src/kernel/memory_manager.c:38-50 | the kernel's space has one reserved block, the page of its own table, mapped present and writable, and room for 341 entries; every frame has its owner |
| Ownership.FirstInv | src/kernel/memory_manager.c:38-50 | after initialisation every frame has its owner and the invariant of all three layers holds |
| Ownership.InvKeptMapping | src/kernel/memory_manager.c:62-93 | mapping a vacant range keeps the invariant; frames that left the free list are tables |
| OwnershipMoves.InvKeptEntering | src/kernel/memory_manager.c:304-309 | entering a block whose frames are pending keeps the invariant |
| OwnershipMoves.InvKeptDropping | src/kernel/memory_manager.c:334-339 | dropping a block leaves its frames pending and keeps the invariant |
| OwnershipMoves.InvKeptGrowing | src/kernel/memory_manager.c:288-302 | a page added to the kernel's table keeps the invariant and the capacity at the floor of length by entry size |
| VirtualMemory.VirtualMemory.ChooseAddress | src/kernel/memory_manager.c:243-265 | the highest gap for a NULL request, the requested address exactly when it passes the checks |
| VirtualMemory.VirtualMemory.AllocVirtPages | src/kernel/memory_manager.c:237-322 | the invariant is kept on every path; a recorded block is mapped with frames and flags as asked; it is recorded exactly when the state before the call has frames for pages and missing tables, and then room in the table or what its growth needs; a call that fails after an address was found has unmapped the range as far as tables reach and left every other page of the space as it was; no page of any recorded block and no page of another user space translates differently, and directories only gain open tables; an unbacked address is returned exactly when no run of frames fits |
| VirtualMemory.VirtualMemory.MapAndEnter | src/kernel/memory_manager.c:272-315 | on success one entry more, on failure the table as it was and the range unmapped as far as tables reach; in both cases the frames have an owner, and nothing else translates differently |
| VirtualMemory.VirtualMemory.Undo | src/kernel/memory_manager.c:311-314 | the pages of the range read entries that are not present, up to the first one without a table; pages from there on and all others read as before; frames the call had taken are free |
| VirtualSteps.UnmappedPages | src/kernel/memory_manager.c:312-312 | a range unmapped has only pages that are not present or read as they did before the call |
| VirtualMemory.VirtualMemory.BackStorage | src/kernel/memory_manager.c:289-299 | exactly with frames for the page and its table, the page above the kernel's table is mapped present, writable and not for the user; otherwise no page translates differently |
| VirtualMemory.VirtualMemory.GrowUserTable | src/kernel/memory_manager.c:272-303 | a larger table at a new kernel block of that size, mapped present, writable and not for the user, exactly when the kernel's space and the free frames have a place for it; if tables had blocks of their own, they still have, the old block is gone and its frames are free; every other user space unchanged |
| VirtualMemory.VirtualMemory.GrowKernelTable | src/kernel/memory_manager.c:288-302 | one page more, mapped present and writable, exactly when the page above is in the space and vacant and there are frames for it and its table; the reserved block stays last |
| VirtualMemory.VirtualMemory.FreeVirtPages | src/kernel/memory_manager.c:324-350 | the block that contains the address leaves the table and exactly its frames become free; it fails only where no block or a reserved one contains it; user tables keep their blocks unless one of them was hit |
| VirtualMemory.VirtualMemory.AddSpace | src/kernel/multitasking.c:72-79 | a new space from 0 to 2 GB with a cleared directory and an empty table of 341 entries in a kernel block of one page, mapped present, writable and global, exactly when there are frames for directory and block |
| Conservation.OneClassEach | src/kernel/memory_manager.c:237-350 | each frame is in the class of its owner, by exactly one block, table entry, directory or storage page, and in no other |
| Conservation.BlockFramesArePages | src/kernel/memory_manager.c:304-309 | the frames owned by blocks are as many as the memory blocks of all spaces have pages |
| Conservation.TableFramesAreTables | src/kernel/memory_manager.c:62-93 | the frames owned as tables are as many as there are present directory entries and directories |
| Conservation.StorageFramesArePages | src/kernel/memory_manager.c:293-296 | the frames under the kernel's block table are as many as the reserved block has pages |
| Conservation.PoolIsAccounted | src/kernel/memory_manager.c:237-350 | free pages, pages of memory blocks, page tables and directories and pages of the kernel's table add up to the pool |
| Conservation.FreeClassIsCounted | src/kernel/memory_manager.c:226-226 | the page counter is the size of the free class |
| VirtualMemory.Serve | src/kernel/memory_manager.c:237-350 | an allocation, release or new space does to the world it finds what it should, failing ones included, and user tables stay open; in an open directory a range allocated with the user's flags may be written by the user |
| VirtualMemory.RunRequests | src/kernel/memory_manager.c:237-350 | over every run of allocations, releases and new spaces, failing ones included, each request is served so, the sum of those pages is the same at every moment, and every user table keeps its kernel block as long as nobody releases it |
| VirtualAsWritten.HandedBackIff | src/kernel/memory_manager.c:335-336 | the frames handed back as written are the block's exactly when it is a memory block and the address is its base |
| VirtualAsWritten.FreeVirtPagesAsWritten | src/kernel/memory_manager.c:324-350 | with that text the block leaves the table, and the pool is accounted for exactly in that case |
| VirtualAsWritten.DeviceReleaseFailure | src/kernel/memory_manager.c:335-336 | a boot, a device mapping and its release, after which the device page is free memory |
| VirtualAsWritten.FailPathAsWritten | src/kernel/memory_manager.c:310-314 | the range has been unmapped as far as tables reach, the frames are free afterwards, and some account of all owners fits exactly when the call had taken them itself |
| VirtualAsWritten.AllocVirtPagesAsWritten | src/kernel/memory_manager.c:237-322 | with that text the pool is what it was exactly when the frames were fresh, no address was found, or the block could be entered, as the state before the call decides |
| VirtualAsWritten.DevicePageFailure | src/kernel/memory_manager.c:310-314 | a boot and one call after which a device page is free memory |
| VirtualAsWritten.GrowUserTableAsWritten | src/kernel/memory_manager.c:278-302 | the table taken is in a kernel block exactly when a run of free frames was long enough |
| ListFsFormat.WordReadsBack | src/boot.asm:158-176 | a stored 64-bit word reads back, its low half through two 16-bit loads |
| ListFsFormat.WordBytes | make_listfs/make_listfs.c:37-48 | a stored word is its eight bytes, the least significant first |
| ListFsFormat.NameReadsBack | make_listfs/make_listfs.c:258-259 | a name without zero bytes reads back up to its terminator |
| ListFsFormat.PaddedStartsWith | make_listfs/make_listfs.c:213-220 | padding adds only zeros, up to whole blocks |
| ListFsBuilder.ImageBuilder.AllocDiskBlock | make_listfs/make_listfs.c:169-180 | the lowest block not in use is taken, and it fails exactly when there is none |
| ListFsBuilder.HostFile.Read | make_listfs/make_listfs.c:214-214 | a read gives what is left up to the size, and the flag is raised exactly by a short one |
| ListFsBuilder.ImageBuilder.StoreBlocks | make_listfs/make_listfs.c:211-224 | the blocks of one list hold the next bytes of the file, all newly taken, and unused entries are empty |
| ListFsBuilder.ImageBuilder.StoreFileData | make_listfs/make_listfs.c:204-230 | the chain stored holds exactly the bytes left to read in blocks of its own; blocks in use before keep their contents; it completes exactly when as many blocks are free as the file takes |
| ListFsBuilder.ImageBuilder.ProcessDir | make_listfs/make_listfs.c:232-290 | the entries are stored with their headers chained both ways below the parent, every block of the subtree newly taken and taken once; it completes exactly when the free blocks suffice |
| ListFsFormat.HeaderLayout | make_listfs/make_listfs.c:37-48 | name, links, flags, data, size and the three times lie at the offsets of the packed structure, with zeros around them |
| ListFsLayout.EntryLayout | make_listfs/make_listfs.c:255-285 | so on disk for a stored file or directory: its name cut to 255 bytes, the links it has, flag 1 for a directory, its size and its times |
| ListFsLayout.IndexLayout | make_listfs/make_listfs.c:207-226 | an index block holds the blocks of its data, -1 in the entries left over and the next list in its last eight bytes |
| ListFsImage.MapBaseIff | make_listfs/make_listfs.c:133-188 | the map starts behind header and loader exactly when the loader is a positive number of whole blocks |
| ListFsImage.MapBaseFailure | make_listfs/make_listfs.c:188-188 | a loader of 513 bytes for which it does not |
| ListFsImage.MapRoomIff | make_listfs/make_listfs.c:189-192 | the map has a bit for every block exactly under the stated condition on the block count |
| ListFsImage.MapBlocksExact | make_listfs/make_listfs.c:189-192 | the map has the least number of blocks that hold an eighth of the block count, rounded down, in bytes |
| ListFsImage.FsHeaderReadsBack | make_listfs/make_listfs.c:154-166 | magic, version and every other field of the header block read back at their offsets, and the bytes around them are still the loader's |
| ListFsImage.FirstFileReadsBack | make_listfs/make_listfs.c:154-166 | the first file's block reads back from the header block |
| ListFsImage.ReadLoader | make_listfs/make_listfs.c:133-153 | a loader of whole blocks lies in blocks 0 and 1 on, and the rounds are counted |
| ListFsImage.InitDiskMap | make_listfs/make_listfs.c:193-196 | exactly the blocks of header, loader and map are taken |
| ListFsImage.StoreDiskMap | make_listfs/make_listfs.c:199-202 | block b has its bit on disk in byte b / 8 of the map at bit b % 8, set exactly if b is in use, and no other block is written |
| ListFsImage.MapHasBit | make_listfs/make_listfs.c:171-183 | the sectors of the map taken together have the bit of every block there |
| ListFsImage.BuildImage | make_listfs/make_listfs.c:292-309 | it completes exactly when header, loader, map and tree fit; then header fields, loader, map and tree are on the image, every block has its bit in the map at byte b / 8, bit b % 8, the bits set are exactly those of owned blocks, and no block has two owners |
| ListFsReader.StoredLoads | src/boot.asm:137-176 | loading a stored chain yields the bytes zero-padded to whole blocks, for every byte string and block size |
| ListFsReader.LoadFileData | src/boot.asm:137-176 | the loops over index blocks and entries compute that load |
| ListFsReader.EntryReads | make_listfs/make_listfs.c:258-281 | an entry reads back with its name cut to 255 bytes and its exact bytes or its whole subtree |
| ListFsReader.TreeReadsBack | make_listfs/make_listfs.c:232-290 | the walk over first header, next and data reproduces names, order, nesting and contents, nowhere deeper than the disk has blocks |
| ListFsReader.DirLinks | make_listfs/make_listfs.c:249-284 | prev inverts next and parent names the enclosing header, at every depth |
| ListFsLookup.StrCmp | src/lib/stdlib.c:54-64 | the result is 0 exactly for equal strings, and otherwise the difference of the first characters, taken as signed, that differ |
| ListFsLookup.BootCompare | src/boot.asm:117-126 | the comparison of length plus one bytes accepts exactly equal strings |
| ListFsLookup.BootFind | src/boot.asm:104-133 | on a stored directory: the first header with the name, or none exactly when no entry has it |
| ListFsLookup.KernelFind | src/kernel/kernel.c:205-214 | the same for the kernel's recursion |
| ListFsLookup.FindBothWays | src/boot.asm:104-133 | boot loader and kernel give the same answer, the first header with the name or none exactly when no entry has it |
| ListFsLookup.BuildAndRead | make_listfs/make_listfs.c:292-309 | every tree that fits is built and read back, with all links right |
| ListFsLookup.BuildAndFind | src/boot.asm:104-133 | on every image built, a name looked up from the header block's first file is found by loader and kernel at the first root entry that has it, or by neither when none has |
| ThreadRing.AppendIsInterruptible | src/lib/stdlib.c:113-130 | after every store the next links form one cycle over the old members, or over them and the new item at the tail |
| ThreadRing.AppendAdds | src/lib/stdlib.c:113-130 | after the last store the list is well linked both ways with the item last |
| ThreadRing.RingOfItems.ListAppend | src/lib/stdlib.c:113-130 | a new item joins at the tail, one whose list is set changes nothing, and the first item, appended again, breaks the ring |
| ThreadRing.SecondAppendOfFirst | src/lib/stdlib.c:122-126 | a second append of the first item cuts off every other member |
| Scheduler.SelectionStopsIff | src/kernel/multitasking.c:47-50 | the loop ends exactly when some member of the ring is runnable, within one round and at a member |
| Scheduler.TickIsSafe | src/kernel/multitasking.c:41-61 | so at every moment of every run, in the middle of appends too, and at a member whose state has been set |
| Scheduler.RingGrowsAtTail | src/lib/stdlib.c:113-130 | only the fourth store changes the ring, by adding the new thread last |
| Scheduler.Boots | src/kernel/multitasking.c:14-33 | the state left by initialisation satisfies the invariant |
| Scheduler.InvOverRuns | src/kernel/multitasking.c:41-106 | every step of every run keeps the invariant of ring, append under way and saved states |
| Scheduler.SavedAtPreemption | src/kernel/multitasking.c:45-45 | over every run a thread's saved state is what was in the registers at its last preemption |
| Scheduler.SavedAtCreation | src/kernel/multitasking.c:90-101 | before the first one its entry point is in eip, its stack top in esp, 0x202 in eflags, the selectors of its ring in cs and the data segments, and 0 in every other register |
| Scheduler.DispatchResumes | src/kernel/multitasking.c:45-53 | a dispatched thread finds in its registers what it had at its last preemption, or, the first time, its entry point in eip, its stack top in esp and the rest as created |
| Scheduler.SavedIsContext | src/kernel/multitasking.c:45-53 | no event changes the saved state of any other thread than the one preempted or created |
| Scheduler.DispatchRestoresContext | src/kernel/multitasking.c:45-53 | the registers after a tick are the saved state of the thread dispatched |
| Scheduler.Fairness | src/kernel/multitasking.c:41-61 | between two dispatches of a thread every other member that stays runnable is dispatched, whatever appends and suspensions happen |
| Scheduler.Kernel.SwitchTask | src/kernel/multitasking.c:41-61 | the loop and the two copies perform the tick of the state machine: neither the thread dispatched nor its process is suspended, each one passed over is or its process is, and the registers are saved and restored |
| Scheduler.Kernel.CreateThread | src/kernel/multitasking.c:81-101 | the saved registers are the entry point, the stack's end, flags and selectors literally, the rest zero; owner and suspend flag are set, and no other thread's fields change |
| Keyboard.LooksEmptyIff | src/drivers/tty.c:151-151 | the indices are equal exactly when nothing is unread, or all 16 slots are and a code has been taken before |
| Keyboard.RefinesQueue | src/drivers/tty.c:149-161 | under every interleaving codes come out, and are returned, in order and once each, and the ring is reported empty, with 0, exactly in those two cases |
| Keyboard.KeyHolds | src/drivers/tty.c:218-225 | an interrupt adds its code behind the unread ones, with an index inside the buffer |
| Keyboard.StepKeepsInv | src/drivers/tty.c:149-161 | every step of either side keeps contents, indices and the consumer's progress in step |
| Keyboard.KeyRing.InScancode | src/drivers/tty.c:149-161 | the oldest code is returned and removed, or 0 and nothing changes |
| Keyboard.OverrunForgets | src/drivers/tty.c:218-225 | a code that finds all 16 slots unread leaves only itself to be seen |
| Keyboard.KeyRing.KeyboardInterrupt | src/drivers/tty.c:218-225 | the code joins the unread ones, or replaces all of them when every slot is unread |

## Left out

- VirtualMemory.VirtualMemory.AllocVirtPages: keeps the block table as a sequence; the shifts in place are modelled on arrays in `BlockTable`.
- VirtualAsWritten.GrowKernelTableAsWritten: requires that no block uses the page above the kernel's table, which the text does not test.
- VirtualAsWritten.FreeVirtPagesAsWritten: requires that the frames it would release are in memory and not free, as `free_phys_pages` does of its callers.
- VirtualMemory.VirtualMemory.FreeVirtPages: drops the table entry before the frames, the other way round than the text, and refuses a reserved block, whose entry the text would drop with the kernel's own table in it.
- VirtualMemory.VirtualMemory.AddSpace: gives a space a cleared directory of its own. The second and third space of `init_multitasking`, which use the kernel's directory, and the space of `run_image`, which uses the one of `init_page_tables`, are not among the spaces of the model.
- Scheduler.Kernel.CreateThread: takes the thread's page and stack as given; `thread_count` is not modelled.
- ListFsImage.BuildImage: takes a loader of whole blocks, a block count that the map covers and a root directory that is not empty; so do BuildAndRead and BuildAndFind.
- ListFsImage.ReadLoader: requires a loader of whole blocks, as the map's place does (MapBaseIff).
- ListFsBuilder.ImageBuilder.ProcessDir: requires non-empty directories with names free of zero bytes; symbolic links and files that cannot be opened are not in the tree.
- Keyboard.RefinesQueue: runs in which a code arrives while all 16 slots are unread; one such interrupt on its own is in KeyRing.KeyboardInterrupt.
- Word widths: addresses, counters and entries do not wrap.
- Concurrency of `map_pages` and `alloc_virt_pages`: their locks do not protect the window, so the calls are atomic here.
- Compiler reordering, the TLB and `invlpg`: stores happen in program order.
- Memory map parsing and the remapping of the kernel image in `init_memory_manager`.
- `list_remove`, which nothing calls; `process_list`, which uses the same append.
- `get_file_data_pointer` and `run_new_process` of the kernel, which load one sector.
- Number conversion (`int_to_str`, `atoi`), `printf` and the console: they would add easy members.
- Floppy, DMA, PIT and PIC drivers, system calls, mode switching, TSS contents.
