# Verified model of the ATLAS/CMS kernel and its tools

A Dafny model of the stateful cores of a small x86-64 kernel, its C library and its build tools, with proofs.
`dafny verify dfyconfig.toml` checks all of it.

Every component has two layers. A value layer says what each call does to the state, as functions and predicates, and
holds the theorems: what every call keeps, what a whole run keeps, what one call undoes. An imperative layer has the
form of the C code, with arrays, fields, loops and pointers, and every method is proved against the value layer.

| file | what it models |
|---|---|
| `Pte.dfy` | page table entries as 64-bit words and as frame and attributes |
| `Pmm.dfy` | frames of physical memory: a bitmap of occupied frames and a stack of free ones |
| `PageTables.dfy` | four-level page tables (Intel SDM Vol. 3A, section 4.5) as a tree of frames in memory |
| `Entries.dfy` | what mapping and freeing does to entries and their attributes |
| `Budget.dfy`, `Ranges.dfy`, `Search.dfy` | what mapping a range needs, what mapping and freeing one does, and what the search for absent pages may answer |
| `Vmm.dfy` | mapping, searching and freeing pages and ranges, and the bitmap of page tables that are full |
| `Ownership.dfy` | runs of the virtual memory manager: which frame belongs to whom |
| `IdentityMap.dfy`, `Boot.dfy` | the recursive construction of the first tables, and the start of the virtual memory manager |
| `Teardown.dfy`, `Shutdown.dfy` | the recursive release of a process's tables, and the release of all it has |
| `Runs.dfy`, `AfterStart.dfy` | an address space from the start over any commands to the end; runs from the start that go wrong |
| `BlockList.dfy` | the doubly linked list of blocks, with headers in memory, that both heaps use |
| `UserHeap.dfy`, `UserProcess.dfy` | malloc and free over mmap and munmap, as values and as code |
| `UserPages.dfy`, `ProcessSlots.dfy` | mmap and munmap over the virtual memory manager; which processes have mmap slots |
| `KernelHeap.dfy` | kmalloc and kfree over whole frames |
| `Sched.dfy`, `SchedRing.dfy` | the scheduler, as a value and as processes linked in a circle |
| `Terminal.dfy` | the 80 x 25 text terminal |
| `Directory.dfy`, `Bmfs.dfy` | the directory of a BMFS disk, as a value and as code |
| `ModuleImage.dfy`, `Packer.dfy`, `ModuleLoader.dfy`, `BootCopy.dfy` | the format of packed modules, its writer, its reader, and the copy of the image that the kernel loads from |
| `Numbers.dfy` | printing numbers in a base and reading decimal ones |
| `MemCopy.dfy` | memset, memcpy and memmove |
| `Common.dfy`, `Bytes.dfy` | an option type; bytes and C strings in memory |

## What the proofs found

Some properties one would expect of this code do not hold. Each of them is proved here with the exact condition under which
it does; the members named show inputs where it does not.

- `alloc_pages` continues a failed search at the last absent page it saw, which is the same candidate again
  (Kernel/vmm.c:104). A request for more than one page never returns exactly if the first absent page starts a run that a
  present page cuts short within the searched tables (`SpinAfterStart`). One-page requests always return.
- `update_bitmap` takes the first table of a range that reaches into the next for full unless a candidate failed in it
  (Kernel/vmm.c:209-219). What that does to the bitmap is decided by the page that the search starts from: it stays right
  exactly if everything before that page in its table is mapped, or what is found starts in a later table or stays within its
  own (`DisagreeAfterStart`). Searches from address 0, or from the start of a table as mmap and the scheduler use
  (Kernel/mmu.c:43, Kernel/sched.c:9), always leave it right.
- `vmm_free_pages` frees one page for every 4096 bytes from the start on, but clears the bits of all tables that the byte range
  reaches (Kernel/vmm.c:255-265). So it clears the bit of a full table that it takes nothing from: with no bytes
  (`FreeNothingAfterStart`), or when it starts inside the last page before that table.
- `free_page` does not ask whether the entry is present (Kernel/vmm.c:279-286). Freeing a page that is not mapped gives back the
  frame that its entry still names: frame 0 if it never was mapped (`FreeAbsentAfterStart`), or a frame that has another use by
  now. Ownership of frames survives exactly if these frames are free already (`FreeingKeepsIff`). `vmm_shutdown_process` frees
  all pages of its range in this way (Kernel/vmm.c:349-352). After every run it gives back the frames of the process but the root,
  and frame 0 exactly if some page of the range has a table but never was mapped; `gmem` then hands out address 0 in its turn,
  which callers take for a failure. One page for a stack is enough for that (`EndAfterStart`).
- `vmm_initialize` clears 4096 of the 32768 bits of the new bitmap (Kernel/vmm.c:404-406). Bitmap and tables agree
  at the start exactly if no bit from 4096 on happened to be set for a table that is not full.
- `malloc` adds 32 to the request in 64 bits. For the 32 largest requests the sum is less than 32, and a block that is larger
  than its page is handed out exactly if the slot that mmap settles on has room for the sum (`OverflowExample`). When
  the sum is 0 the new header falls on another block's exactly if a full page lies right below a used one (`ClashExample`).
- `free` drops the last block's bytes from `last_mmap`, which holds the header that mmap gave last and not the end of its block
  (Userland/libc/memory.c:114,160). Later calls ignore every address above it, and always those below the first block: a block in
  use is freed exactly if its address lies between the two (`FreeWorksIff`, `FreeIgnoredExample`).
- `map_page` gives the attributes to entries that it finds absent only (Kernel/vmm.c:299-320). The identity mapping makes the top
  entry without the user bit (Kernel/vmm.c:449), so the pages that mmap gets have that bit in their own entries but not on
  every level (`UserPageAfterStart`).
- `munmap` compares unsigned (Kernel/mmu.c:79), so a page is released only when exactly its used bytes are given back. Over
  malloc and free that is always the case. An address in page 0 matches every empty slot.
- The kernel's table of mmap slots serves pids 0 to 19 (Kernel/mmu.c:6-10), but pids start at 1 and twenty processes can be
  spawned (Kernel/sched.c:154): the slots of the twentieth lie behind the table (`SpawnServed`).
- A process that is spawned while there is no other takes the kernel stack of the idle process, and its own is lost
  (Kernel/sched.c:161-163,269; `FirstBorrows`); the last process to be terminated leaves its kernel stack to the idle one
  (Kernel/sched.c:264-266). Processes never share one with each other.
- `kmalloc` puts a free block behind the block of a fresh frame if `4096 % size` is more than 36. For sizes 2049 to 4059 that
  block ends past the frame (`OutsideExample`); for sizes above 4064 the block itself does (Kernel/mmu.c:193-201).
- BMFS `create` sorts deleted records behind the live ones and still moves `prev_file_end` over their old extents
  (Bootloader/BMFS/bmfs.c:681-682). Files overlap exactly if no gap between files is long enough but the old end of
  some deleted record leaves room (`OverlapExample`).
- BMFS `create` makes the size even in 64 bits (Bootloader/BMFS/bmfs.c:613-614), so of all sizes only 2^64 - 1 MiB gets fewer blocks than
  it needs: none.
- In a BMFS directory without an end marker the number of entries stays 0 (Bootloader/BMFS/bmfs.c:621) and no file is taken into
  account: the new file goes to block 1 (`UnmarkedOverlapExample`). If it takes slot 0 the code writes an end marker behind it,
  and all other files are lost (`LosingExample`). Otherwise the directory is a map from names to records over every run.
- `ldr_module_section_size` starts from the size of a byte instead of that of the count (Kernel/moduleLoader.c:13), so the copy
  made at boot (Kernel/kernel.c:59) lacks the last three bytes. Loading from the copy works whatever follows it exactly if
  there is a module and the last name has at most 124 bytes, or all that its damaged field can read as are names of
  earlier modules.
- `s_to_i` answers 2^64 - 1 for numerals of more than 19 digits, so printed numbers from 10^19 on do not come back, except
  2^64 - 1 itself.
- `memmove` counts down from an `int` (Kernel/lib/mem.c:57). When the source is below the destination it is right exactly for
  lengths up to 2^31.

## Model

Rows that begin with **Main** are the main results; the others lead up to them, refine them or show where they end.

| member | source | states |
|---|---|---|
| Pte.FieldsDetermineWord | Kernel/pte.c:4-34 | an entry is nothing but a frame number and twelve attribute bits |
| Pte.AddAttribFields | Kernel/pte.c:4-7 | adding an attribute changes no other attribute and not the frame |
| Pte.DelAttribFields | Kernel/pte.c:9-12 | removing an attribute changes no other attribute and not the frame |
| Pte.SetFrameFields | Kernel/pte.c:14-19 | setting the frame keeps the attributes; the frame read back is the page of the address |
| Pte.PresentIsWordPresent | Kernel/pte.c:21-24 | an entry of the page table model is present exactly if the kernel finds its word present |
| Pte.PointToIsWordWrites | Kernel/vmm.c:305-330 | pointing an entry at a frame is the kernel's three writes to its word, for every word, address and attributes |
| Pte.MarkAbsentIsWordWrite | Kernel/vmm.c:279-286 | marking an entry absent is the kernel's write to its word: frame and other attributes stay |
| Pte.NewEntryIsWordWrites | Kernel/vmm.c:424-463 | the entries of the first tables are the writes of the kernel on an empty word |
| Pte.FrameIsWordPfn | Kernel/pte.c:31-34 | the frame that a walk follows from an entry is the one in its word |
| Pmm.GmemKeepsInv | Kernel/pmm.c:85-94 | gmem keeps bitmap and stack in agreement; it fails exactly if nothing is free, else it takes one free frame |
| Pmm.FmemKeepsInvIff | Kernel/pmm.c:98-110 | fmem keeps the agreement exactly if the address is no block's or its frame is one that may be handed out; only freeing an occupied block changes anything, and it frees exactly that block |
| Pmm.FreeCount | Kernel/pmm.c:65-83 | the stack's height is the number of clear bits |
| Pmm.RunConserves | Kernel/pmm.c:85-110 | **Main:** over every run free plus occupied frames is constant and the kernel's count is the free ones |
| Pmm.HeldUntilFreed | Kernel/pmm.c:85-110 | a frame handed out stays occupied until a call frees it |
| Pmm.NeverHandedOutTwice | Kernel/pmm.c:85-110 | **Main:** in every run a frame is handed out again only after a call that frees it |
| Pmm.FreeFrameComesOut | Kernel/pmm.c:85-94 | **Main:** every free frame is handed out, as many calls later as there are frames above it; so with frame 0 free some call answers with address 0 |
| Pmm.Pmm.Pop | Kernel/pmm.c:65-70 | takes the top of the stack |
| Pmm.Pmm.Push | Kernel/pmm.c:73-77 | puts a block on top of the stack |
| Pmm.Pmm.GetBlock | Kernel/pmm.c:85-94 | gmem on array and stack: what the value layer says, and an address in range of a frame that was free |
| Pmm.Pmm.FreeBlock | Kernel/pmm.c:98-110 | fmem on array and stack, for every frame as long as one other stays in use: -1, 0 or 1 as the value layer says, the free set grows by the block freed, bitmap and stack agree, and the manager stays right exactly if the frame is not a reserved one |
| PageTables.WalkFollowsTree | Kernel/vmm.c:153-185 | **Main:** the walk through memory ends in the page's table if the tree has it, and nowhere otherwise |
| PageTables.UpwardClosed | Kernel/vmm.c:153-185 | a table can be in the tree only below tables that are |
| PageTables.TranslateMeans | Kernel/vmm.c:153-185 | a page's translation is decided by one entry of one table |
| PageTables.WriteLeaf | Kernel/vmm.c:288-331 | **Main:** read over write through four levels: one entry written changes one page's translation, and the frame its entry names, and no other's |
| PageTables.LinkTable | Kernel/vmm.c:299-320 | a zeroed frame hung under an absent entry keeps the tree a tree and maps nothing; its entries name frame 0 |
| Entries.WrittenTogether | Kernel/vmm.c:288-331 | two mappings in a row are one: entries of upper levels that are present stay as they are, all others on the way keep their attributes and become present with those of the mapping, and no other entry changes |
| Entries.LinkWritten | Kernel/vmm.c:299-320 | hanging a new table under an absent entry writes that entry so, and nothing else that was there |
| Entries.PageWritten | Kernel/vmm.c:288-331 | **Main:** after mapping a range the walk to each of its pages finds the attributes the entry had, present, and those of the mapping; the walk to any other page finds the entry it found before, or the zero one of a new table |
| Entries.ClearedOneMore | Kernel/vmm.c:267-286 | freeing page by page clears the present bits of exactly these pages' entries |
| Vmm.Vmm.GetEntry | Kernel/vmm.c:153-185 | finds the entry exactly if all tables above it are there; the entry decides the translation |
| Vmm.Vmm.MapPage | Kernel/vmm.c:288-331 | **Main:** the page then goes to the frame, every other page where it went before, the tables form a tree, and exactly the missing tables were taken; entries on the way and the page's own get the attributes, all others stay |
| Vmm.Vmm.ReachTable | Kernel/vmm.c:293-321 | the loop creates the missing tables of one page and changes no translation |
| Vmm.Vmm.Descend | Kernel/vmm.c:293-321 | one round of it, with the frames it takes; and the entry it writes |
| Vmm.Vmm.AllocPage | Kernel/vmm.c:187-203 | maps the page to a frame of its own that was free, and nothing else; it needs one frame and one for each missing table, and takes exactly these |
| Vmm.Vmm.GetFreePageInPt | Kernel/vmm.c:114-126 | the first absent page at or after the start |
| Vmm.Vmm.MappableFrom | Kernel/vmm.c:128-151 | maps all of the range, if all of it was absent, or nothing; reports the end of the absent run; it needs and takes exactly one frame a page and one for each missing table |
| Vmm.Vmm.IsPtRangeIncomplete | Kernel/vmm.c:237-251 | whether a page of the range is absent |
| Vmm.Vmm.UpdateBitmap | Kernel/vmm.c:205-225 | the bits it sets and clears, the last table's by examination |
| Ranges.AgreementAfterMapping | Kernel/vmm.c:205-225 | **Main:** the bitmap agrees with the tables after a mapping exactly if the first table had no absent page before the range, or is the last too |
| Vmm.Vmm.AllocPages | Kernel/vmm.c:57-112 | **Main:** found: the lowest absent page, all of the range absent before and mapped to fresh frames after, exactly the frames needed taken, no other page changed, the bitmap right iff what the start page decides; else nothing changed; spinning exactly if the first run is cut short; exactly the entries on the way to the range are written, with the attributes |
| Search.FirstAbsentDecides | Kernel/vmm.c:74-111 | at the lowest absent page exactly one of the three outcomes is possible |
| Vmm.Vmm.AllocAnywhere | Kernel/vmm.c:43-55 | the search from address 0 always keeps bitmap and tables in agreement, across any number of tables |
| Vmm.Vmm.AllocFrom | Kernel/vmm.c:27-41 | the search from an address: the lowest range at or after it; the bitmap agrees afterwards exactly if nothing was found or what is before the start in its table was mapped or the range found lies in one table or starts in a later one; always, if the address starts a table |
| Search.StartDecides | Kernel/vmm.c:205-225 | **Main:** whether the first table of the range found has an absent page before it is decided by the page that the search started from |
| Search.NothingBeforeStart | Kernel/vmm.c:27-41 | a search from the start of a table always leaves the bitmap right |
| Budget.NeededStep | Kernel/vmm.c:128-151 | one page more in front of a range needs its frame and the tables that the other pages did not bring |
| Budget.FourSuffice | Kernel/vmm.c:288-331 | four frames a page are always enough |
| Search.FourAreEnough | Kernel/vmm.c:57-112 | with four frames a page every search has enough |
| Search.ShortRequestNeverBlocked | Kernel/vmm.c:74-104 | a one-page request is never cut short, so it always ends |
| Vmm.Vmm.FreePage | Kernel/vmm.c:279-286 | the frame that the entry names is free, the page absent, no other translation changed; tables and frame manager stay right exactly if that frame is neither reserved nor a table; of its entry exactly the present bit is cleared, and no other entry changes |
| Vmm.Vmm.FreePages | Kernel/vmm.c:253-277 | **Main:** for any start and size, and whatever the entries name: one page for every 4096 bytes becomes absent, no other translation changes, exactly the frames that the entries of these pages name become free; no reserved frame and no table does exactly if none is named; the bitmap agrees iff it does not clear the bit of a full table it frees nothing of; exactly the present bits of these pages' entries are cleared |
| Vmm.Vmm.FreeEntry | Kernel/vmm.c:267-274 | one round of the loop: the page's entry, if it has a table |
| Ranges.MappedNames | Kernel/vmm.c:267-286 | for mapped pages the frames given back are those that they were mapped to |
| Ranges.FreeableIfOneStays | Kernel/pmm.c:73-77 | the stack has a slot for every frame freed if some frame of the memory stays in use |
| Ranges.AgreementAfterFreeing | Kernel/vmm.c:253-277 | the bitmap agrees with the tables after freeing any byte range exactly if the range does not end inside a full table that none of the pages freed belongs to |
| Ranges.FreeUndoesAlloc | Kernel/vmm.c:57-112 | **Main:** allocating and freeing a range restores every translation; exactly the frames that became tables stay taken |
| Ownership.PartitionAtStart | Kernel/vmm.c:375-393 | after the identity mapping every frame is free or a table |
| Ownership.TakeKeeps | Kernel/vmm.c:57-112 | an allocation keeps the partition: each frame is free, a table, or the frame of exactly one live page |
| Ownership.ReleaseKeeps | Kernel/vmm.c:253-286 | a release of live pages keeps the partition |
| Ownership.FreeingKeepsIff | Kernel/vmm.c:253-286 | **Main:** freeing any range keeps the partition exactly if its absent entries name frames that are free already |
| Ownership.ReleaseIsPermitted | Kernel/vmm.c:253-286 | live pages meet what vmm_free_pages needs |
| Ownership.RunKeepsPartition | Kernel/vmm.c:27-286 | **Main:** in every run of allocations and releases no frame is lost and none has two owners |
| Ownership.PartitionCounts | Kernel/vmm.c:27-286 | free frames, tables and live pages always add up to the pool |
| Ownership.LivePageKeepsFrame | Kernel/vmm.c:27-286 | **Main:** in every run a live page keeps its frame until it is released |
| IdentityMap.FrameCountAdds | Kernel/vmm.c:440-453 | the tables of whole blocks and of the rest add up to those of the sum |
| IdentityMap.ForestJoins | Kernel/vmm.c:440-453 | tables for neighbouring ranges are tables for both |
| IdentityMap.TableDone | Kernel/vmm.c:440-462 | a table above finished subtrees makes one finished subtree |
| IdentityMap.ForestTranslates | Kernel/vmm.c:424-463 | **Main:** the finished tables form a tree that sends page i to frame i below N and nothing else anywhere; no page has a table that does not share it with one of them |
| IdentityMap.ForestPlain | Kernel/vmm.c:448-451 | every entry of these tables is present and writeable and nothing else, or all zero |
| IdentityMap.IdentityPaging | Kernel/vmm.c:424-463 | **Main:** every level: its subtree for every N, with exactly the frames counted; a second PML4 is never begun; every entry made is present and writeable |
| IdentityMap.MapIdentity | Kernel/vmm.c:375-393 | page q goes to frame q iff q < N, and has a table iff its table holds such a page; exactly ceil(N/512) + ceil(N/512^2) + ceil(N/512^3) + 1 frames are taken |
| Boot.FullTables | Kernel/vmm.c:375-410 | after the identity mapping of n pages exactly the first n / 512 page tables are full |
| Boot.BootAgreement | Kernel/vmm.c:401-410 | the bitmap agrees with these tables exactly if no bit from 4096 on was found set for a table that is not full |
| Boot.Initialize | Kernel/vmm.c:375-415 | **Main:** the whole start: page q goes to frame q iff q < n, the bitmap agrees exactly under that condition, and every frame of the pool is free, a table or the bitmap's; one frame more than the tables is taken |
| Teardown.NextEntry | Kernel/vmm.c:363-372 | entry n adds its table and what is below it, disjoint from what the entries before it gave |
| Teardown.AncestorsInTree | Kernel/vmm.c:358-373 | with a table the tables above it are in the tree |
| Teardown.BelowRoot | Kernel/vmm.c:355 | below the root are all tables but the root |
| Teardown.RecursivelyDestroyTables | Kernel/vmm.c:358-373 | **Main:** frees every table strictly below its argument and no page frame, whatever is free already; each once if none is; terminates |
| Teardown.DestroyEntry | Kernel/vmm.c:363-372 | one round of its loop |
| Teardown.ShutdownTables | Kernel/vmm.c:354-356 | the free frames become those before and the tables without the root; their number grows by exactly these tables if none was free |
| Shutdown.FreePagesOneByOne | Kernel/vmm.c:349-352 | the page loop, whatever the entries name: all pages of the range are absent, no other changes, exactly the frames named are free, the bitmap agrees, and all is right exactly if no reserved frame and no table was named |
| Shutdown.ShutdownProcess | Kernel/vmm.c:343-356 | **Main:** pages, then tables, for every state: free are the frames named and the tables without the root; the frame manager is right exactly if no reserved frame was named; of the process's frames all but the root are free and no other frame is exactly if the entries of its absent pages name frames that are free or tables |
| Shutdown.AllButRootReturns | Kernel/vmm.c:343-356 | the accounts of that |
| Runs.CommandKeepsSane | Kernel/vmm.c:27-286 | a search that leaves no table behind wrongly, and the release of live pages, keep: the partition of the frames, the bitmap in agreement, the live pages as what is mapped above the identity mapping, and the names of entries within the pool |
| Runs.RunStaysSane | Kernel/vmm.c:27-286 | **Main:** every run of searches and releases keeps all of that |
| Runs.Start | Kernel/vmm.c:375-415 | the state after the start is sane exactly if no bit above those that are cleared was set; no page above the identity mapping has a table |
| Runs.Allocate | Kernel/vmm.c:27-55 | the search as a command of these runs; from the start of a table on it always leaves a sane state |
| Runs.FreeLive | Kernel/vmm.c:253-277 | the release of live pages as a command of these runs |
| Runs.EndIsPermitted | Kernel/vmm.c:343-356 | in every sane state the shutdown finds a slot on the stack for every frame it frees |
| Runs.EndGivesBack | Kernel/vmm.c:343-356 | what is free after it is the pool without the root, and frame 0 exactly if some page of the range has a table but never was mapped |
| Runs.End | Kernel/vmm.c:343-356 | **Main:** the shutdown of a sane state does that; the frame manager is right afterwards exactly if there is no such page |
| AfterStart.EndAfterStart | Kernel/sched.c:123-135 | **Main:** start, one page for the first stack, shutdown: frame 0 is free, and some later call of gmem answers with address 0 |
| AfterStart.FreeAbsentAfterStart | Kernel/vmm.c:267-286 | start, one page for the first stack, release of the page behind it: frame 0 is free |
| AfterStart.SpinAfterStart | Kernel/vmm.c:104 | start, two requests of one page, release of the first: a request of two pages never returns |
| AfterStart.DisagreeAfterStart | Kernel/vmm.c:205-225 | start, two pages from the last page of the first table above the identity mapping on: the bitmap is wrong |
| AfterStart.FreeNothingAfterStart | Kernel/vmm.c:255-265 | start, nothing freed at page 1: the bitmap is wrong |
| AfterStart.UserPageAfterStart | Kernel/mmu.c:43 | start, mmap's page: it has the user bit in its own entry, but not in the top entry on the way to it |
| AfterStart.TopStays | Kernel/vmm.c:299-320 | mapping leaves a present entry of an upper level as it is |
| BlockList.FirstFit | Userland/libc/memory.c:69-78 | the index of the first free block that is large enough |
| BlockList.SplitLinked | Userland/libc/memory.c:80-97 | **Main:** the pointer writes of a split leave the headers doubly linked as the split list |
| BlockList.BlockList.FindBlock | Userland/libc/memory.c:69-78 | the first fit and the block before it |
| BlockList.BlockList.GetBlock | Userland/libc/memory.c:189-200 | the block with this payload address, or NULL |
| BlockList.BlockList.SplitBlock | Userland/libc/memory.c:80-97 | the list with the block cut and the rest free behind it |
| BlockList.BlockList.Append | Userland/libc/memory.c:117-132 | the list with a new last block; it stays a linked list exactly if the new header does not fall on a listed one |
| BlockList.BlockList.HandOut | Userland/libc/memory.c:44-48 | the block found is cut to the request and taken: the list of the value layer |
| BlockList.TakeCarves | Userland/libc/memory.c:44-48 | the block handed out is cut to exactly the request, with the rest less a header listed free right behind it, if that leaves 36 bytes or more; else it keeps its size; no other block changes |
| BlockList.TakeHandsOut | Userland/libc/memory.c:44-48 | the block handed out is large enough and apart from every live block, all of which stay |
| BlockList.ReleaseKeepsLive | Userland/libc/memory.c:139-165 | freeing or dropping a block leaves every other live block where it was |
| BlockList.BlockList.RemoveLast | Userland/libc/memory.c:151-158 | the list without its last block |
| UserHeap.MmapExtends | Kernel/mmu.c:27-64 | mmap succeeds exactly if the request fits a page and the slot it settles on has room; it then answers the end of the used part of that slot, which grows by the request |
| UserHeap.MallocAnswersIff | Userland/libc/memory.c:29-67 | malloc answers NULL exactly if no listed block fits and the sum with the header finds no room, and then changes nothing |
| UserHeap.MallocAllocates | Userland/libc/memory.c:29-133 | **Main:** malloc takes the lowest free block that is large enough, cut as above, and leaves the kernel alone then; else it appends a block of the size behind the used part of the page that has room, or answers NULL and changes nothing |
| UserHeap.FreeFrees | Userland/libc/memory.c:139-187 | **Main:** free acts on the addresses of listed blocks from the first block up to the last header that mmap gave, less what was dropped since: the block is free where it is, as large as it was, or, as the last one, gone, and its page ends where it began; no other block changes; for every other address nothing changes |
| UserHeap.FreeWorksIff | Userland/libc/memory.c:170-187 | after free of a block in use it is in use no more exactly if free acts on its address |
| UserHeap.FreedIsReused | Userland/libc/memory.c:69-78 | the next request of at most the size of a block freed that is not the last is served without the kernel, by that block or a lower one |
| UserHeap.FreeIgnoredExample | Userland/libc/memory.c:114-160 | requests of 8 and of 100 bytes and free of the second: free of the first does nothing |
| UserHeap.TiledSplit | Userland/libc/memory.c:80-97 | a split keeps every page tiled |
| UserHeap.InOrder | Userland/libc/memory.c:29-67 | blocks of a page lie in list order |
| UserHeap.BlocksApart | Userland/libc/memory.c:29-67 | no two blocks overlap |
| UserHeap.MallocKeepsInv | Userland/libc/memory.c:29-133 | malloc keeps list and kernel counts in agreement: the blocks of each page tile exactly its used part |
| UserHeap.MallocKeepsInvIff | Userland/libc/memory.c:29-133 | **Main:** for all requests of 64 bits: it does exactly if the sum with the header does not overflow, or the slot that mmap settles on has no room for what remains of it |
| UserHeap.OverflowExample | Userland/libc/memory.c:110 | the largest request is answered with an address |
| UserHeap.MallocIsFresh | Userland/libc/memory.c:29-67 | the block handed out is listed, in use, large enough and apart from every live block, all of which stay |
| UserHeap.MallocKeepsLive | Userland/libc/memory.c:29-67 | malloc leaves every live block where it was |
| UserHeap.FreeKeepsLive | Userland/libc/memory.c:139-165 | free leaves every live block at another address where it was |
| UserHeap.FreeKeepsInv | Userland/libc/memory.c:139-187 | free of any address keeps the agreement |
| UserHeap.FreeReturnsTop | Userland/libc/memory.c:149-163 | free unmaps only the last block, which is the top of its page's used part; an empty page is released |
| UserHeap.RunKeepsInv | Userland/libc/memory.c:29-165 | every run of malloc and free keeps the two layers in agreement |
| UserHeap.RunTiles | Userland/libc/memory.c:29-165 | **Main:** after any run from the empty heap the blocks tile their pages in list order and none overlap |
| UserHeap.RunKeepsLive | Userland/libc/memory.c:29-165 | in every run a block handed out stays listed, as it was, until its own address is freed |
| UserHeap.LiveBlocksApart | Userland/libc/memory.c:29-165 | **Main:** two blocks handed out and not freed meanwhile are apart after any run |
| UserPages.FoundIsGrantable | Kernel/mmu.c:43-47 | a page found absent at or above mmap's base is none of the pages that the process has |
| UserPages.GrantPage | Kernel/mmu.c:43-51 | mmap's search in a sane state: it always returns, and answers a new page, or nothing exactly if there is no absent one; the page's entry is present with the attributes asked for |
| UserPages.ReturnPage | Kernel/mmu.c:79-82 | the page of a slot is given back: it is absent then, and the address space stays sane |
| UserProcess.MmapTable.SyscallMmap | Kernel/mmu.c:27-64 | the slots of this process and the address are those of the value layer; a page is searched for only at an empty slot; the address space stays sane and has exactly the slots' new page more; other processes' slots are untouched; a page granted is writeable and the user's |
| UserProcess.MmapTable.SyscallMunmap | Kernel/mmu.c:66-89 | the slots of this process are those of the value layer; the pages of slots emptied go back, and only these; the address space stays sane; other processes' slots are untouched |
| UserProcess.MmapTable.EmptySlot | Kernel/mmu.c:79-82 | a slot's page goes back and the slot is emptied |
| UserProcess.MmapTable.FreeThreadPages | Kernel/mmu.c:12-25 | no page is left for the process, all its slots' pages go back, and the address space stays sane; other processes' slots are untouched |
| UserProcess.Process.Malloc | Userland/libc/memory.c:29-67 | **Main:** on linked headers, the kernel's arrays and page tables, for all requests of 64 bits: what malloc does as stated above, on the list before and after; the invariant holds after it iff the sum does not overflow or mmap has no room for what remains; the headers form a list iff the sum is not 0 or the pages do not clash; the address space stays sane, with one page more at most |
| UserProcess.Process.ExpandHeap | Userland/libc/memory.c:99-133 | appends the block that mmap made room for, with the same condition for the list |
| UserProcess.ClashesIff | Userland/libc/memory.c:110-120 | what mmap answers is where a listed block starts exactly if the sum is 0 and a full page lies right below a used one |
| UserProcess.Process.Free | Userland/libc/memory.c:139-165 | **Main:** on linked headers, the kernel's arrays and page tables: what free does as stated above, for every address, on the list before and after; exactly the pages of slots emptied go back, and the address space stays sane |
| UserProcess.Process.FreeListed | Userland/libc/memory.c:149-163 | frees a listed block; the last one goes from the list |
| UserProcess.ClashExample | Userland/libc/memory.c:110-120 | the request whose sum is 0: its block can start where another does |
| ProcessSlots.ServedIff | Kernel/mmu.c:6-10 | the kernel's table has slots for a pid exactly if it is below 20 |
| ProcessSlots.SpawnServed | Kernel/sched.c:149-158 | a process that is spawned has slots exactly if it is not the twentieth |
| KernelHeap.RemainderDecides | Kernel/mmu.c:193-201 | the sizes for which the blocks of a fresh frame end within the page |
| KernelHeap.FreshBlocksInside | Kernel/mmu.c:168-205 | the blocks of a fresh frame lie in it exactly for those sizes |
| KernelHeap.KmallocKeepsInvIff | Kernel/mmu.c:93-136 | **Main:** kmalloc keeps all blocks apart and inside their frames exactly if a listed block fits or the size is one of those |
| KernelHeap.OutsideExample | Kernel/mmu.c:193-201 | a first request of 2049 bytes puts a free block across the end of its frame |
| KernelHeap.KmallocIsFresh | Kernel/mmu.c:93-136 | the block handed out is listed, in use, large enough and apart from every live block, all of which stay |
| KernelHeap.KfreeKeepsInv | Kernel/mmu.c:207-229 | kfree of a listed block keeps the invariant |
| KernelHeap.KfreeKeepsLive | Kernel/mmu.c:207-229 | kfree leaves every live block at another address where it was |
| KernelHeap.KmallocAllocates | Kernel/mmu.c:93-205 | **Main:** kmalloc takes the lowest free block that is large enough, cut as above; else it starts a fresh frame with a block of the size, and what dividing the page by the size leaves, less a header, as a free block behind it |
| KernelHeap.KfreeFrees | Kernel/mmu.c:207-229 | kfree of a listed block: it is free where it is, or, as the last one, gone; no other block changes |
| KernelHeap.RestServes | Kernel/mmu.c:193-201 | the rest of a fresh frame serves the next request of at most its size without another frame |
| KernelHeap.FreedIsReused | Kernel/mmu.c:138-147 | a block freed that is not the last serves the next request of at most its size, or a lower one does |
| KernelHeap.SplitConserves | Kernel/mmu.c:149-166 | a split neither loses nor invents bytes |
| KernelHeap.RunKeepsInv | Kernel/mmu.c:93-229 | **Main:** every run with sizes 1 to 2048 keeps the blocks apart, each inside one frame |
| KernelHeap.RunKeepsLive | Kernel/mmu.c:93-229 | in every such run a block handed out stays listed, as it was, until its own address is freed |
| KernelHeap.KernelHeap.Kmalloc | Kernel/mmu.c:93-136 | on linked headers and the physical memory manager: the heap and address of the value layer, the invariant exactly if a listed block fits or the size is one of those; exactly the frame used leaves the free set, and none if a listed block fits; what kmalloc does as stated above, on the list before and after |
| KernelHeap.KernelHeap.ExpandHeap | Kernel/mmu.c:168-205 | the new frame's blocks are linked behind the list, and exactly that frame leaves the free set |
| KernelHeap.KernelHeap.Kfree | Kernel/mmu.c:207-229 | marks the block free and drops it from the list if it is the last; as stated above, on the list before and after |
| Sched.RoundKeeps | Kernel/sched.c:149-273 | one kernel entry keeps pids distinct and changes the set of processes by its operation only |
| Sched.RunKeeps | Kernel/sched.c:149-273 | **Main:** at every return to user mode the ring holds exactly the processes spawned and not terminated, each once |
| Sched.ResumedWithSavedStack | Kernel/sched.c:252-273 | **Main:** after every run the processor continues on the stack last saved for the process it resumes |
| Sched.KillKeepsOrder | Kernel/sched.c:198-228 | terminating a process keeps the cyclic order of the others, whether or not it is the active one |
| Sched.SpawnGoesLast | Kernel/sched.c:160-170 | a new process goes behind all others |
| Sched.MovesForward | Kernel/sched.c:149-273 | a waiting process moves at least one place forward in every round |
| Sched.BoundedWaiting | Kernel/sched.c:149-273 | **Main:** a live process d places behind the active one runs within d rounds, whatever is spawned and terminated meanwhile |
| Sched.RoundKernels | Kernel/sched.c:149-273 | a process keeps its kernel stack; a new one has its own, except that one spawned when there is none takes that of the idle one; the last to go leaves its own to the idle one |
| Sched.KernelsAfterRound | Kernel/sched.c:252-273 | no round makes two processes share a kernel stack; one shares the idle one's exactly from its spawn while there was none until it is terminated |
| Sched.RunKernels | Kernel/sched.c:149-273 | **Main:** over every run from the start: no two processes share a kernel stack, and exactly that process shares the idle one's |
| Sched.FirstBorrows | Kernel/sched.c:160-163 | the first process has the kernel stack of the idle one |
| SchedRing.Scheduler.SwitchToKernelStack | Kernel/sched.c:252-260 | saves the stack with the active process, or with the idle one, and answers the kernel stack of that one |
| SchedRing.Scheduler.SwitchToUserStack | Kernel/sched.c:263-273 | saves the kernel stack with the active process, with one that has just left the circle, or with the idle one; the next process becomes active |
| SchedRing.Scheduler.SpawnModule | Kernel/sched.c:149-172 | the circle with the new process behind all others, its stacks and a new pid |
| SchedRing.Scheduler.LastOf | Kernel/sched.c:164-169 | the process whose successor is the active one; the loop ends |
| SchedRing.Scheduler.TerminateProcess | Kernel/sched.c:198-228 | the circle without the process, or -1 and nothing changed if there is none; exactly its record gets the exit code |
| SchedRing.Scheduler.Unlink | Kernel/sched.c:216-222 | one pointer write takes a process out of a circle of two or more |
| SchedRing.Scheduler.KernelEntry | Kernel/asm/sys.asm:33-44 | **Main:** enter, at most one operation, leave: on linked processes this is one round of the value layer |
| Terminal.PutcShows | Kernel/video.c:117-158 | an ordinary character or newline keeps the screen at the tail of the unbounded document |
| Terminal.ScreenShowsTail | Kernel/video.c:78-158 | **Main:** after clearing, any such text leaves exactly the last rows of its 80-column document, blank padded |
| Terminal.ScrollShows | Kernel/video.c:122-125 | the lazy scroll moves the window down by one row |
| Terminal.ScrollsHigher | Kernel/video.c:122-125 | a full screen: every row one row higher, the last blank, the cursor at its start |
| Terminal.PutcWrites | Kernel/video.c:117-158 | **Main:** on the screen before and after: a newline blanks the rest of the row; a return goes to the start of the row; a backspace goes one cell back, from the first cell to the end of the first row, and changes no cell; a tab blanks up to column 8, behind it one cell; any other character takes the cell; a full screen is moved up first |
| Terminal.RuboutErases | Userland/shell/shell.c:56-60 | an ordinary character, then backspace, blank, backspace: a blank is in its cell, the cursor on it and nothing else changed, also behind the last cell |
| Terminal.FillCells | Kernel/video.c:131-134 | the newline's blanks fill the rest of the row and nothing else |
| Terminal.RawPutc | Kernel/video.c:117-158 | for all characters writes stay on the screen and the cursor in 0 to 2000 |
| Terminal.Clamp | Kernel/video.c:99-115 | for all rows and columns the cursor ends in 0 to 2000, and where asked if that is on the screen; 2000 for positions behind it and 0 for those that read as negative |
| Terminal.Terminal.Cursor | Kernel/video.c:99-115 | sets and answers that position |
| Terminal.Terminal.CopyRow | Kernel/video.c:160-165 | one row becomes another, no other cell changes |
| Terminal.Terminal.ScrollUp | Kernel/video.c:167-180 | every row moves up, the last is blank |
| Terminal.Terminal.Putc | Kernel/video.c:117-158 | the driver's switch over the cells does what is stated above, for every character and cursor |
| Terminal.Terminal.MakeRoom | Kernel/video.c:122-125 | a full screen is scrolled before the next character |
| Terminal.Terminal.PutNewline | Kernel/video.c:131-136 | blanks up to the end of the row |
| Terminal.Terminal.PutBack | Kernel/video.c:142-146 | one cell back, or from the first to the end of the first row; no cell changes |
| Terminal.Terminal.PutReturn | Kernel/video.c:138-140 | back to the start of the row; no cell changes |
| Terminal.Terminal.PutTab | Kernel/video.c:148-153 | blanks up to column 8, behind it a single one |
| Terminal.Terminal.PrintText | Kernel/video.c:70-76 | **Main:** the same for a whole text |
| Terminal.Terminal.Clear | Kernel/video.c:78-86 | 2001 blanks leave an empty screen with the cursor at the start |
| Terminal.ClearStep | Kernel/video.c:82-84 | one of these blanks, the last of them scrolling |
| Directory.GapIsLowest | Bootloader/BMFS/bmfs.c:661-683 | among files the search finds the lowest free extent if there is one, without underflow; then it goes on to ends of deleted records |
| Directory.DeletedEnds | Bootloader/BMFS/bmfs.c:670-682 | among deleted records it answers iff the old end of one leaves room |
| Directory.SortKeeps | Bootloader/BMFS/bmfs.c:595-606 | sorting the copy keeps which extents there are and that they are disjoint |
| Directory.CreateKeepsDisjointIff | Bootloader/BMFS/bmfs.c:608-717 | **Main:** with an end marker: the lowest gap is taken, or nothing changes and no gap was long enough, unless a deleted end leaves room; files stay disjoint exactly if a gap fits or no deleted end does |
| Directory.CreateCreatesLeast | Bootloader/BMFS/bmfs.c:608-717 | **Main:** the new record reserves the least number of 2 MiB blocks that hold the size, from the lowest block on where as many are free; there is no space exactly if nowhere as many are free, nor behind the end of a deleted record |
| Directory.OverlapExample | Bootloader/BMFS/bmfs.c:681-682 | two files of a full directory with an end marker overlap after a create |
| Directory.UnmarkedCreate | Bootloader/BMFS/bmfs.c:621-649 | without an end marker the new file goes to block 1 if the disk is large enough; files then stay disjoint exactly if those blocks were free, or slot 0 was, in which case the new file is the only one left |
| Directory.DeleteKeepsExtents | Bootloader/BMFS/bmfs.c:800-819 | delete keeps the other files where they are and disjoint |
| Directory.FindRefines | Bootloader/BMFS/bmfs.c:203-229 | findfile is lookup in the map from names to records |
| Directory.CreateUpdatesMapIff | Bootloader/BMFS/bmfs.c:608-704 | **Main:** create adds one name to the map and changes no other entry exactly if the directory has an end marker, or the new record does not take slot 0, or there was no file; otherwise the new file is the only one left |
| Directory.UnmarkedOverlapExample | Bootloader/BMFS/bmfs.c:621-649 | a full directory with slot 1 deleted: the new file lies on that of slot 0 |
| Directory.LosingExample | Bootloader/BMFS/bmfs.c:621-649 | a full directory with slot 0 deleted: the new file is the only one left |
| Directory.DeleteUpdatesMap | Bootloader/BMFS/bmfs.c:800-819 | delete removes one name from the map |
| Directory.StepKeeps | Bootloader/BMFS/bmfs.c:608-819 | every command that finds no deleted extent in the way changes the map by its file only, keeps names unique and files disjoint |
| Directory.CreateStepUpdatesMap | Bootloader/BMFS/bmfs.c:608-717 | wherever the file is put, create adds it, if it was not there, or does nothing |
| Directory.DeleteStepUpdatesMap | Bootloader/BMFS/bmfs.c:800-819 | delete removes its file, if it is there, and nothing else |
| Directory.RunUpdatesMap | Bootloader/BMFS/bmfs.c:608-819 | **Main:** in every run, wherever the files lie, as long as no create takes slot 0 of a directory without an end marker that has files: the directory is a map at every time, and every command changes it by its own file only |
| Directory.RunKeeps | Bootloader/BMFS/bmfs.c:608-819 | **Main:** every run of such commands keeps names unique and files disjoint |
| Bmfs.Disk.FindFile | Bootloader/BMFS/bmfs.c:203-229 | the slot of the live record with the name before the end marker |
| Bmfs.Disk.ScanSlots | Bootloader/BMFS/bmfs.c:633-649 | the number of entries and the first slot for a new file |
| Bmfs.Disk.FindGap | Bootloader/BMFS/bmfs.c:661-683 | the loop computes the search of the value layer, in unsigned 64-bit arithmetic |
| Bmfs.Disk.Create | Bootloader/BMFS/bmfs.c:608-717 | the outcome and the whole new directory, also for a name in use, no slot and no space; the new record has the name, no bytes yet, and the least number of 2 MiB blocks that hold the size |
| Bmfs.Disk.Delete | Bootloader/BMFS/bmfs.c:800-819 | the whole new directory, unchanged if there is no such file |
| Bmfs.Disk.CreateFile | Bootloader/BMFS/bmfs.c:608-717 | **Main:** create on the buffer is a step of the runs above, with the least number of blocks for the size, and answers as stated above |
| Bmfs.Disk.DeleteFile | Bootloader/BMFS/bmfs.c:800-819 | delete on the buffer is a step of the runs above |
| ModuleImage.ReadsU32 | Kernel/moduleLoader.c:70-75 | a 32-bit number in memory reads as what was written |
| ModuleImage.EntryLayout | Toolchain/ModulePacker/main.c:55-91 | an entry is the size of the content, low byte first, the content, the base name and a zero behind it, in 128 bytes |
| ModuleImage.BaseBehindSlash | Toolchain/ModulePacker/main.c:114-118 | the base name starts the path, or right behind a slash |
| ModuleImage.ReadsName | Toolchain/ModulePacker/main.c:114-118 | a name field reads as the base name of the path, even without its last bytes if the name is that much shorter |
| ModuleImage.LoadFindsFirst | Kernel/moduleLoader.c:26-48 | over readable entries the loader answers with the first module of the name, or nothing |
| ModuleImage.LoadAfterPack | Kernel/moduleLoader.c:26-48 | **Main:** loading from packed modules gives exactly the bytes and size of the first module of the name, or NULL iff there is none |
| ModuleImage.SectionSizeOfImage | Kernel/moduleLoader.c:10-24 | the size computed is that of the image less three bytes |
| BootCopy.BootCopyLoads | Kernel/kernel.c:57-60 | loading from the boot copy gives the same if the last name has at most 124 bytes |
| BootCopy.BootCopyWorksIff | Kernel/kernel.c:57-60 | **Main:** loading from the copy works for every name, whatever follows it, exactly if there is a module and the last name has at most 124 bytes or everything its damaged field can read as is the name of an earlier module |
| BootCopy.LoadDamaged | Kernel/moduleLoader.c:26-48 | from the damaged copy every module before the last is found as from the image; another name is found exactly if the last name field reads as it |
| BootCopy.UniqueLastName | Kernel/kernel.c:57-60 | if no other module has the last name, 124 bytes are the bound |
| Packer.Target.WriteFile | Toolchain/ModulePacker/main.c:120-130 | the chunks written are together the whole source |
| Packer.Target.WriteName | Toolchain/ModulePacker/main.c:114-118 | 128 bytes from the base name on, with what is behind the buffer |
| Packer.BuildImage | Toolchain/ModulePacker/main.c:55-91 | **Main:** the file is the kernel followed by the image of the modules in order |
| ModuleLoader.ModuleSectionSize | Kernel/moduleLoader.c:10-24 | the loop in 32-bit arithmetic computes the size of the value layer |
| ModuleLoader.ModuleLoad | Kernel/moduleLoader.c:26-48 | the first module of the name is answered and reported, or the report is left alone |
| Numbers.TextIsNumeral | Userland/libc/printf.c:138-169 | for every base from 2 to 16 the digits printed stand for the number, without a redundant leading zero |
| Numbers.NumeralIsText | Userland/libc/printf.c:138-169 | **Main:** every numeral without a redundant leading zero is what is printed for its number |
| Numbers.DigitCount | Userland/libc/printf.c:145-151 | a number has n digits if it lies between the powers n - 1 and n of the base |
| Numbers.BufferSuffices | Userland/libc/printf.c:109-134 | 64 characters are enough for every number in every base |
| Numbers.PrintToBase | Userland/libc/printf.c:138-169 | **Main:** the buffer holds the numeral and a zero, the rest of it is unchanged, the count is returned |
| Numbers.WriteDigits | Userland/libc/printf.c:144-151 | the loop writes the digits, lowest first |
| Numbers.ReverseInPlace | Userland/libc/string.c:14-24 | the bytes are turned round in place, the rest of the buffer is unchanged |
| Numbers.Strlen | Userland/libc/string.c:6-11 | the length of the C string |
| Numbers.SToI | Userland/libc/string.c:43-59 | a numeral of 1 to 19 digits is answered with its number, anything else with 2^64 - 1; sum and weight never leave 64 bits |
| Numbers.PrintThenRead | Userland/libc/string.c:43-59 | **Main:** a printed 64-bit number comes back exactly if it is below 10^19 or is 2^64 - 1 |
| Numbers.ReadThenPrint | Userland/libc/string.c:43-59 | a numeral read prints as it was exactly if it had no redundant leading zero |
| Numbers.Itoa | Userland/libc/string.c:27-41 | the buffer holds the sign, the numeral and a zero |
| Numbers.SignedTextMeans | Userland/libc/string.c:27-41 | a minus sign exactly for numbers below 0, and then the decimal numeral of the number without its sign |
| MemCopy.Memcpy | Kernel/lib/mem.c:14-50 | **Main:** by words or by bytes, memory ends up the same for every overlap: the forward copy |
| MemCopy.CopyWords | Kernel/lib/mem.c:33-39 | the word loop writes what the byte loop would |
| MemCopy.CopyBytes | Kernel/lib/mem.c:41-47 | the byte loop: for an overlap ahead the first bytes are repeated |
| MemCopy.ForwardMovesIff | Kernel/lib/mem.c:14-50 | memcpy moves the old bytes of every memory exactly if the destination is not inside the source past its start |
| MemCopy.Memmove | Kernel/lib/mem.c:53-67 | the bytes moved are the old ones for every overlap and nothing else changes; the place is off by the `int` wrap-around for long moves |
| MemCopy.LowestIsZeroIff | Kernel/lib/mem.c:57 | the place is right exactly for lengths up to 2^31 |
| MemCopy.MoveIsRightIff | Kernel/lib/mem.c:53-67 | **Main:** a move is right for every memory exactly if the source is not below the destination or the length is at most 2^31 |
| MemCopy.Memset | Kernel/lib/mem.c:3-12 | the bytes of the range become the value cut to a byte, all others stay |

## Left out

- Vmm.Vmm.AllocPages: has a budget of pages and tables to try, because the search of the kernel may not end; with a budget above 32769 the outcome `Spinning` means exactly that it does not. Requests whose size in bytes does not fit `int`, from 524288 pages on, are left out: the code multiplies in `int` (Kernel/vmm.c:85). It needs as many free frames as the range found takes, because callers test the frame provider for 0 and it reports exhaustion as -1 (Kernel/pmm.c:93). The bitmap must agree with the tables before the call.
- Vmm.Vmm.AllocFrom: the same conditions.
- Vmm.Vmm.AllocAnywhere: the same conditions.
- Vmm.Vmm.FreePages: needs the frames named to be frames of the memory and one frame to stay in use, because the stack has no slot for the last one. The bitmap must agree with the tables before the call. Ranges end within virtual memory.
- Vmm.Vmm.UpdateBitmap: has a set of table numbers for the bitmap, so accesses past the end of its page are not distinguished.
- Shutdown.ShutdownProcess: works on the tables in use, as its page loop does, and needs what `FreePages` needs, which holds after every run (`EndIsPermitted`).
- Boot.Initialize: needs frames for the tables and the bitmap, because exhaustion is not noticed; CR3 access is left out.
- Pmm.Pmm.FreeBlock: addresses of frames beyond the total, which index past the bitmap, and the last frame in use, for which the stack has no slot.
- UserProcess.MmapTable.SyscallMmap: byte counts do not wrap around; pids whose slots lie outside the arrays are left out; four free frames are needed if the loop comes to an empty slot, because exhaustion is not noticed.
- UserProcess.MmapTable.SyscallMunmap: leaves out pids whose slots lie outside the arrays, and addresses in page 0, which match empty slots.
- UserProcess.MmapTable.FreeThreadPages: leaves out pids whose slots lie outside the arrays.
- UserPages.GrantPage: needs four free frames.
- UserProcess.Process.Malloc: needs them if no listed block fits and mmap comes to an empty slot.
- Runs.RunStaysSane: leaves out releases of pages that are not live; `FreeingKeepsIff` says what those do to the frames.
- KernelHeap.KernelHeap.Kfree: needs the address of a listed block; for any other one the code dereferences NULL.
- KernelHeap.KernelHeap.Kmalloc: needs a size above 0 if no listed block fits, because the code divides by it, and a free frame.
- SchedRing.Scheduler.SpawnModule: allocates process records with `new`; the pool of 20 and its index, which is never checked or reset, appear as the precondition that it is not exhausted.
- SchedRing.Scheduler.KernelEntry: the same precondition for a spawn.
- Bmfs.Disk.Create: names of 32 bytes and more, which the code copies past the end of the record's name.
- Bmfs.Disk.CreateFile: the same.
- Bmfs.Disk.Qsort: is an insertion sort that stands for the C library's; starting blocks are compared as numbers, not cut to `int`.
- Numbers.Itoa: leaves out the least `int`, whose negation overflows.
- Numbers.SToI: needs the string's end within 2^31 bytes, because its length is an `int`.
- MemCopy.Memcpy: ranges that wrap around the address space.
- MemCopy.MoveIsRightIff: long moves whose wrong place lies outside memory.
- ModuleLoader.ModuleLoad: the string comparison is equality of C strings of at most 128 bytes.
- Bit masks are modelled as the 64-bit masks they are meant to be; the code shifts an `int` (Kernel/pmm.c:41,46,51, Kernel/vmm.c:9,14,19,180).
- `init_mem` marks other bits than it should; runs of the frame manager start from a state that satisfies the invariant.
- The bitmap and CR3 switch of a process.
- Stack pages, stack frames and page tables of processes; the assembly gives only the order of the calls.
- `vid_update`, `vid_show`, `vid_raw_print` and the colour masks of the terminal.
- File access of the BMFS tool: `initialize`, `format`, `list`, `read`, `write` and its command line.
- `loadModules` and `loadModule`, which read an older format without names.
- Paths that end in a slash, for which `basename` does something else, and paths of 128 bytes or more.
- Pipes and semaphores, whose code does not keep a queue; keyboard, clock, sound, interrupts, shell, formatted output and input.
