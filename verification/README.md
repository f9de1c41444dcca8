# Dionnex kernel: a verified model

This project models the stateful algorithms of the Dionnex 32-bit kernel in Dafny and
proves what they are for. It is built bottom-up: upper proofs use only the contracts of
the layers below.

- **Memory.** `Bits` and `Memory` give 32-bit masks, little-endian loads and stores, and a
  byte-addressed RAM (`PhysMem`). `PageAllocator` is the bitmap page allocator, `PmmRuns`
  its disciplined runs. `PageTables` and `VirtualMemory` are the two-level page tables
  stored in that RAM, read as a finite map. `HeapSpec` states the heap on block lists;
  `KernelHeap` is the heap itself, with packed 13-byte headers in RAM.
- **Loaders and memory calls.** `UserSpace` reads memory through the page tables,
  `ElfLoader` loads a program byte for byte from its file image, `UserMemory` is
  sbrk/mmap/munmap. `ModuleLinker` is module linking as a function of image and base;
  `ModuleLoader` does it in place on the heap and registers the module.
- **Processes.** `SchedulerSpec` is the scheduler as a state machine with its fairness and
  waiting bounds; `ProcessTable` has the intrusive lists that share one link field and
  refines that machine.
- **Files.** `RamFs` is the slot table read as a map from names to bytes, `Paths` the
  in-place tokenizer, `VirtualFs` the node tree, the path walk and mounting.
- **Drivers and strings.** `Line` is the integer line, `Keyboard` the decoder and the ring
  under interleaving, `Calendar` the clock arithmetic, `Numerals` the number printers and
  parsers.

`dafny verify dfyconfig.toml` checks the whole project.

## Where the code does not do what it seems to promise

Each of these but the last is kept as the code has it, with the exact condition proved:

- A module name of more than 63 characters is stored cut and is never found again, so load
  followed by unload restores the kernel exactly for names of at most 63 characters
  (`ModuleLoader.Loader.LoadThenUnload`).
- A RAM file created under more than 63 characters cannot be found under its name, and two
  such names can end up equal (`RamFs.LongNames`, `RamFs.LongNamesCollide`). A path that
  ends in a slash creates a file that no path reaches (`VirtualFs.NamelessIsUnreachable`).
- A write behind the end of a RAM file shows whatever the slot held in the gap
  (`RamFs.WriteIsOverlay`, with a deleted file in `RamFs.StaleByteShows`); offset plus size
  wrapping around defeats the length clamp (`RamFs.ClampIsBounded`).
- The memory map's high words are ignored and its addresses cut to pages, so an entry frees
  exactly its own pages only if it is read right (`PageAllocator.CoversIsReported`, with inputs
  in `PageAllocator.ReadWrongExamples`); the last page below 4 GB is never managed
  (`PageAllocator.LastPageIsLost`).
- `process_destroy` alone leaves the scheduler's queue stale exactly when it destroys the
  head of the list (`ProcessTable.Table.Destroy`), and the next creation then puts the freed
  process back into both lists (`ProcessTable.Table.DestroyThenCreate`).
- The timer dispatches only while a process runs, and nothing in the repository calls
  `schedule_process` while none does (kernel/scheduler_process.c:105 and kernel/process.c:120 are
  its only callers; the `Dispatch` event of the runs stands for a caller to come). So the
  processes created at boot never start (`SchedulerSpec.BoundedWaiting`,
  `SchedulerSpec.FirstDispatch`, `SchedulerSpec.AfterBoot`).
- After a kill the timer goes on dispatching the other processes exactly when some process was
  running and it was not the killed one (`SchedulerSpec.KillKeepsDispatching`, with two processes
  in `SchedulerSpec.KilledCurrentStarves`); a killed current process that still exits is followed
  as usual (`SchedulerSpec.KilledCurrentExits`).
- A process that joins later starts at vruntime 0 and keeps the fairness bound exactly when no
  other is more than one tick ahead and a running one has itself just started
  (`SchedulerSpec.NewcomerKeepsFair`).
- Adding a process that is already queued closes the queue's links to a circle
  (`ProcessTable.Table.SchedAddAgain`); adding any other keeps it a list. Likewise mounting a
  node leaves a finite list of children exactly when it was not a child before
  (`VirtualFs.MountTwiceLoops`).
- Unmapping a range that overlaps earlier mappings does not restore them
  (`UserMemory.MmapThenMunmap`). The page count of a range ignores where in its page it starts,
  so its last bytes are mapped exactly when the offset still fits
  (`UserMemory.MmapCoversBytes`, `UserMemory.MunmapCoversBytes`), and it is 0 for the longest
  ranges (`UserMemory.PagesAreEnough`). A negative increment can pull the break below the heap
  (`UserMemory.UserHeap.Sbrk`, `UserMemory.SbrkBelowBase`).
- A page is open to user code only if the directory entry is, and that keeps the flag of the
  first mapping in its 4 MB (`VirtualMemory.Vmm.MapPage`, `PageTables.UserPages`).
- A page of a program segment keeps its frame exactly when no later segment covers it
  (`ElfLoader.SharedPageIsRemapped`, with two headers in `ElfLoader.SharedPageExample`).
- A line drawn backwards lights other pixels exactly where the ideal line passes half way
  between two (`Line.BackwardsDiffersAtTies`, `Line.TieExample`). Its error term overflows on
  horizontal lines exactly from 2^30 pixels on (`Line.HorizontalLinesFit`).
- Heap growth looks at the first new page only. It is right exactly when all the lowest free
  pages follow the arena one by one (`KernelHeap.GrowthIsSound`; an input that starts right and
  covers a taken page is `KernelHeap.GrowthOverTakenPage`), and the same holds for the initial
  pages (`KernelHeap.Heap.constructor`). Coalescing is right exactly when list neighbours touch
  (`HeapSpec.MergeExact`). Rounding and page counts wrap for requests close to 4 GB
  (`HeapSpec.AlignedIsEnough`, `HeapSpec.GrowthIsEnough`), and so does the end of a program
  segment (`ElfLoader.WrappedEnd`).
- The directory lookup at fs/vfs.c:160 names a field `finddir` of the node, which it does
  not have; the operation `ops->finddir` is modelled.

## Model

| member | source | states |
|---|---|---|
| PageAllocator.Pmm.constructor | mm/pmm.c:32-120 | whatever the memory map, overlapping entries included, the free pages are exactly the available pages below the total on which neither address 0, nor a byte of the kernel image, nor a byte of the bitmap or the one behind it lies, the bitmap starting on the first page boundary not before the kernel's end; with entries that are read right the available pages are the reported ones; the counter is exact and tail bits are set |
| PageAllocator.MemoryEndIs | mm/pmm.c:32-52 | memory ends at the highest of 16 MB and the wrapped ends of the available entries when flag 6 is set, at the size of upper memory when only flag 0 is, at 16 MB otherwise |
| PageAllocator.FindMemoryEnd | mm/pmm.c:32-50 | the scan of the memory map finds that end |
| PageAllocator.ReservedIs | mm/pmm.c:92-116 | the pages taken at boot are page 0 and the pages that meet the kernel image or the bitmap |
| PageAllocator.Pmm.ReleaseAvailable | mm/pmm.c:63-90 | from a full bitmap, exactly the pages that the low words of some available entry span become free, each counted once |
| PageAllocator.CoversIsReported | mm/pmm.c:69-79 | the loop frees exactly the whole pages an entry reports, on its 64-bit address and length, if and only if the entry is not available, or has no page for either side, or starts on a page boundary below 4 GB and its length fits the low word or fills the space below 4 GB by the low word alone |
| PageAllocator.AvailableIsReported | mm/pmm.c:63-90 | over a map whose entries are read right, the pages taken for usable are the reported ones |
| PageAllocator.AvailableWithoutMap | mm/pmm.c:83-90 | without a memory map the pages taken for usable are those from 1 MB on |
| PageAllocator.ReadWrongExamples | mm/pmm.c:69-79 | memory above 4 GB frees pages far below, and an entry from the middle of a page frees all of that page |
| PageAllocator.LastPageIsLost | mm/pmm.c:39-52 | where no entry reaches past 4 GB, every reported page is managed if and only if the last page below 4 GB is not among them |
| PageAllocator.Pmm.SetBit | mm/pmm.c:20-22 | the bit operation takes one page and leaves every other page as it was |
| PageAllocator.Pmm.ClearBit | mm/pmm.c:24-26 | the bit operation releases one page and leaves every other page as it was |
| PageAllocator.Pmm.TestBit | mm/pmm.c:28-30 | the shifted test tells whether the page is taken |
| PageAllocator.LowestZero | mm/pmm.c:124-127 | the inner scan finds the lowest clear bit of a word that is not all ones |
| PageAllocator.Pmm.FirstClear | mm/pmm.c:122-138 | the scan with word skipping finds the least free page, or none when there is none |
| PageAllocator.Pmm.AllocPage | mm/pmm.c:122-138 | hands out the least free page and removes exactly it; 0 when nothing is free |
| PageAllocator.Pmm.FreePage | mm/pmm.c:140-146 | adds exactly that page; an address past the end or a free page changes nothing; counter stays exact |
| PmmRuns.Client.TakePage | mm/pmm.c:122-138 | a call by a disciplined caller is an allocation step of a run |
| PmmRuns.Client.ReturnPage | mm/pmm.c:140-146 | giving back an outstanding page is a release step of a run |
| PmmRuns.PagesConserved | mm/pmm.c:122-146 | over every disciplined run free and outstanding pages split the initial free set |
| PmmRuns.HandedOutOnce | mm/pmm.c:122-146 | over every run a page handed out is not outstanding, was free at boot and is the least free page |
| PmmRuns.GivenBackBetween | mm/pmm.c:122-146 | a page handed out twice was given back in between |
| PmmRuns.Consecutive | mm/pmm.c:122-138 | successive allocations are consecutive pages when the lowest free pages are |
| PmmRuns.TookRun | mm/pmm.c:122-138 | the pages that a number of allocations take are consecutive if and only if the lowest free pages are |
| Memory.PageMasks | mm/vmm.c:51-74 | masking with 0xFFF and 0xFFFFF000 splits an address into offset and page |
| Memory.DirectoryIndex | mm/vmm.c:40 | the directory index macro selects the 4 MB region of an address |
| Memory.TableIndex | mm/vmm.c:41 | the table index macro selects the page within its region |
| Memory.Memmove | kernel/string.c:24-39 | overlapping either way, the copied range gets the old bytes and nothing else changes |
| Memory.Memcpy | kernel/string.c:15-22 | for disjoint ranges the copied range gets the source bytes and nothing else changes |
| Memory.Memset | kernel/string.c:7-13 | the range gets the byte and nothing else changes |
| PageTables.StoreSlot | mm/vmm.c:51-52 | one stored entry changes one slot of one table; directory and tables stay pairwise separate |
| PageTables.AddTable | mm/vmm.c:43-49 | hanging an empty page under an absent directory entry keeps all tables separate and all slots |
| PageTables.SlotIsKey | mm/vmm.c:39-64 | changing one table slot adds, replaces or removes exactly one key of the translation map |
| PageTables.UserPages | mm/vmm.c:43-52 | a mapped page is open to user code exactly when table entry and directory entry both are, and one mapping opens or closes no other page |
| VirtualMemory.Vmm.constructor | mm/vmm.c:14-26 | exactly the pages of the first 4 MB are mapped, each to itself, writable, closed to user code; tables lie in pages taken from the allocator |
| VirtualMemory.LookAfterBoot | mm/vmm.c:14-75 | after boot an address below 4 MB translates to itself and any other to 0 |
| VirtualMemory.EntryAllows | mm/vmm.c:51-52 | an entry names the frame, is present, and has every other flag exactly as asked for |
| VirtualMemory.Vmm.MapPage | mm/vmm.c:39-55 | updates exactly one key, also when a table has to be added; the entry names the frame and allows exactly what the flags ask for; only table pages change; the page is open to user code exactly when the flags ask for it and the directory entry, if it was there, already was; no other page is opened or closed |
| VirtualMemory.Vmm.EnsureTable | mm/vmm.c:43-49 | adding a missing table changes no translation and no other directory entry; the new entry is writable and has the user flag exactly when the mapping asks for it |
| VirtualMemory.Vmm.UnmapPage | mm/vmm.c:57-64 | removes exactly one key; absent tables are no error |
| VirtualMemory.Vmm.GetPhys | mm/vmm.c:66-75 | the mapped frame joined with the offset, 0 for an unmapped page |
| HeapSpec.CoalesceCanonical | mm/heap.c:16-32 | after coalescing no two neighbours are both free |
| HeapSpec.CoalesceTiles | mm/heap.c:16-32 | coalescing keeps the arena covered exactly |
| HeapSpec.CoalesceLive | mm/heap.c:16-32 | coalescing keeps the live blocks |
| HeapSpec.MergeExact | mm/heap.c:22-27 | merging any two list neighbours claims exactly the bytes of both if and only if the second starts where the first ends |
| HeapSpec.CanonicalUnique | mm/heap.c:16-32 | a canonical block list is determined by its arena and its live blocks |
| HeapSpec.TakeTiles | mm/heap.c:69-90 | splitting or taking a block keeps the arena covered exactly |
| HeapSpec.TakeCanonical | mm/heap.c:69-90 | taking a block leaves no two free neighbours |
| HeapSpec.TakeNew | mm/heap.c:69-90 | exactly one live block joins, apart from all others, large enough and less than 29 bytes larger than asked |
| HeapSpec.ReleaseKeeps | mm/heap.c:132-142 | freeing keeps a canonical tiling and removes exactly that live block |
| HeapSpec.TakeRelease | mm/heap.c:60-142 | allocating from the arena and freeing restores the exact block list |
| HeapSpec.EmptyArena | mm/heap.c:34-58 | an arena without live blocks is one free block of its length minus 13 |
| HeapSpec.ReleaseAllLeavesOne | mm/heap.c:132-142 | freeing all live blocks in any order leaves one free block of the arena's length minus 13 |
| HeapSpec.ExtendTiles | mm/heap.c:92-117 | the longer list tiles an arena if and only if the first new page starts where the arena ended |
| KernelHeap.GrowthIsSound | mm/heap.c:92-117 | after growth by the lowest free pages the list tiles an arena whose new part is exactly the pages taken, if and only if those pages follow the arena one by one |
| KernelHeap.GrowthOverTakenPage | mm/heap.c:92-117 | an arena, free pages and a request where growth starts at the arena's end, covers a page that was never free and loses one that was |
| KernelHeap.ServesExactly | mm/heap.c:60-130 | what an allocation is asked to meet before it grows the heap is exactly what makes the growth sound |
| KernelHeap.TakePages | mm/heap.c:96-102 | takes as many of the lowest free pages as there are, consecutive or not, and fails only when there is none |
| KernelHeap.PagesForLeast | mm/heap.c:93-94 | growth takes the least number of pages for header and request, as the source computes it |
| KernelHeap.InitialPagesLeast | mm/heap.c:38-40 | the heap starts with the least number of pages for 1 MB and the size asked for |
| HeapSpec.BytesConserved | mm/heap.c:177-199 | free bytes, used bytes and 13 per block add up to the arena |
| HeapSpec.AlignedIsEnough | mm/heap.c:64 | rounding up gives room exactly up to 0xFFFFFFFC bytes and wraps to 0 beyond |
| HeapSpec.GrowthIsEnough | mm/heap.c:93-94 | the page count has room for an aligned request exactly up to 0xFFFFEFF0 bytes |
| KernelHeap.Heap.constructor | mm/heap.c:34-58 | the heap starts as one free block of the initial length from the lowest free page on; that block covers exactly the pages taken if and only if the lowest free pages are consecutive; no byte outside it changes |
| KernelHeap.Heap.FindFit | mm/heap.c:66-90 | the walk over the headers finds the first fitting free block, or the last block |
| KernelHeap.Heap.SplitAt | mm/heap.c:74-84 | the two headers written describe the two parts; bytes outside the block stay |
| KernelHeap.Heap.Coalesce | mm/heap.c:16-32 | the in-place loop terminates and leaves the fully merged list; live payloads keep their bytes |
| KernelHeap.Heap.Kmalloc | mm/heap.c:60-130 | first fit or growth; 0 exactly for size 0 or no memory; the new block is live, apart from all others, at least as large as asked and less than 29 bytes larger than the rounded request; every live payload keeps its bytes |
| KernelHeap.Heap.Kfree | mm/heap.c:132-142 | exactly that block is released and merged; every other live payload keeps its bytes |
| KernelHeap.Heap.Krealloc | mm/heap.c:144-166 | old contents reappear in the result; a block that is big enough stays; every other live payload keeps its bytes; fails exactly when no block fits and no page is free, changing nothing |
| KernelHeap.Heap.AllocateAndRelease | mm/heap.c:60-142 | allocation without growth followed by free leaves the block list exactly as it was |
| KernelHeap.Heap.CountBytes | mm/heap.c:177-199 | the totals are the payload bytes of free and of used blocks |
| UserSpace.PrivateWrite | kernel/elf_loader.c:63-66 | a byte stored in a frame that is no table page changes no translation |
| ElfLoader.WriteVirtual | kernel/elf_loader.c:63-66 | bytes written through the tables appear at their virtual addresses; frames behind no page of the range stay |
| ElfLoader.MapSegment | kernel/elf_loader.c:48-60 | every page of a segment gets a frame of its own that was free before, with the entry for the segment's flags |
| ElfLoader.FlagsOfSegment | kernel/elf_loader.c:57-59 | a segment's entries are open to user code and writable exactly if bit 1 of its flags is set |
| ElfLoader.ValidateIs | kernel/elf_loader.c:12-24 | the header check accepts exactly the files with the four identification bytes, class 1, order 1 and type 2 or 3 |
| ElfLoader.WrappedEnd | kernel/elf_loader.c:48-51 | the page loop visits exactly the pages of a segment if and only if its rounded end does not wrap around |
| ElfLoader.LoadSegment | kernel/elf_loader.c:43-66 | one segment reads as its file bytes followed by zeros |
| ElfLoader.LoadSegments | kernel/elf_loader.c:32-73 | on success every page of every loadable segment that no later one covers is open to user code, writable exactly if bit 1 of its header's flags word is set, and reads, byte for byte, as the header's words for offset, address and sizes promise of the file; all those pages have new frames, no two the same; in every outcome translations outside the segments and bytes in pages that were in use are unchanged; a file is refused exactly if its identification bytes or type are wrong |
| ElfLoader.AllAsFileSays | kernel/elf_loader.c:36-67 | what is in place after the last segment is what the words of the program headers say |
| ElfLoader.NewFramesStep | kernel/elf_loader.c:51-60 | no two pages of any segments share a frame, and every frame was free at the start |
| ElfLoader.ShownKept | kernel/elf_loader.c:40-69 | loading a further segment keeps an earlier one, flags and bytes, on every page the new one does not cover |
| ElfLoader.ApartAllLoaded | kernel/elf_loader.c:40-69 | when no two segments share a page, each is in place as a whole |
| ElfLoader.SharedPageIsRemapped | kernel/elf_loader.c:51-60 | a page of a loaded segment keeps its frame if and only if the next segment does not cover it |
| ElfLoader.SharedPageExample | kernel/elf_loader.c:51-60 | two well-formed segments in the two halves of one page: the second hides the first |
| UserMemory.MapRange | kernel/syscall.c:160-165 | unless memory runs out every page of the range, behind the last one page 0, gets a frame of its own that was free, writable and open to user code; no other page changes, nor a byte in a page that was in use |
| UserMemory.OwnRingMore | kernel/syscall.c:160-165 | a page mapped to a frame just taken joins the pages with frames of their own |
| UserMemory.PagesAreEnough | kernel/syscall.c:159 | the page count of a length is enough exactly up to 0xFFFFF000 bytes and 0 beyond |
| UserMemory.UserHeap.Sbrk | kernel/syscall.c:148-169 | for every increment the old break is returned and the break moves by it modulo 2^32; new pages get frames of their own that were free, writable and open to user code, and bytes in use stay; when memory suffices the break stays between base and end, and all pages below the end are mapped, if and only if it does not go below the base and the end does not wrap |
| UserMemory.SbrkBelowBase | kernel/syscall.c:152-156 | a negative increment is never refused and leads below the heap exactly when it is larger than what was added |
| UserMemory.Mmap | kernel/syscall.c:198-212 | maps as many pages as counted for the length, from the page of the address or of 0x40000000 for address 0, behind the last page page 0, each to a frame of its own that was free, writable and open to user code; changes no other page and no byte in use; length 0 changes nothing |
| UserMemory.Munmap | kernel/syscall.c:214-221 | removes exactly as many pages as counted for the length, from the page of the address, behind the last page page 0 |
| UserMemory.MmapCoversBytes | kernel/syscall.c:198-212 | every byte of the range, wrapped around or not, is mapped if and only if the offset in the first page still fits the page count, or the page behind was mapped before; beyond 0xFFFFF000 bytes nothing gets mapped |
| UserMemory.MunmapCoversBytes | kernel/syscall.c:214-221 | no byte of the range stays mapped if and only if the offset still fits, or the page behind was not mapped; beyond 0xFFFFF000 bytes nothing is unmapped |
| UserMemory.MiddleOfPage | kernel/syscall.c:198-221 | a page of bytes from 0x1800 is counted as one page and lies in two |
| UserMemory.MmapThenMunmap | kernel/syscall.c:198-221 | map then unmap restores the translations if and only if nothing was mapped in the range before |
| ModuleLinker.LayoutDisjoint | kernel/module_loader.c:51-63 | allocated sections get disjoint ranges inside the computed size |
| ModuleLinker.LayoutTight | kernel/module_loader.c:51-63 | a section gets room exactly if flag 1 is set, its size rounded up to a multiple of four |
| ModuleLinker.SectionInBlock | kernel/module_loader.c:101-120 | before relocation the block holds every allocated section's bytes at its offset, zeros for type 8 |
| ModuleLinker.SymbolPoints | kernel/module_loader.c:134-140 | a symbol of a loaded section points at that section's byte at the symbol's offset |
| ModuleLinker.SymbolElsewhere | kernel/module_loader.c:134-153 | a named symbol of no section has the kernel's address, one of a section not loaded counts from its header's address, any other keeps its value |
| ModuleLinker.ResolvableIs | kernel/module_loader.c:141-153 | linking finds every symbol if and only if the kernel knows each named one that no section defines |
| ModuleLinker.ApplyOne | kernel/module_loader.c:176-195 | one relocation sets its field to the sum on its width and changes no byte outside it |
| ModuleLinker.RelocationMeaning | kernel/module_loader.c:155-199 | with disjoint sites every R_386_32 field ends as its value plus S and every R_386_PC32 field plus S-P modulo 2^32, likewise on 16 and 8 bits |
| ModuleLinker.FieldsAdjusted | kernel/module_loader.c:155-199 | with disjoint sites type 1 adds S to the word and type 2 S-P modulo 2^32, type 4 S to the half word, type 5 S to the byte |
| ModuleLinker.OthersUnchanged | kernel/module_loader.c:155-199 | a byte that no relocation of these types acts on stays |
| ModuleLinker.RelocationListed | kernel/module_loader.c:155-170 | every entry of a relocation section that names a symbol is applied, at its offset in the section it is for |
| ModuleLinker.LinkedAdjusted | kernel/module_loader.c:99-199 | in memory each relocated place holds the word, half word or byte of the section in the file plus S, or plus S-P with P its address |
| ModuleLinker.ValueShift | kernel/module_loader.c:134-153 | a symbol of the module moves by the distance between two bases modulo 2^32, any other symbol not |
| ModuleLinker.BaseShift | kernel/module_loader.c:101-199 | the same image at two bases differs by the distance at absolute fields of internal symbols, by minus it at PC-relative fields of external ones, and nowhere else |
| ModuleLoader.CopySections | kernel/module_loader.c:101-113 | the block holds the aligned sections in order, its final offset is the computed size, and nothing outside changes |
| ModuleLoader.ResolveSymbols | kernel/module_loader.c:134-153 | the two passes give every symbol its final value, or fail exactly when an undefined name is unknown |
| ModuleLoader.Relocate | kernel/module_loader.c:155-199 | the in-place loops produce the linked block and change nothing outside it |
| ModuleLoader.FindHooks | kernel/module_loader.c:201-220 | the entry points are the values of the last symbols with those names, 0 for none |
| ModuleLoader.LastNamedIs | kernel/module_loader.c:201-220 | an entry point is the value of the symbol of that name behind which there is no other |
| ModuleLoader.NoneNamed | kernel/module_loader.c:201-220 | it is 0 without such a symbol |
| ModuleLoader.SymtabIs | kernel/module_loader.c:122-133 | the symbols are those of the first section of type 2, none without one or when its string table is no section |
| ModuleLoader.ModuleCalcSize | kernel/module_loader.c:51-63 | the loop adds up the aligned sizes of the allocated sections |
| ModuleLoader.LinkBytes | kernel/module_loader.c:99-220 | copying, resolving and relocating leave the block equal to the linked image, or report which step failed; every relocated place then holds what the file's section had there plus S, or plus S-P |
| ModuleLoader.OutcomeAdjusts | kernel/module_loader.c:99-199 | whatever is linked without overlapping relocations has each of them done in memory |
| ModuleLoader.Loader.Load | kernel/module_loader.c:65-248 | the outcome is determined: already loaded, invalid, no memory for the image, link error, no memory for the list entry, or loaded; success adds one module, linked and relocated at its base, with the entry points named so, and two live blocks; every failure leaves the module list and the live blocks as they were; other payloads keep their bytes |
| ModuleLoader.LoadIsServed | kernel/module_loader.c:79-230 | what a load asks of the heap holds whenever both blocks fit in the arena, no page is free, or enough free pages follow the arena |
| ModuleLoader.Loader.Unload | kernel/module_loader.c:250-283 | removes the first module of that name and frees exactly its two blocks |
| ModuleLoader.Loader.LoadThenUnload | kernel/module_loader.c:65-283 | with the outcome of the load determined, a load that succeeds is undone, list and live blocks, and without growth the exact block list, if and only if the name has at most 63 characters |
| SchedulerSpec.RunFair | kernel/scheduler_process.c:67-107 | over every run of dispatches, ticks, exits and kills of any process from vruntime 0: weights of live processes differ by at most 10, at most one process runs, it is the current one and holds the least weight |
| SchedulerSpec.NewcomerKeepsFair | kernel/scheduler_process.c:18-24 | a process that joins a fair population keeps it fair if and only if no live one is more than a tick ahead of a start and a running one has just started |
| SchedulerSpec.ScheduleFair | kernel/scheduler_process.c:67-100 | dispatching restores fairness after a charge |
| SchedulerSpec.ScheduleIs | kernel/scheduler_process.c:67-100 | a dispatch starts the first ready process of least virtual runtime, turns the running one ready and changes no other; without a ready process it changes nothing |
| SchedulerSpec.TickPays | kernel/scheduler_process.c:102-107 | each tick lowers by exactly one what a waiting process is owed, and keeps the population |
| SchedulerSpec.DispatchedWithin | kernel/scheduler_process.c:102-107 | while some process runs, a ready process is dispatched within as many ticks as it is owed |
| SchedulerSpec.BoundedWaiting | kernel/scheduler_process.c:67-107 | the timer dispatches a ready process if and only if some process is running, and then, with n live processes and no exits, within 2n-2 ticks |
| SchedulerSpec.FirstDispatch | kernel/scheduler_process.c:67-107 | over every run some process has been dispatched if and only if `schedule_process` was called from outside timer and exit while a process was ready |
| SchedulerSpec.AfterBoot | kernel/main.c:138-157 | the two processes created at boot are a fair population that no number of ticks ever changes |
| SchedulerSpec.KilledCurrentFreezes | kernel/scheduler_process.c:102-107 | once the current process is killed no tick ever changes the state again |
| SchedulerSpec.KillKeepsDispatching | kernel/syscall.c:186-193 | after killing one process the timer dispatches any other ready one if and only if some process was running and the killed one was not it |
| SchedulerSpec.KilledCurrentExits | kernel/process.c:111-121 | a killed current process that exits leaves the state its exit would have left anyway |
| SchedulerSpec.KilledCurrentStarves | kernel/scheduler_process.c:102-107 | two processes, the first running: the second is dispatched by the next tick, by no tick once the first is killed, and by its exit |
| ProcessTable.Table.Create | kernel/process.c:103-105 | whatever the two lists, the new process is first in the process list, with a fresh id, and the queue stays |
| ProcessTable.Table.SchedAdd | kernel/scheduler_process.c:18-24 | any process not queued becomes the head of the queue; where it stood in the process list, the queue follows it from then on; both heads denote one list afterwards exactly when it headed the process list |
| ProcessTable.Table.SchedAddAgain | kernel/scheduler_process.c:18-24 | a process already queued closes the links to a circle |
| ProcessTable.EndlessIsNoChain | kernel/scheduler_process.c:73-81 | behind such a head lies no finite list, so the walks over it do not end |
| ProcessTable.Table.SchedRemove | kernel/scheduler_process.c:26-42 | whatever the two lists, takes the process out of the queue, and out of the process list exactly when its predecessor in the queue stands there too; lists that agreed still do exactly when it was not the head |
| ProcessTable.Table.Destroy | kernel/process.c:123-142 | whatever the two lists, takes the process out of the process list, and out of the queue exactly when its predecessor in the list is queued too; lists that agreed still do exactly when it was not the head |
| ProcessTable.Table.RemoveThenDestroy | kernel/process.c:123-142 | the paired removal takes the process out of both lists, and lists that agreed still do |
| ProcessTable.Table.CreateThenAdd | kernel/main.c:141-153 | whatever the two lists, both heads denote one acyclic list afterwards, the new process before the old queue; to the scheduler a newcomer has joined |
| ProcessTable.Table.DestroyThenCreate | kernel/syscall.c:118 | after a destroy as in `sys_waitpid` and the next creation the destroyed process is back in both lists if and only if it headed the list |
| ProcessTable.Table.PickBest | kernel/scheduler_process.c:70-83 | the list walk finds the first ready process of least vruntime, in list order among equals |
| ProcessTable.Table.ScheduleProcess | kernel/scheduler_process.c:67-100 | the lists and processes afterwards are what the state machine says |
| ProcessTable.Table.SchedTick | kernel/scheduler_process.c:102-107 | refines the state machine's tick; the running process is charged ten |
| ProcessTable.Table.ProcessExit | kernel/process.c:111-121 | refines the state machine's exit; the process that was current is a zombie with that exit code |
| ProcessTable.Table.Kill | kernel/syscall.c:186-193 | finds the process by id and makes exactly it a zombie; the scheduler sees that at its place in the queue, if it has one |
| ProcessTable.Table.GetByPid | kernel/process.c:148-155 | finds exactly the members of the list by their unique ids |
| Line.Screen.PutPixel | drivers/vesa.c:114-127 | at 24 and 32 bits a pixel changes exactly the bytes of the one visible pixel to the colour, blue first; a coordinate off the screen, negative ones included, changes nothing |
| Line.ColorIsShown | drivers/vesa.c:117-126 | the bytes stored read back as the colour, its low 24 bits for three of them |
| Line.Screen.Neighbours | drivers/vesa.c:116-126 | the first pixel is at the start of the buffer, neighbours lie one pixel and one pitch on |
| Line.OneRound | drivers/vesa.c:176-180 | the two comparisons against twice the error term step to the next nearest pixel |
| Line.ShortLinesFit | drivers/vesa.c:169-180 | lines of at most a third of the 32-bit range never overflow, intermediate error terms included |
| Line.HorizontalLinesFit | drivers/vesa.c:169-180 | horizontal lines overflow exactly from 2^30 pixels on |
| Line.Screen.DrawLine | drivers/vesa.c:168-182 | in every octant: starts at the first point, ends exactly at the second after max(dx,dy)+1 pixels, and the k-th pixel is the nearest one; exactly the visible points of the path get the colour, and bytes of no pixel stay |
| Line.WithinHalfAPixel | drivers/vesa.c:168-182 | every pixel lies within half a pixel of the ideal line along the shorter axis, in its own column or row |
| Line.NearestBetween | drivers/vesa.c:168-182 | the line stays in the rectangle between its end points |
| Line.BackwardsDiffersAtTies | drivers/vesa.c:168-182 | in every octant, drawing the other way lights the same pixel of a column or row if and only if the ideal line does not pass half way between two there |
| Line.TieExample | drivers/vesa.c:168-182 | between (0,0) and (2,1) the two directions light different middle pixels |
| Keyboard.CapsInvertsShift | drivers/keyboard.c:20-64 | on the two tables, caps lock and shift undo each other on letters and caps lock touches nothing else |
| Keyboard.ShiftCapitalizes | drivers/keyboard.c:20-64 | no key gives a capital without modifiers, and with shift every letter key gives its capital |
| Keyboard.KeyPositions | drivers/keyboard.c:20-34 | digits and letters stand where scan code set 1 has them |
| Keyboard.Driver.Handler | drivers/keyboard.c:36-73 | the in-place handler is the handler step of the machine |
| Keyboard.Driver.Read | drivers/keyboard.c:89-91 | once a character waits, delivers the oldest and removes exactly it |
| Keyboard.Driver.ReadWaiting | drivers/keyboard.c:85-92 | waits through exactly the interrupts that leave the ring empty, then delivers the oldest character |
| Keyboard.Driver.HasInput | drivers/keyboard.c:81-83 | tells whether a character is waiting |
| Keyboard.StepKeeps | drivers/keyboard.c:36-92 | every step, of either side, keeps the reader's slot intact; only an interrupt can add and only the last reader step delivers |
| Keyboard.ModifiersFollow | drivers/keyboard.c:40-51 | after any run shift is held exactly when the last shift event was a press, caps lock is on exactly after an odd number of presses |
| Keyboard.DeliveredInOrder | drivers/keyboard.c:66-92 | under every interleaving delivered plus waiting characters are the accepted ones in order, and at most 255 wait |
| Keyboard.LossOnlyWhenFull | drivers/keyboard.c:66-72 | nothing typed is lost if and only if no key press meets a full ring |
| RamFs.Ramfs.constructor | fs/ramfs.c:187-188 | an empty file system |
| RamFs.Init | fs/ramfs.c:187-200 | the file system starts with one file, the read-me, holding the welcome text |
| RamFs.Ramfs.Lookup | fs/ramfs.c:93-101 | the scan finds the first used slot of that name |
| RamFs.Ramfs.Create | fs/ramfs.c:103-127 | takes the first free slot when the name is new, and changes nothing otherwise |
| RamFs.CreateRefines | fs/ramfs.c:103-127 | for at most 63 characters: succeeds exactly when the name is new and a slot is free, adds one empty file, names stay unique |
| RamFs.LongNames | fs/ramfs.c:111 | for any name: findable afterwards exactly with at most 63 characters; names stay unique exactly when the stored part is new |
| RamFs.LongNamesCollide | fs/ramfs.c:103-127 | two names equal in 63 characters become two files of one name |
| RamFs.Ramfs.Delete | fs/ramfs.c:129-137 | frees the slot that is found, and changes nothing otherwise |
| RamFs.DeleteRefines | fs/ramfs.c:129-137 | succeeds exactly for an existing file and removes only that file |
| RamFs.Ramfs.Write | fs/ramfs.c:148-157 | stores at most 1024 bytes in the slot that is found, fails exactly for an unknown name |
| RamFs.WriteRefines | fs/ramfs.c:148-157 | a whole-file write replaces the contents of exactly one file of the map |
| RamFs.Ramfs.Read | fs/ramfs.c:139-146 | gives a prefix of the file, fails exactly for an unknown name |
| RamFs.Ramfs.ReadNode | fs/ramfs.c:12-25 | gives the window of the contents at the offset, empty at or behind the end |
| RamFs.ReadBack | fs/ramfs.c:17-24 | a window has the size asked for or what is left behind the offset, and the bytes from there |
| RamFs.Ramfs.WriteNode | fs/ramfs.c:27-44 | writes what fits below 1024, fails from 1024 on |
| RamFs.ClampIsBounded | fs/ramfs.c:33-36 | the clamped length stays inside exactly when offset plus size does not wrap |
| RamFs.RewriteRefines | fs/ramfs.c:27-44 | rewriting a used slot changes that one file of the map |
| RamFs.WriteIsOverlay | fs/ramfs.c:38-42 | a write is the zero-padded overlay if and only if it starts inside the file or the slot holds zeros in the gap |
| RamFs.StaleByteShows | fs/ramfs.c:38-42 | a slot written, deleted, created again and written behind its end shows a byte of the old file |
| RamFs.ReadAfterWrite | fs/ramfs.c:12-44 | any window read after a write shows the written bytes inside their range and the old ones outside |
| RamFs.Ramfs.ReadDir | fs/ramfs.c:46-58 | gives the used slot of that rank, nothing after the last |
| RamFs.LiveOnce | fs/ramfs.c:46-58 | counting up lists every live file exactly once, in slot order |
| RamFs.LiveCountsFiles | fs/ramfs.c:175-181 | with unique names there are as many entries as files, at most 64 |
| Paths.Tokenizer.Next | kernel/string.c:143-165 | the in-place cut yields the first token and leaves the remaining tokens; none when none is left |
| Paths.TokensArePieces | kernel/string.c:143-165 | the tokens are the non-empty pieces between slashes |
| Paths.SlashSeparates | kernel/string.c:143-165 | the tokens around a slash are those before it followed by those after it |
| Paths.ExtraSlashes | fs/vfs.c:63-83 | a run of slashes separates like one, and at either end does nothing |
| Paths.SpelledTokens | kernel/string.c:143-165 | spelling a list of names as a path and cutting it gives the list back |
| Paths.ParentAndLeaf | fs/vfs.c:173-183 | cutting a path at its last slash cuts off its last token, if it ends in one |
| VirtualFs.FindLastSlash | kernel/string.c:117-123 | the scan finds the last slash |
| VirtualFs.Vfs.constructor | fs/vfs.c:45-57 | a root directory without children beside nodes not yet mounted |
| VirtualFs.FoundIsFirst | fs/vfs.c:159-164 | a directory of any kind gives the first thing called by the name, and nothing exactly if it has none |
| VirtualFs.Vfs.FindChild | fs/vfs.c:24-32 | the sibling walk finds the first child of that name |
| VirtualFs.Index | fs/procfs.c:119-128 | the first entry of a fixed list with that name, none exactly if there is none |
| VirtualFs.Vfs.ReadChild | fs/vfs.c:12-22 | gives the child of that rank, nothing after the last |
| VirtualFs.Vfs.Lookup | fs/vfs.c:63-83 | the tokenizing loop follows the path's tokens from the root, for every path |
| VirtualFs.Vfs.Create | fs/vfs.c:166-192 | creates the leaf when the parent is a RAM directory, and changes nothing otherwise |
| VirtualFs.Vfs.Delete | fs/vfs.c:194-220 | deletes the leaf when the parent is a RAM directory, and changes nothing otherwise |
| VirtualFs.Vfs.Read | fs/vfs.c:138-143 | gives the window of the RAM file, or of the text made up for a node of the proc file system; fails for anything else |
| VirtualFs.Vfs.Write | fs/vfs.c:145-150 | writes into the RAM file, and fails for anything else |
| VirtualFs.WriteThenRead | fs/vfs.c:63-150 | after a write through one path, a path that leads to the same file reads the new contents, a path to another file what it held, and every path leads where it led |
| VirtualFs.Vfs.Mount | fs/vfs.c:85-121 | sets the links that put the node first under the parent directory, or makes it the root; keeps all lists when the node was not mounted |
| VirtualFs.OnePathChanges | fs/vfs.c:63-83 | when one name changes in the table, exactly the paths that spell it there change their meaning |
| VirtualFs.CreateSeen | fs/vfs.c:166-192 | after a create exactly the paths spelling the name lead to the new file, every other path means what it meant |
| VirtualFs.DeleteSeen | fs/vfs.c:194-220 | after a delete exactly the paths spelling the name lead nowhere, every other path means what it meant |
| VirtualFs.CreatedIsReachable | fs/vfs.c:166-192 | the created file is reached by its path if and only if the leaf has 1 to 63 characters |
| VirtualFs.NamelessIsUnreachable | fs/vfs.c:166-192 | after a file is created under the empty name every path means what it meant, and no path leads to the file |
| VirtualFs.CreateThenOpen | fs/vfs.c:123-192 | creating by a path and opening the same path, of any length, meets exactly when the leaf in the 255 characters read has 1 to 63 |
| VirtualFs.MountKeeps | fs/vfs.c:112-118 | mounting a node that is in no list keeps every sibling list finite, and no node stands in two places |
| VirtualFs.MountSeen | fs/vfs.c:85-121 | the mounted name leads to the node, shadowing an older child; no other lookup changes; a directory that is not the root's kind does not show it |
| VirtualFs.MountTwiceLoops | fs/vfs.c:116-118 | what is then found from the node on is a finite list if and only if it was not in that directory before |
| VirtualFs.Boot | kernel/main.c:105-113 | initialising and mounting "/ram" and "/proc" reaches the booted tree |
| VirtualFs.BootedRam | kernel/main.c:105-113 | on the booted tree exactly the tokens "ram" lead to the RAM directory |
| VirtualFs.OnlyThatPath | fs/vfs.c:166-220 | on the booted tree a path spells a created file if and only if it has the same tokens as the path it was created by |
| Calendar.Days | drivers/rtc.c:78-92 | the formula gives the days since 1 January 1970 counted year by year and month by month |
| Calendar.FormulaCounts | drivers/rtc.c:82-92 | for every valid date formula and count agree |
| Calendar.SuccessorIsOneMore | drivers/rtc.c:82-92 | the next date is one more, across month ends, leap days and centuries |
| Calendar.FormulaOrders | drivers/rtc.c:82-92 | day numbers order dates as the calendar does and no two dates share one |
| Calendar.NextSecondIsOneMore | drivers/rtc.c:92-95 | the next second is one more, across minutes, hours and midnight |
| Calendar.KnownDays | drivers/rtc.c:82-92 | days counted from 1 January 1970, with 29 February in 2000 and not in 2100 |
| Calendar.Ticks | drivers/rtc.c:75-95 | the result is 86400 times the day count plus seconds of day modulo 2^32, and that number itself exactly while it fits |
| Numerals.EmitDigits | kernel/string.c:214-218 | the do-while loop writes the numeral back to front |
| Numerals.ReverseInPlace | kernel/string.c:223-231 | the two-pointer loop reverses the range and leaves the rest |
| Numerals.Utoa | kernel/string.c:234-256 | the buffer holds the numeral in any base from 2 to 36 and its terminator, the empty string for another base, and nothing behind changes |
| Numerals.Itoa | kernel/string.c:203-232 | likewise with a minus sign in base 10, and as an unsigned 32-bit value in other bases |
| Numerals.Atox | kernel/string.c:184-201 | skips blanks and a prefix and reads hexadecimal digits modulo 2^32 |
| Numerals.Atoi | kernel/string.c:167-182 | skips blanks, takes a sign and reads decimal digits, for numbers in range |
| Numerals.ReadingNumeral | kernel/string.c:167-256 | reading a printed numeral in any base gives the number and stops right behind it |
| Numerals.NumeralDigits | kernel/string.c:203-256 | printed numerals consist of digits of the base and start with 0 only for zero |
| Numerals.DigitsInOrder | kernel/string.c:214-218 | the digits are 0 to 9 and a to z in order |
| Numerals.NumeralUnique | kernel/string.c:203-256 | the printed numeral is the only digit string without leading zeros that reads as the number |
| Numerals.NumeralLength | kernel/string.c:203-256 | a numeral has at most n digits exactly when the number is below the n-th power of the base |
| Numerals.DigitsNeeded | kernel/string.c:234-256 | 32-bit numbers need at most 32 digits in base 2, 10 in base 10, 8 in base 16 |
| Numerals.SignedDigitsNeeded | kernel/string.c:203-232 | signed 32-bit numbers need at most 11 characters in base 10 |
| Numerals.HexRoundTrip | kernel/string.c:184-256 | parsing the base-16 numeral of any 32-bit number gives the number |
| Numerals.HexPrefixed | kernel/string.c:184-201 | blanks and a prefix of either case before a base-16 numeral, and other characters behind it, change nothing |
| Numerals.DecRoundTrip | kernel/string.c:167-232 | parsing the signed decimal numeral of any number gives the number |
| Numerals.DecSigned | kernel/string.c:167-182 | blanks and a sign before a decimal numeral, and other characters behind it, leave its number with that sign |
| Numerals.PrintThenParseHex | kernel/string.c:184-256 | through the buffer: utoa then atox is the identity on all 32-bit numbers |
| Numerals.PrintThenParseDec | kernel/string.c:167-232 | through the buffer: itoa then atoi is the identity on all 32-bit numbers above the least |

## Left out

- RAM is one byte sequence held in a field and replaced on each store; the page allocator's
  bitmap and module list entries are kept beside it, not laid out as bytes in it.
- KernelHeap.Heap.Kmalloc: growth assumes what the code assumes, that the lowest free pages
  follow the arena; `KernelHeap.ServesExactly` says that nothing weaker is sound. Likewise
  `Krealloc` and module loading. Freed pointers must come from the heap. The panics on a bad
  magic number or exhausted memory at boot, and `kcalloc`, are not modelled.
- KernelHeap.Heap.constructor: assumes that the initial block ends inside the managed memory.
- VirtualMemory.Vmm.MapPage: reports a missing table page and stops, because the source goes
  on to clear and use address 0; callers that stop are the model's, not the source's. CR0,
  CR3 and TLB flushes are outside the model.
- ElfLoader.LoadSegments: assumes file sizes within memory sizes, as ELF demands, and no 32-bit
  wrap (`ElfLoader.WrappedEnd` says what a wrap does); the header table must lie inside the
  file, which the source does not check. It stops with its own result when a table page cannot
  be had.
- Module images are section records (headers, relocations and symbols already read from the
  file); reading those tables from bytes and the header check of the image are not modelled,
  nor are the calls of the module's entry points, which are taken to leave heap and list alone.
  The rewriting of symbol values in the input image is modelled on the values, for an image
  loaded once.
- The module list is a sequence: its links are not separate nodes, but the memory of each entry
  is allocated, cleared and freed on the heap.
- Process creation beyond the list, address spaces per process, the TSS, the switch to user
  mode, fork, exec and wait are not modelled; process ids and vruntime do not wrap.
- SchedulerSpec.RunFair: the population is fixed at the start; `SchedulerSpec.NewcomerKeepsFair`
  says exactly when a later process, at vruntime 0, keeps the bound.
- SchedulerSpec.BoundedWaiting: speaks of ticks only; processes leaving in between are covered
  by fairness but not by the bound.
- `sched_proc_remove` has no caller in the repository; `sys_waitpid` destroys without it, which is
  the case `ProcessTable.Table.Destroy` describes.
- VirtualFs.Vfs.Read: takes the text of a proc file as a parameter, and like `Vfs.Write` leaves out
  an offset and size whose sum wraps. Listings, `vfs_stat` and `vfs_list` are not modelled. The
  directory nodes are records with indices for links, in a sequence; parent links are never read
  and are left out. The proc file system is a directory with a fixed list of names.
- VirtualFs.Vfs.Create: assumes a leaf that fits its 128-byte buffer, and likewise for deleting
  and mounting.
- Line.Screen.DrawLine: assumes that no value on the way overflows 32 bits. Circles, rectangles
  and text are not modelled.
- Keyboard.Driver.Read: is the reader without its wait; the interleaving theorems use the separate
  reader steps.
- ProcessTable.Table.Destroy: the memory of the destroyed process is not taken away, so what the
  allocator does with it while a stale list still leads there is left out.
- RamFs.Ramfs.ReadNode: leaves out an offset and size whose sum wraps around, where the source
  copies past the file; `RamFs.ClampIsBounded` says exactly when that is.
- RamFs.Ramfs.WriteNode: leaves out the same wrap-around.
- Reading the clock chip, its BCD and 12-hour conversions are not modelled.
- Numerals.Itoa: leaves out the least 32-bit number in base 10, whose negation overflows in C.
- Numerals.Atoi: numbers out of range are left out, since they overflow in C.
- Port I/O, interrupt controllers, ACPI, PCI, ATA, the shell, procfs text, klog and the other
  scheduler in `sched/` are not modelled.
