# Verified model of the VK kernel's memory, file-system and process code

VK is a 32-bit x86 kernel written in C. This project models the parts of it that keep state with
real invariants, and proves what those parts are for:

- **Page tables and fork** (`PageTables`, `Physical`, `Paging`, `HeapUse`, `ForkHeap`, `CopyBuffer`, `ForkSpec`, `Fork`,
  `HeapViews`, `Processes`, with concrete runs in `ScenarioHeaps` and `Scenarios`). Directories and tables are words in frames; `Lookup` is the walk of the processor (section
  4.3 of the Intel SDM, volume 3A). The central invariant, `Sound`, says that a table frame sits in one slot number only
  and, below the kernel half, in one directory only. On it rest the mapping of ranges through 4 MiB and 4 KiB pages with
  the exact condition for its success, the fact that unmapping undoes mapping in every directory, and the isolation of
  the address space that `copy_adress_space` builds by way of buffers in the kernel heap, together with what it uses
  up, exactly when it returns and which bytes the child gets. Over every run of forks, mappings, unmappings, user stores
  and expansions of the heap, address spaces stay apart and every byte reads as its process last stored it.
- **Kernel heap** (`KHeapSpec`, `KHeapRuns`, `KHeap`, `HeapGrowth`). The headers live in the managed words themselves; the list of
  blocks read off them is proved to follow first fit, splitting, coalescing and growth exactly. The block list is a
  canonical form: it depends only on the blocks in use and the end of the heap. Over every run of calls and of stores by
  the owners of blocks, a load returns the last store.
- **Kernel virtual-memory list** (`KvmSpec`, `KvmHeap`), with its doubly linked nodes.
- **FAT32** (`Fat`, `FatRuns`, `LongNames`). The allocation table as a forest of chains, over whole runs of creating,
  extending and deleting files, and directories of long names cut into entries.
- **ext2** (`Ext2Read`, `Ext2Inodes`). The read walk with its request coalescing against a plain block map, and
  inode allocation over runs.
- **exec** (`ExecStack`): the argument and environment image on the new stack.
- **Clock** (`Clock`): civil dates and Unix time against section 4.16 of the POSIX.1-2017 Base Definitions.
- **Mutex** (`Mutex`): ownership, refusal and release under every interleaving of lock and unlock steps.

State that the source updates in place is held in classes and arrays; each method is proved against functions and
predicates on values, and the theorems are about those. `fatal_kernel_error` never returns, so a call that can reach it
has a result that says so (`false`, or `None`). Words are integers below 2^32 and wrap where the source wraps; flag and
mask operations are written as divisions and remainders by powers of two.

## What the code does and does not meet

Some laws one would expect do not hold everywhere. The code is modelled as it is and the exact condition is proved:

- An ext2 read that does not start on a block boundary fetches the file's bytes if and only if the blocks it touches are
  contiguous on the disk (`Ext2Read.ReadIsFileIff`; a concrete failure in `UnalignedReadFails`).
- `convert_to_std_time` follows POSIX exactly outside March to December 2000, where it is one day short, because its
  leap-year test is applied to years since 1900 (`Clock.StdIsPosixIff`, `TimeRoundTrip`, `DateRoundTrip`).
- `kvm_free_block` finds the area it is asked to free if and only if no empty area lies in front of it; an exact fit
  leaves such an area (`KvmSpec.FindIff`, `ShadowedFree`).
- `kmalloc` returns a block that holds the request if and only if the size is at most 0xFFFFFFFC, above which rounding
  up wraps to 0 (`KHeapRuns.KmallocCoversIff`; `KmallocWraps` is one such request).
- The copy inside `krealloc` stays in the new block if and only if the new size is at most 0xFFFFFFFC or the old block
  is no larger than what `kmalloc(0)` would return (`KHeapRuns.CopyFitsIff`; a concrete overrun in `KreallocOverruns`).
- The pieces of a long name are pasted inside the reader's buffer if and only if the name has at most 819 characters;
  beyond, one piece is read back as number 0 and goes 13 bytes below it (`LongNames.PastesInsideIff`, `PastesBelow`).
- `map_flexible` and `unmap_flexible` reach every byte asked for if and only if the size and the offset in the first page
  sum to at most 0xFFFFF000; beyond, the rounding leaves one page or none (`Paging.CoversIff`, `CountRounds`).
- `map_memory` of an aligned range above 4 MiB fails when the first block that fits does not start on a 4 MiB boundary;
  the exact condition is in `Paging.Mmu.MapMemory`, a concrete failure in `Paging.MisalignedFit`.
- `copy_adress_space` returns if and only if the page heap has a frame for the directory and for each slot with pages, first
  fit finds memory for one piece after the other, and the kernel heap need not grow while it runs, all computed
  before the call (`ForkSpec.Ample` in `Fork.CopyAddressSpace`). A list node for which there is no block sends
  `reserve_block` into a recursion without end (`HeapGrowth.NodeNever`); a buffer for which there is none lands past the
  end of the heap that the child knows, and the child faults on it (`HeapGrowth.GrowsPastEnd`,
  `ForkSpec.GrownBufferFaults`). With the heap at its boot size no space with a 4 MiB page can be copied
  (`ForkHeap.LargePageFails`; from boot in `Scenarios.LargeForkHalts`), after two expansions before the first process one can
  (`Scenarios.LargeForkReturns`), and every 4 MiB page copied leaves its buffer allocated (`ForkHeap.HeapCost`).
- `kheap_expand` gives each address space frames of its own for the new part of the heap, so that from then on no two of
  the spaces there see it alike (`HeapViews.MapChunk`, `ViewsDiffer`). A fork stores a page in its buffer through the
  parent and fetches it through the kernel's view, which the child has. Where the two are different frames the child
  gets what the kernel's frame held before, and the fork returns all the same (`ForkSpec.ForkMeaning` gives every byte;
  `Scenarios.StaleFork` is a run from boot). The child reads what its parent does, whatever is in memory, if and only
  if parent and kernel have every buffer in the same frames (`ForkSpec.TrueIff`); so it is for every space made since the
  heap last grew (`ForkSpec.AlikeIsTrue`, `Processes.Do`).
- `kmalloc` comes back if and only if the block is there, or the heap has nodes for mapping a further chunk in every
  address space and it comes back then (`HeapGrowth.ReturnsIff`; a heap on which no request ever does in `FullHeapHangs`).
- The store behind the loop of `fat32fs_free_cluster_chain` goes to entry 0 when the walk ends without an end mark, and
  otherwise to the end mark as an index, which is outside the table (`Fat.FreeClusterChain`; a concrete table in
  `FreeCircle`).
- The end mark that `fat32fs_create_dirent` writes goes one entry past the buffer when the new entries fill the directory
  exactly (`LongNames.CreateDirent`).

## Model

| member | source | states |
|---|---|---|
| PageTables.SetPte | memory/paging.c:152-157 | writing one table word moves one page of one directory (kernel pages: of the directories sharing the table) and keeps the no-sharing invariant |
| PageTables.SetPde | memory/paging.c:176-182 | writing 0 or a 4 MiB word moves exactly the 1024 pages of that slot of that directory |
| PageTables.NewTable | memory/paging.c:138-144 | hanging a zeroed free frame into an empty slot changes no translation of any directory and keeps the invariant |
| PageTables.NewDirectory | memory/paging.c:56-65 | a clone of the kernel half in a free frame joins the directories, moves none of them, and maps nothing below the kernel |
| PageTables.SetPteAside | memory/paging.c:152-157 | a table word moves other directories only behind the table they have in common |
| PageTables.NewTableAside | memory/paging.c:138-144 | a new table becomes common to no other directory |
| Physical.CarveFresh | memory/physical.c:105-121 | the frames of a reserved range were free and are the only ones that stop being free |
| Physical.CarveSorted | memory/physical.c:105-121 | splitting a block keeps the list sorted, disjoint and page-aligned |
| Physical.CarveRoom | memory/physical.c:96-127 | whichever block first fit carves, a block remains that holds what is left of a total that fitted one block |
| Physical.RoomIff | memory/physical.c:99-103 | a block can be had exactly if a free one from 1 MiB up is large enough |
| Physical.BootListOk | memory/physical.c:30-80 | a boot list with the kernel reserved and a firmware block ending at 4 GiB meets the conditions on the list |
| Paging.Mmu.Boot | memory/kheap.c:39-50 | the state after kheap_install, physmem_get and install_page_heap meets every invariant: no table shared, no user page, page 0xC0000 + k in frame k up to the end of the heap and nothing above |
| Paging.Mmu.PtAlloc | memory/kpageheap.c:50-64 | the lowest free frame, zeroed and marked; the fatal exit exactly when all are used |
| Paging.Mmu.AddTable | memory/paging.c:138-144 | a new table whose directory word is present, writable, and open to user code exactly if the directory is not the kernel's; the fatal exit exactly when the page heap is full; no translation changes |
| Paging.Mmu.MapPage | memory/paging.c:124-161 | exactly when it succeeds, and that then one page maps to the frame, present, writable, and open to user code exactly if the directory is not the kernel's, and nothing else moves |
| Paging.Mmu.MapPageTable | memory/paging.c:163-200 | exactly when it succeeds, and that then 1024 pages map to consecutive frames with those same rights and nothing else moves |
| Paging.Mmu.UnmapPage | memory/paging.c:202-226 | exactly when it succeeds; the page is then unmapped and nothing else moves |
| Paging.Mmu.UnmapPageTable | memory/paging.c:228-249 | exactly when it succeeds; the 1024 pages are then unmapped and nothing else moves |
| Paging.Mmu.MapLarge | memory/paging.c:265-273 | the 4 MiB loop maps the largest multiple of 1024 pages that leaves a rest; if it stops, the address or a slot was unsuitable |
| Paging.Mmu.MapSmall | memory/paging.c:275-280 | the 4 KiB loop maps every page of its range, none of which was mapped, and takes one frame for each empty slot; if it stops, one of three named causes holds |
| Paging.Mmu.MapFlexible | memory/paging.c:252-281 | succeeds exactly when alignment, free pages and slots, and frames for the missing tables are there; then every byte of the range asked for leads to physical plus its offset (unless the rounded size wraps), less than a page before and behind changes with it, the rights are those of the directory, exactly the frames for missing tables are taken, every other page and the user half of every other directory is unchanged |
| Paging.NeedNext | memory/paging.c:138-144 | the frames needed so far grow by one exactly at a page behind an empty slot |
| Paging.Mmu.UnmapLarge | memory/paging.c:296-304 | the 4 MiB loop succeeds exactly when every slot of its part of the range is in use, and clears that part and nothing else |
| Paging.Mmu.UnmapSmall | memory/paging.c:306-311 | the 4 KiB loop succeeds exactly when each page of its part is mapped small or behind an empty slot, over which the source returns silently; that part is then unmapped and nothing else moves |
| Paging.Mmu.UnmapFlexible | memory/paging.c:283-312 | exactly when it succeeds, mapped or not; no byte of the range asked for is then mapped, less than a page before and behind changes with it, and nothing else moves |
| Paging.MappedUnmappable | memory/paging.c:283-312 | a range that map_flexible has mapped meets the condition for unmapping |
| Paging.Mmu.MapThenUnmap | memory/paging.c:252-312 | mapping succeeds under its exact condition, unmapping then cannot fail, and the whole translation of every directory is back |
| Paging.CoversIff | memory/paging.c:255-257 | the rounded range holds all bytes asked for exactly if size and offset in the page sum to at most 0xFFFFF000 |
| Paging.CountRounds | memory/paging.c:255-257 | the number of pages, also where the sum wraps |
| PageTables.UsableMeans | memory/paging.c:138-157 | with the rights every operation keeps, the processor lets user code use exactly the user pages of a process, and none through the kernel's directory |
| Paging.RoundTrip | memory/paging.c:252-312 | a table in common with another directory survives mapping and unmapping, and the pages behind it are as they were |
| Paging.Mmu.IsMapped | memory/paging.c:422-433 | true exactly when the page walk finds a leaf |
| Paging.Mmu.GetPhysical | memory/paging.c:406-420 | the physical address of a mapped small page, 0 otherwise |
| Paging.Mmu.ReserveBlock | memory/physical.c:96-127 | the first fitting block from 1 MiB up is carved: it holds the bytes asked for and less than a page more, no frame below 1 MiB changes hands, and a node for the rest is taken from the heap; it returns exactly when a block fits and the heap has one for the node |
| Paging.Mmu.MapMemory | memory/paging.c:315-342 | returns exactly when a block fits, the heap has one for the list node and the range can be mapped to the start of the block; then every byte asked for leads into consecutive frames above 1 MiB that were free and no longer are, open to user code exactly outside the kernel's directory, and no user page of any directory uses a free frame or one of the kernel; each failure has its cause |
| Paging.MisalignedFit | memory/paging.c:324-332 | a concrete range that cannot be mapped because the first block that fits is misaligned |
| Paging.TakenBacked | memory/paging.c:324-341 | mapping freshly reserved frames keeps every user page off the free frames and off those of the kernel |
| HeapUse.TakeIsMalloc | memory/kheap.c:82-113 | what paging takes from the heap is what kmalloc returns when no expansion is needed |
| HeapUse.TakeThenFree | memory/kheap.c:61-142 | a block taken without growth and freed again leaves the heap as it was |
| HeapUse.PieceCost | memory/paging.c:83-115 | a copied 4 KiB page leaves one block in use, a 4 MiB page two, one of them of 4 MiB |
| HeapUse.BootTooSmall | memory/paging.c:85-85 | with its boot size the heap has no block for a 4 MiB buffer, whatever is in use |
| ForkHeap.HeapCost | memory/paging.c:73-118 | a copy leaves one list node per piece and one buffer per 4 MiB page in the heap, loses nothing that was in use, and the heap has not grown |
| ForkHeap.HeapSuffices | memory/paging.c:73-118 | one free block for all nodes, 4 MiB buffers and a small buffer is enough |
| ForkHeap.PhysSuffices | memory/physical.c:96-127 | one free block for all pages is enough, whatever blocks first fit picks |
| ForkHeap.ReplayPiece | memory/paging.c:73-118 | going over the slots piece by piece, each mapped 4 KiB page or 4 MiB page takes its share of a list exactly once |
| ForkHeap.LargePageFails | memory/paging.c:77-92 | while the heap has its boot size no space with a 4 MiB page can be copied |
| Scenarios.LargeForkHalts | memory/paging.c:77-92 | from boot: a process with a 4 MiB page cannot be forked |
| Scenarios.LargeForkReturns | memory/paging.c:77-92 | from boot, with two expansions before the first process: a process with a 4 MiB page is forked and every byte reads alike |
| Scenarios.StaleFork | memory/paging.c:102-113 | from boot, with an expansion while the process is there: the fork returns, the parent reads 65 and the child 0 |
| CopyBuffer.PutPiece | memory/paging.c:87-90 | a page stored in the buffer, across two frames, is read back, and the pages before it are kept |
| CopyBuffer.FetchedPiece | memory/paging.c:87-90 | a page stored through one view of the buffer and fetched through another: its own bytes where the frames agree, and elsewhere what the frame fetched from held |
| CopyBuffer.BlockSeen | memory/paging.c:56-65 | every directory has a heap block in distinct frames of the kernel |
| CopyBuffer.BlockViews | memory/kheap.c:219-225 | two directories have each page of a heap block in the same frame, or in frames that no page of the block shares |
| ForkSpec.CopyPages | memory/paging.c:105-113 | one mapped and copied piece extends the finished part of the child: the same pages with what came through the buffer, fresh distinct frames, nobody else touched |
| ForkSpec.SkipPages | memory/paging.c:75-99 | pages the parent lacks are rightly skipped |
| ForkSpec.ForkMeaning | memory/paging.c:67-122 | a finished copy: the byte the child reads at every user address, computed from the state before; every older process reads what it read, and no user frame is shared |
| ForkSpec.TrueByte | memory/paging.c:87-90 | a page that parent and kernel pass through the same frames arrives as it was |
| ForkSpec.TrueIff | memory/paging.c:87-90 | the child reads what its parent does, whatever is in memory, exactly when parent and kernel have every buffer in the same frames |
| ForkSpec.AlikeIsTrue | memory/paging.c:56-65 | a parent that sees the heap as the kernel does is copied truly |
| ForkSpec.WritesArePrivate | memory/paging.c:67-122 | stores through user pages change no translation, and in one of two spaces without common frames they are invisible in the other |
| ForkSpec.BudgetCopy | memory/paging.c:81-115 | one copied piece uses one frame if its slot was empty, and of the physical list and the kernel heap what the replay of first fit says |
| ForkSpec.BudgetAllows | memory/paging.c:67-122 | while the replays of both lists go on to the end and frames are left, the next piece can be copied |
| ForkSpec.BudgetSpent | memory/paging.c:67-122 | a finished copy has taken one frame for the directory and one per slot of the parent with pages, both lists are those computed beforehand, and the means were ample |
| ForkSpec.HeapStays | memory/paging.c:56-65 | a copy moves no view of the heap, and the child sees it as the kernel does |
| ForkSpec.GrownBufferFaults | memory/paging.c:85-91 | if the heap grows for the buffer, with the nodes that takes, the buffer has a page that the child does not have |
| Fork.GetKernelPdClone | memory/paging.c:56-65 | a new directory with the kernel half of kernel_page_directory and an empty user half, at the cost of one frame; none exactly when the page heap is full |
| Fork.CopyOut | memory/paging.c:87-88 | the pages of the parent are in the buffer, seen through the parent; no frame outside the buffer changes |
| Fork.CopyIn | memory/paging.c:89-90 | the pages of the child hold what the buffer, seen through the child, holds |
| Fork.CarryPages | memory/paging.c:85-91 | both copies, with the directories switched: what arrives, byte for byte, through two views of the buffer |
| Fork.BufferFrames | memory/paging.c:85-90 | the frames in which parent and child see the buffer: each view injective, page by page equal or apart, and none of them backs a copied page |
| Fork.CopyRange | memory/paging.c:81-115 | map_memory, the buffer and the two copies through the switched directories do one such piece, for 4 KiB pages and 4 MiB pages alike and whatever the two views of the buffer; it returns exactly when first fit finds the piece, a frame is there for a missing table, and the heap has blocks for node and buffer |
| Fork.CopyAddressSpace | memory/paging.c:67-122 | fork isolation for any mix of page sizes: returns exactly when frames, memory and heap suffice by a replay of first fit; every byte of the child is known, equal to the parent's where the buffers are seen alike; user code of the child may use exactly the pages the parent has; parent and other processes unchanged, disjoint user frames, current directory restored, exactly the frames, memory and heap computed beforehand used |
| HeapViews.MapChunk | memory/kheap.c:219-225 | succeeds exactly when there are a chunk of memory by first fit, a list node and a page-heap frame for each space; then each address space has frames of its own for the new chunk, a space not listed has none, and nothing else moved |
| HeapViews.ChunksSuffice | memory/kheap.c:219-225 | one free block that holds all chunks is enough |
| HeapViews.ExpandHeap | memory/kheap.c:208-233 | with every process listed: succeeds exactly below the limit and with means for each space; all spaces then have the larger heap in frames of the kernel that were free, the heap has grown after giving up its nodes, no user page moved, and no process there sees the chunk in the kernel's frames |
| HeapViews.ViewsDiffer | memory/kheap.c:219-225 | no two spaces see any page of the new chunk in the same frame |
| Processes.StoreReads | memory/paging.c:67-122 | a user store changes the byte it is meant for and no other byte of any process |
| Processes.StepKeeps | memory/paging.c:67-342 | fork, map_memory, unmap_flexible, stores and expansions of the heap keep all spaces apart and every byte as last stored |
| Processes.RunsStayPrivate | memory/paging.c:67-342 | over every run any two spaces are apart, and every byte reads as its process last stored it, or as its parent had before the fork where the page was copied truly, as all pages of a space made since the last expansion are |
| Processes.BootWorld | memory/kheap.c:39-50 | the runs start from the boot state |
| Processes.Do | memory/paging.c:67-342 | each call on the kernel state takes such a step, and returns exactly under its condition; spaces made since the last expansion see the heap as the kernel does, and user code may use exactly the user pages of its own space |
| KHeapSpec.FirstFit | memory/kheap.c:69-117 | the index of the first free block that is large enough |
| KHeapSpec.CarveTiles | memory/kheap.c:88-105 | taking and splitting a block keeps the headers tiling the heap with no two free neighbours |
| KHeapSpec.CarveUsed | memory/kheap.c:88-105 | the blocks in use are the old ones and one new one, large enough, at the address of the block taken |
| KHeapSpec.MergeTiles | memory/kheap.c:168-206 | merging yields a tiling of the same range with no two free neighbours |
| KHeapSpec.MergeUsed | memory/kheap.c:168-206 | merging keeps exactly the blocks in use |
| KHeapSpec.Canonical | memory/kheap.c:168-206 | two coalesced tilings of a range with the same used blocks are equal, so history does not matter |
| KHeapRuns.GrowInv | memory/kheap.c:208-233 | an expansion keeps the invariant, including the end below FREE_KVM_START, and the blocks in use |
| KHeapRuns.MallocInv | memory/kheap.c:61-127 | a successful kmalloc, through any number of expansions, adds exactly one live block of sufficient size and keeps the invariant |
| KHeapRuns.FreeInv | memory/kheap.c:129-142 | kfree removes exactly that live block and keeps the invariant |
| KHeapRuns.MallocWithin | memory/kheap.c:118-123 | a request succeeds within n expansions when n chunks and the free top hold it and fit below FREE_KVM_START |
| KHeapRuns.RunsAreGood | memory/kheap.c:61-233 | after every run of kmalloc, kfree, krealloc and stores the heap is tiled and coalesced, the live pointers are those handed out, each with room for what was asked, and stored words lie in live blocks |
| KHeapRuns.LastStore | memory/kheap.c:61-233 | over every run a load returns the last store, unless the block was freed or moved since |
| KHeapRuns.LiveDisjoint | memory/kheap.c:61-127 | in such a state live payloads are pairwise disjoint and inside the heap |
| KHeapRuns.AllFreed | memory/kheap.c:129-142 | once everything is freed, in any order, one free block of end - start - 8 bytes remains |
| KHeapRuns.RoundingCovers | memory/kheap.c:64-65 | the rounded size covers the request, with less than 4 bytes to spare, exactly up to 0xFFFFFFFC, above which it is 0 |
| KHeapRuns.KmallocCoversIff | memory/kheap.c:61-127 | the block kmalloc returns holds the request exactly up to 0xFFFFFFFC |
| KHeapRuns.KmallocWraps | memory/kheap.c:64-65 | kmalloc(0xFFFFFFFD) at boot returns a block of no bytes |
| KHeapRuns.ZeroFits | memory/kheap.c:82-105 | the size of the block that a request of 0 gets |
| KHeapRuns.CopyFitsIff | memory/kheap.c:152-166 | the copy of krealloc stays in the new block exactly under a condition on the sizes before the call |
| KHeapRuns.KreallocOverruns | memory/kheap.c:152-166 | a concrete call that copies 16 bytes into a block of none |
| KHeap.KernelHeap.constructor | memory/kheap.c:39-56 | the boot heap: one free block over the first 4 MiB |
| KHeap.KernelHeap.MergeFreeBlocks | memory/kheap.c:168-206 | the in-memory walk performs Merge and touches no payload in use |
| KHeap.KernelHeap.Expand | memory/kheap.c:208-233 | performs Grow, or the fatal exit exactly at FREE_KVM_START; no payload in use changes |
| HeapGrowth.NodeNever | memory/physical.c:105-109 | without a block for the list node the recursion of kmalloc, kheap_expand and reserve_block never ends |
| HeapGrowth.ReturnsIff | memory/kheap.c:118-124 | kmalloc comes back exactly under a condition on the heap before the call |
| HeapGrowth.GrowsPastEnd | memory/kheap.c:118-124 | a block for which the heap has to grow, list nodes and all, reaches past its old end |
| HeapGrowth.FullHeapHangs | memory/kheap.c:208-233 | a concrete heap on which no request comes back |
| KHeap.KernelHeap.Kmalloc | memory/kheap.c:61-127 | terminates, performs Malloc on the headers in memory, and touches no payload in use |
| KHeap.KernelHeap.Kfree | memory/kheap.c:129-142 | performs Free and touches no payload that stays in use |
| KHeap.KernelHeap.Krealloc | memory/kheap.c:152-166 | where the copy fits, the new block starts with the old contents, the old block is freed, every other live payload is kept; the fatal exits |
| KHeap.Do | memory/kheap.c:61-233 | one call or store on the heap in memory takes the step of the run, and every stored word is still there |
| KHeap.Execute | memory/kheap.c:39-233 | every legal run on the heap in memory: the headers are those of the run, every word reads as its owner last stored it, through allocation, merging and krealloc; it halts exactly when the run does |
| KvmSpec.SplitInv | memory/kvmheap.c:55-71 | a reservation keeps the areas tiling [FREE_KVM_START, 0xFFFFFFFF), page-aligned, with no two free neighbours |
| KvmSpec.TakenArea | memory/kvmheap.c:48-75 | the area holds the bytes asked for and less than a page more, unless rounding wraps |
| KvmSpec.FreeInv | memory/kvmheap.c:84-104 | freeing with merging both ways keeps the same |
| KvmSpec.FindIff | memory/kvmheap.c:79-82 | lookup by address finds an area exactly when no empty area is in front of it |
| KvmSpec.ReserveFree | memory/kvmheap.c:48-110 | freeing what was just reserved restores a list without empty areas, exact fits included |
| KvmSpec.RunsKeepInv | memory/kvmheap.c:48-110 | the invariant holds after every run of calls |
| KvmSpec.ShadowedFree | memory/kvmheap.c:77-110 | a concrete run after which a reservation cannot be freed |
| KvmHeap.KvmList.constructor | memory/kvmheap.c:33-46 | the boot list |
| KvmHeap.KvmList.Reserve | memory/kvmheap.c:48-75 | first fit on the linked nodes: the list becomes the split list, next and prev stay inverse; the fatal exit; the area holds the bytes asked for and less than a page more, unless rounding wraps |
| KvmHeap.KvmList.FreeBlock | memory/kvmheap.c:77-110 | the first node at the address is freed and merged, next and prev stay inverse; the fatal exit |
| KvmHeap.KvmList.Absorb | memory/kvmheap.c:89-91 | one merging step unlinks exactly the successor |
| Fat.NoRepeat | filesystem/fat32.c:656-683 | a chain that reaches an end mark is acyclic |
| Fat.LinkIs | filesystem/fat32.c:656-683 | a link is what the low 28 bits of an entry say |
| Fat.ChainsAgree | filesystem/fat32.c:656-683 | two chains that meet agree from there to the end |
| Fat.GmFreeClusters | filesystem/fat32.c:723-746 | the n lowest free clusters, each linked to the one below, the lowest to the end mark; every other entry unchanged |
| Fat.NewChain | filesystem/fat32.c:723-746 | allocation adds a disjoint chain, in descending order, to the forest of files |
| Fat.GetClusterChain | filesystem/fat32.c:641-689 | every walk that comes to an end, at an end mark or at a 0 link, is returned in order |
| Fat.FreeClusterChain | filesystem/fat32.c:694-713 | terminates on every table with links in range, cycles included, and zeroes exactly the clusters reachable from its start, and entry 0 exactly when the walk comes to no end mark |
| Fat.FreeCircle | filesystem/fat32.c:701-713 | freeing a circle of clusters clears entry 0 |
| Fat.LastLink | filesystem/fat32.c:701-713 | where the store behind the loop goes |
| Fat.Closed | filesystem/fat32.c:701-712 | once the walk ends or meets a cleared cluster it has met everything it can reach |
| Fat.ReachesChain | filesystem/fat32.c:701-712 | from the head of a chain exactly its clusters are reachable |
| Fat.DeleteFile | filesystem/fat32.c:694-713 | freeing one file clears exactly its clusters and leaves a sound volume of the others |
| Fat.CreateFile | filesystem/fat32.c:620-620 | a new file gets the lowest free clusters, every other entry is unchanged and the volume stays sound |
| Fat.Spliced | filesystem/fat32.c:496-496 | pointing the last cluster of one chain at another appends it |
| Fat.SpliceForest | filesystem/fat32.c:1015-1039 | splicing keeps the forest: the extended file and all others as before |
| Fat.ExtendFile | filesystem/fat32.c:463-499 | walk, allocate and splice extend one file by the lowest free clusters; exactly those entries and the last link change, and the volume stays sound |
| FatRuns.StepKeeps | filesystem/fat32.c:463-499 | creating, extending and deleting keep the volume sound, and the clusters free or in a file are the same ones |
| FatRuns.RunsKeepVolume | filesystem/fat32.c:694-746 | over every run chains stay acyclic, end-terminated, disjoint and in range, and no cluster is lost or conjured up |
| FatRuns.OtherFilesStay | filesystem/fat32.c:694-746 | a file that no call names lists the same clusters at the end |
| FatRuns.FreeOrHeld | filesystem/fat32.c:723-746 | no cluster is both free and in a file |
| FatRuns.Execute | filesystem/fat32.c:694-746 | every legal sequence of calls on the table in memory is such a run |
| Fat.AllocateWalkFree | filesystem/fat32.c:641-746 | the walk after an allocation lists the n lowest free clusters downwards, and freeing makes exactly those free again |
| LongNames.NumbersIff | filesystem/fat32.c:1098-1098 | each entry is read back under its own number exactly for at most 63 entries |
| LongNames.NumberIs | filesystem/fat32.c:296-296 | reading an order byte clears bit 6 and keeps the others |
| LongNames.OrderBytesSafe | filesystem/fat32.c:287-296 | no order byte in use looks like an end or a deleted mark |
| LongNames.WriteEntries | filesystem/fat32.c:1085-1111 | entry j holds piece needed - j of the memory at the name; other entries unchanged |
| LongNames.PastesInsideIff | filesystem/fat32.c:298-317 | all pieces are pasted inside the buffer exactly for names of at most 819 characters |
| LongNames.PastesBelow | filesystem/fat32.c:311-317 | a piece read back as number 0 goes 13 bytes below the buffer |
| LongNames.Collect | filesystem/fat32.c:289-320 | one round of the loop puts one piece in its place, in bounds, in a buffer with a final NUL |
| LongNames.ListDir | filesystem/fat32.c:284-336 | the loop with its end, deleted and attribute tests lists exactly the names of the directory, in order: one for each entry before the end mark that is neither deleted nor a piece of a name |
| LongNames.NamesPerFile | filesystem/fat32.c:284-336 | there is one name per file entry, the long one exactly where a piece stands in front |
| LongNames.CreateDirent | filesystem/fat32.c:918-1111 | the new entries follow those already there and the directory has one name more; where the end mark goes, inside the buffer or one entry past it |
| LongNames.NameRoundTrip | filesystem/fat32.c:284-336 | for every name of 1 to 819 bytes, whatever follows it in memory, listing the directory after creating it gives the names that were there and the new one |
| Ext2Read.QueueRead | filesystem/ext2.c:784-801 | the newest request grows exactly when the new one continues it on disk and in the buffer, otherwise a request is added |
| Ext2Read.MatchMeansNext | filesystem/ext2.c:789-789 | continuing means that the block is the next one on the disk |
| Ext2Read.QueueMerged | filesystem/ext2.c:789-793 | a grown request still fetches every byte from where it is wanted |
| Ext2Read.QueueAppended | filesystem/ext2.c:797-800 | an added request does too |
| Ext2Read.WalkPointers | filesystem/ext2.c:610-630 | a pointer loop queues the blocks in order, stops at a hole, and hands on the block counter |
| Ext2Read.WalkDouble | filesystem/ext2.c:648-688 | the doubly indirect loops queue what the block map says, across skipped and finished inner blocks; an error names a hole or a pointer block on the way |
| Ext2Read.WalkBlocks | filesystem/ext2.c:573-690 | direct, single and double indirect walk with the carried counter queue the blocks of the block map; it succeeds exactly when no block or pointer block on the way is a hole or off the disk |
| Ext2Read.Send | filesystem/ext2.c:764-774 | executing the requests fills the buffer from the wanted addresses, and fails only when one lies off the disk |
| Ext2Read.InodeReadContent | filesystem/ext2.c:552-779 | succeeds exactly when the length covers the range and everything on the way is mapped and on the disk; the buffer then holds the planned bytes, which for an aligned start or contiguous blocks are those that the pointers on the disk lead to from the start of the partition; bytes past size are untouched |
| Ext2Read.PlanIsFile | filesystem/ext2.c:552-690 | where the plan is the file, the buffer holds the file exactly when it holds the plan |
| Ext2Read.LocatedIff | filesystem/ext2.c:602-690 | the block map is the one written on the disk: pointer words lowest byte first, blocks counted from the start of the partition |
| Ext2Read.HoldsStored | filesystem/ext2.c:552-779 | a buffer that holds the file holds, byte for byte, what that layout gives |
| Ext2Read.ReadIsFileIff | filesystem/ext2.c:552-690 | the planned addresses are those of the file exactly when the start is block-aligned or the blocks are contiguous |
| Ext2Read.UnalignedReadFails | filesystem/ext2.c:585-588 | a concrete read that succeeds and delivers a byte of block 6 where the file goes on in block 9 |
| Ext2Inodes.MarkFirstZeroBit | filesystem/ext2.c:1498-1518 | the bitmap as a number ends in n ones behind a zero and rises by 2^n, or consists of ones and stays |
| Ext2Inodes.BitOfNumber | filesystem/ext2.c:1506-1507 | bit n of the bitmap is the n-th binary digit of its number |
| Ext2Inodes.FirstZeroIff | filesystem/ext2.c:1500-1512 | bit n is the lowest zero exactly if the number ends in n ones behind a zero |
| Ext2Inodes.InodeTable.InodeAlloc | filesystem/ext2.c:1225-1268 | the lowest zero bit of the first group that has one is taken and both counters drop; 0 exactly when all groups are full |
| Ext2Inodes.AllocKeeps | filesystem/ext2.c:403-411 | counters stay equal to zero-bit counts; division and remainder by inodes_per_blockgroup find the bit just set |
| Ext2Inodes.AllocFrames | filesystem/ext2.c:1244-1251 | no other inode changes between free and used |
| Ext2Inodes.RunKeepsInv | filesystem/ext2.c:1225-1268 | over every run the counters agree with the bitmaps and fall by one per call |
| Ext2Inodes.NeverTwice | filesystem/ext2.c:1225-1268 | over every run no inode number is returned twice |
| ExecStack.PushTexts | tasking/processes/process.c:92-98 | the strings lie on the stack at the remembered addresses |
| ExecStack.PushPointers | tasking/processes/process.c:100-107 | the pointer array, closed by null, leads to the strings in order |
| ExecStack.WordAtIs | tasking/processes/process.c:100-107 | a word on the stack is its four bytes, lowest first |
| ExecStack.BuildStack | tasking/processes/process.c:88-147 | argc, argv, envc and env decoded from the final stack pointer are the lists given |
| ExecStack.CopyList | tasking/processes/syscalls.c:456-475 | the growing kernel copy holds the caller's strings in order, null-terminated, within its capacity |
| ExecStack.Exec | tasking/processes/syscalls.c:455-503 | what the new program decodes is what the old one passed, for all lists that fit the stack |
| Clock.YearLength | time/time.c:122-137 | the closed form of the year starts steps by 365 or 366 days as the calendar says |
| Clock.ConvertToStdTime | time/time.c:100-140 | month switch and year loop sum to the closed form |
| Clock.StdIsPosixIff | time/time.c:117-117 | equal to the POSIX formula exactly outside March to December 2000, a day short inside |
| Clock.CycleYear | time/time.c:153-161 | 1461-day cycles from the shifted 1900 give the calendar year and day |
| Clock.ConvertToReadableTime | time/time.c:142-178 | for every 32-bit time from 1970 on, the valid date whose POSIX time it is |
| Clock.PosixInjective | time/time.c:142-178 | a time determines its valid date |
| Clock.TimeRoundTrip | time/time.c:100-178 | time to date and back is the identity exactly outside March to December 2000 |
| Clock.DateRoundTrip | time/time.c:100-178 | date to time and back is the identity exactly outside March to December 2000 |
| Clock.FirstOfMarch2000 | time/time.c:117-117 | a concrete date that comes out a day short |
| Mutex.StepInv | sync/mutex.s:20-75 | a process past a matching load in mutex_unlock is the owner, whatever step is taken |
| Mutex.OwnerStays | sync/mutex.s:59-64 | only the owner's own unlock store ends its ownership |
| Mutex.HolderOwns | sync/mutex.s:20-75 | in every interleaving, from a successful lock until its own unlock store a process is the owner |
| Mutex.NobodyElseLocks | sync/mutex.s:20-56 | meanwhile no lock by another process succeeds |
| Mutex.OwnerHolds | sync/mutex.s:20-75 | whoever stands in the field has locked the mutex and not released it since |
| Mutex.RefusedIff | sync/mutex.s:31-56 | a lock is refused exactly when another process has locked the mutex and not yet released it |
| Mutex.ReleasedThenTaken | sync/mutex.s:59-64 | the store of an unlock frees the mutex, and the next lock, by whomever, gets it |
| Mutex.TurnedAwayIff | sync/mutex.s:59-75 | an unlock is turned away exactly when its process did not hold the mutex at its load |
| Mutex.ReadyIff | sync/mutex.s:20-75 | a process can begin a lock or an unlock exactly when it is not inside an unlock |
| Mutex.Handover | sync/mutex.s:20-75 | a whole round between any two processes, with every return value |
| Mutex.HolderUnlocks | sync/mutex.s:58-64 | an unlock begun by the owner reaches its store, whatever the others do |

## Left out

- Kernel heap memory is modelled by 4-byte words, since every header, size and payload address is 4-aligned; the words a new mapping brings in are arbitrary but fixed in advance.
- KHeap.KernelHeap.Krealloc: calls whose copy would overrun the new block are excluded, by the exact condition `CopyFits`; what such a copy does to the block behind is not modelled.
- KHeap.KernelHeap.Kfree: only live pointers are freed; the magic test cannot tell other stale headers apart.
- KHeap.KernelHeap.Expand: the mapping of the new chunk is one step there; the nodes it allocates from the heap are modelled in `HeapGrowth` and the frames it takes in `HeapViews`. The heap traffic of the remaining modules is not charged to the kernel heap.
- HeapGrowth.ReturnsIff: physical memory for the chunks is taken as available; what it takes is in `HeapViews.MapChunk`.
- HeapViews.ExpandHeap: every space in existence is that of a listed process; an expansion while a child is being made is covered by `ForkSpec.GrownBufferFaults` only.
- The links of the physical block list are modelled by the order of a sequence; the linked form is proved for the structurally equal virtual-memory list. `free_block` and `reserve_specific` are not modelled: the list starts as boot leaves it.
- Paging: `cpu_pse` is taken as true, since the other branch of `map_page_table` writes through a table pointer it has not relocated. TLB invalidation and cr3 loads are reduced to the current directory. Only the flags of the leaf entry count as access.
- Paging.Mmu.GetPhysical: 4 MiB entries are excluded, because the source dereferences the entry itself there.
- Fork.CopyAddressSpace: requires that no mapped user frame is still marked free or belongs to the kernel, and that every space has the heap in frames of the kernel; boot establishes both, and forking, mapping fresh memory, unmapping and expanding the heap keep them (`Processes.Do`).
- Processes.Do: processes map and unmap user addresses only; a store to an unmapped page, which would fault, is excluded.
- `pt_free`, `map_memory_if_not_mapped`, `unmap_memory_if_mapped`, `sbrk` and page faults: they add no new invariant.
- Fat.FreeClusterChain: what the store behind the loop hits when its index is an end mark, outside the table, is not modelled.
- FatRuns.Execute: calls that name no file or ask for more clusters than are free are excluded; the driver does not test for them.
- LongNames.CreateDirent: the search for a name already in use and the 8.3 name are left out, and the directory has room for the new entries: the branch that adds a cluster to it is not modelled.
- Fat.GmFreeClusters: requires nonzero entries 0 and 1 and enough free clusters, without which the scan leaves the table.
- FAT32 file data, directory deletion, 8.3 names and writing the table back to disk.
- Ext2Read.InodeReadContent: stops before the triply indirect pointer, whose loop indexes with a counter left over from the loop before; a size of 0 is excluded, because it writes a request into an array of no elements. The disk either has a sector or reports an error, the same each time.
- Ext2Read.Send: the source tests the bound after reading the element one past the end of a full request array.
- ext2 writing, block allocation, inode freeing and directories.
- ELF loading and the process structures around exec; user memory is a list of strings.
- Clock.ConvertToStdTime: computes without a width; its result fits 32 bits for dates up to 19 January 2038. CMOS access is not modelled.
- Mutex: the waiting list and the wake-up call, and the interrupt flag restored at the end of mutex_lock.
- Drivers, scheduler, VFS, terminals, signals and the other parts of the kernel.
