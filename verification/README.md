# Memory of a 32-bit kernel, verified

A model of the memory subsystem of the kernel in this repository, from the frame
bitmap up to the two heaps, with the proofs that the layers agree with each other
under every run of calls. The text screen and the number printer and parser are
modelled beside it.

The layers, each a file named after what it holds:

- `Layout`, `Bits`, `Pmm`: the address plan and the frame bitmap. The bitmap is
  32768 words changed in place; it refines a finite set of free frames.
- `Bytes`, `Mmu`: the machine below the kernel. Physical memory is 2^30 words, the
  walk is the two-level walk of section 4.3 of the Intel SDM volume 3A, and every
  access, of a word or of a byte, goes through a translation cache that is filled
  only by the accesses made.
- `PageTables`, `Paging`, `PageDump`: the page operations. The code never touches
  a table by its physical address: each read and write of an entry is a virtual
  access through the recursive window, translated by the tables it edits. A ledger
  names the one holder of every frame.
- `Blocks`, `HeapState`, `Heap`: the first-fit heap. `Blocks` is the pure theory of
  a tiling; `Heap` runs the code, with its 8-byte headers stored in memory that is
  reached through the page tables.
- `Boot`, `KernelState`, `Trace`, `Kernel`, `KernelInit`: the boot tables, the init
  order, both heaps over one paging layer, page faults, and every run of calls with
  what its trace says of memory.
- `Vga`, `Klib`: the scrolling terminal with three screens over one buffer, and the
  decimal printer with its parser.

`dafny verify dfyconfig.toml` checks all of it.

## Main results

1. From the first instruction through any sequence of calls, the kernel stays valid
   and its trace of calls and answers tells the truth (`KernelInit.BootAndRun`,
   `Kernel.Kernel.Run`). Each answer was the one owed in the state the call found
   (`Trace.Owes`), so null appears only where nothing could be had
   (`Trace.NullMeans`). Each pointer answered was not live and its block overlapped
   no live block; each byte read was the last one stored there. At the end every
   pointer that was not freed still has the block it was granted, no smaller than
   the size asked for, and memory holds every byte stored behind it.
2. In every valid state each counted frame has exactly one of six holders
   (`OneHolder`), kmalloc memory is physically contiguous (`PhysicallyContiguous`),
   live blocks are disjoint, aligned and mapped (`LiveBlocks`), user code reaches
   only user space (`UserReach`) and each page of the kernel window is writable
   exactly when it holds neither code nor read-only data (`ImageProtected`).
3. Boot succeeds exactly for the memory maps that leave a block to carve, the block
   has the size and place the inputs fix, and what comes up is valid exactly for the
   maps that leave a safe one (`KernelInit.Init`).
4. The page operations, run as virtual writes through the window, refine updates of
   a plain map from page to entry. A refusal changes nothing, and after every
   operation each cached translation is the one a walk would find.
5. The search that merges as it goes agrees with a pure specification: merge every
   maximal run of free blocks, then take the lowest that fits. That holds before and
   after growth.
6. At most 256 page faults are recovered in any run, with at most 257 frames.
7. The screen after a clear shows the last 25 rows of the text laid out on an
   endless page, and one buffer with save slots is three independent terminals.

## Where the code and its promises differ

The kernel is built without overflow checks, so 32-bit sums wrap.

- `pmm::init` rounds a region's base up with a 32-bit sum. For a region that starts
  above 0xFFFFF000 the sum wraps to zero and all memory is taken for free.
  `Pmm.RegionRoundsInward` says the rounding is right if and only if the base is at
  most 0xFFFFF000, and `Pmm.WrappedRegion` shows a region that fails.
- `frame_for` compares a 32-bit sum with the end of the carved block. When the block
  ends at 0xFFFFF000 and does not fill the kmalloc range, the sum wraps. The page
  after the block gets the last frame of the 32-bit space, and the pages after that
  get frame 0, frame 1 and so on: low memory and the kernel image.
  `Heap.ContiguousFrameStaysInside` gives the exact condition on the block and
  `Heap.FramesAfterBlock` the frames handed out. `KernelInit.SafeBlock` is the
  condition on the memory map, `KernelInit.UnsafeMap` a map that fails it, and
  `KernelInit.LowMapIsSafe` the common case that meets it.
- `used_frames` subtracts in 32 bits, which is right if and only if every free frame
  was counted (`Pmm.Pmm.UsedFrames`). In every run it is (`FramesInUse`).
- The read-only part of the image is protected at its own addresses only. The low
  window maps the same frames writable (`Boot.ReadOnlyHasWritableAlias`).
- `protect` does not repeat the user and kernel check. Isolation holds all the same,
  because a directory entry of a kernel slot never carries U/S
  (`PageTables.UserIsolation`).
- Growth may stop early and still succeed (kernel/src/heap.rs:104-132), shrinking
  looks at the last block only and refuses a target below it even if the block
  before it is free too (docs/MEMORY.md:320-324 words this more loosely), `size`
  ignores the used flag, and `map_new` clears the page although docs/PANIC.md:228
  says frames are not cleared. The model follows the code.

## Model

| member | source | states |
|---|---|---|
| `Layout.SlotIsUniform` | kernel/src/mem.rs:153-165 | every 4 MB directory slot is wholly user or wholly kernel |
| `Bits.BitAfterSet` | kernel/src/pmm.rs:28 | or-ing a bit in sets that bit and no other |
| `Bits.BitAfterClear` | kernel/src/pmm.rs:38 | and-ing with the complement clears that bit and no other |
| `Bits.TrailingZeros` | kernel/src/pmm.rs:85 | the lowest set bit: it is set and none below it is |
| `Pmm.RegionRoundsInward` | kernel/src/pmm.rs:44-47 | the frames walked are exactly the whole frames of the region, if and only if the base does not wrap when rounded |
| `Pmm.WrappedRegion` | kernel/src/pmm.rs:45 | a concrete region on which the wrap frees every frame but the last |
| `Pmm.LastFrameNeverFree` | kernel/src/pmm.rs:46-50 | no region reaches the last frame of the 32-bit space |
| `Pmm.Pmm.constructor` | kernel/src/pmm.rs:7-9 | the zeroed bitmap describes the empty set |
| `Pmm.Pmm.SetFree` | kernel/src/pmm.rs:23-31 | the free set gains the frame, once, and the counter is still its size |
| `Pmm.Pmm.SetUsed` | kernel/src/pmm.rs:33-41 | the free set loses the frame, and the counter is still its size |
| `Pmm.Pmm.Init` | kernel/src/pmm.rs:43-57 | free and total are the union of the regions' frames: overlaps count once |
| `Pmm.Pmm.AddRegion` | kernel/src/pmm.rs:45-55 | one region adds exactly its frames |
| `Pmm.Pmm.CountFrame` | kernel/src/pmm.rs:51-54 | a frame is counted only when its bit was clear |
| `Pmm.Pmm.Reserve` | kernel/src/pmm.rs:59-65 | exactly the frames touching the range leave the free set |
| `Pmm.Pmm.UsedFrames` | kernel/src/pmm.rs:75-77 | the 32-bit difference of the counters is the number of frames in use, if and only if every free frame was counted |
| `Pmm.Pmm.AllocFrame` | kernel/src/pmm.rs:79-90 | the minimum of the free set, or nothing exactly when it is empty |
| `Pmm.Pmm.FreeFrame` | kernel/src/pmm.rs:100-102 | the frame joins the free set |
| `Pmm.Pmm.FindRun` | kernel/src/pmm.rs:131-151 | the lowest base of a run of that length although the scan skips, or nothing exactly when there is none |
| `Pmm.Pmm.AllocRange` | kernel/src/pmm.rs:92-98 | the lowest run leaves the free set whole; a refusal changes nothing and means no run exists |
| `Pmm.Pmm.TakeRange` | kernel/src/pmm.rs:94-96 | exactly the frames of the range leave the free set |
| `Pmm.Pmm.Carve` | kernel/src/pmm.rs:104-113 | the size granted by halving, at the lowest place that has it, its end a 32-bit sum; exactly that run leaves the free set; refused exactly when nothing is granted |
| `Pmm.GrantedMeans` | kernel/src/pmm.rs:104-113 | the size granted is the full request or at least half the longest free run, and is nothing exactly when the last size tried fits nowhere |
| `Pmm.LastTriedBelow` | kernel/src/pmm.rs:105-111 | the last size tried by halving is at least 16 pages and at most the request |
| `Pmm.Pmm.LargestRun` | kernel/src/pmm.rs:115-129 | a run of that length exists and no longer one does |
| `Pmm.RunsUpToLargest` | kernel/src/pmm.rs:115-151 | the run search succeeds exactly for lengths up to the largest run |
| `Mmu.Mmu.Load` | kernel/src/paging.rs:108-110 | a virtual read gives the word the walk reaches and keeps the cache coherent |
| `Mmu.Mmu.Store` | kernel/src/paging.rs:123-128 | a virtual write changes the one physical word the walk reaches |
| `Bytes.ByteAfterPut` | kernel/src/shell.rs:316 | a byte written into a word changes that byte and no other byte of it |
| `Bytes.WordOfBytes` | kernel/src/shell.rs:316 | the four bytes make up the word, the lowest first |
| `Mmu.Mmu.LoadByte` | kernel/src/shell.rs:319 | a virtual byte read gives the byte of the word the walk reaches |
| `Mmu.Mmu.StoreByte` | kernel/src/shell.rs:316 | a virtual byte write replaces one byte of the one word the walk reaches |
| `PageTables.WindowReaches` | kernel/src/paging.rs:30-51 | with entry 1023 naming the directory, the walk of a window address lands on the table entry it stands for, and no user right reaches it |
| `PageTables.TableWindow` | kernel/src/paging.rs:49-51 | the window onto a present table is writable and shows its entries |
| `PageTables.DirectoryWindow` | kernel/src/paging.rs:30 | the window onto the directory is writable and shows its entries |
| `PageTables.FramesDistinct` | kernel/src/paging.rs:146-165 | two pages outside the fixed windows never share a frame |
| `PageTables.TablesDistinct` | kernel/src/paging.rs:101-103 | present directory entries name distinct tables, none of them the directory |
| `PageTables.WithTableEffect` | kernel/src/paging.rs:118-128 | a new table changes its own slot and no other entry, and maps nothing |
| `PageTables.InstallInv` | kernel/src/paging.rs:118-128 | installing a table in a free frame keeps the whole paging invariant |
| `PageTables.InstallingEntries` | kernel/src/paging.rs:123-128 | while the new table still holds garbage, every page outside its slot keeps its entries |
| `PageTables.InstallingCoherent` | kernel/src/paging.rs:123-128 | and every cached translation still equals the walk |
| `PageTables.CacheAfterDirectoryStore` | kernel/src/paging.rs:123-124 | after the directory store and the invlpg nothing stale of the slot or its window page is cached |
| `PageTables.InstallKeeps` | kernel/src/paging.rs:118-128 | creating a table changes no translation and no data word |
| `PageTables.WithEntryEffect` | kernel/src/paging.rs:162 | writing one entry changes that page's entry and no other |
| `PageTables.MapInv` | kernel/src/paging.rs:162 | mapping an absent page with a frame held for it keeps the invariant and moves the frame to the page |
| `PageTables.UnmapInv` | kernel/src/paging.rs:189-191 | clearing an entry keeps the invariant and moves the frame to the caller |
| `PageTables.ProtectInv` | kernel/src/paging.rs:203 | new flags keep the invariant and every holder, whatever the flags |
| `PageTables.DataStoreEffect` | kernel/src/paging.rs:173-176 | a store into a data frame changes no directory or table entry |
| `PageTables.DataStoreReads` | kernel/src/paging.rs:173-176 | a store through a data page changes that word and no other word of any data page |
| `PageTables.ByteWrittenReads` | kernel/src/shell.rs:316 | read byte by byte, a byte store through a data page changes its own byte and no other |
| `PageTables.PageMapUpdate` | kernel/src/paging.rs:146-206 | an operation that keeps all but one page updates the plain page map at that page alone |
| `PageTables.IssueThenGive` | kernel/src/pmm.rs:79-102 | taking the lowest free frame and giving it back restores the ledger |
| `PageTables.UserIsolation` | kernel/src/paging.rs:119-122 | an address both of whose entries carry U/S lies in user space |
| `Paging.EntryMeans` | kernel/src/paging.rs:162 | the entry written carries the frame and every flag it was built from, and is present |
| `Paging.EntryCoherent` | kernel/src/paging.rs:162-163 | after an entry is written and its page invalidated the cache agrees with the tables |
| `Paging.Vm.TakeFrame` | kernel/src/pmm.rs:79-90 | the lowest free frame goes into the caller's hands |
| `Paging.Vm.DirectoryEntry` | kernel/src/paging.rs:108-110 | the read through the window gives the physical directory entry |
| `Paging.Vm.ReadEntry` | kernel/src/paging.rs:302 | the read through the window gives the physical table entry |
| `Paging.Vm.InstallTable` | kernel/src/paging.rs:123-128 | the stores through the window build exactly an empty table in the slot, and the cache ends coherent |
| `Paging.Vm.CreateTable` | kernel/src/paging.rs:118-129 | a slot gets an empty table from the lowest free frame, or nothing changes exactly when no frame is free |
| `Paging.Vm.GetPage` | kernel/src/paging.rs:112-131 | the address of the governing entry, for every address; nothing exactly when the table is absent and may not or cannot be made; no translation changes |
| `Paging.Vm.WriteEntry` | kernel/src/paging.rs:162-163 | one entry changes, all other translations and data stay, and the cache is coherent |
| `Paging.Vm.LoadEntry` | kernel/src/paging.rs:135 | the entry read through the window is the one the hardware walk uses |
| `Paging.Vm.EntryOf` | kernel/src/paging.rs:133-140 | the present entry, or nothing exactly where no page is mapped |
| `Paging.Vm.Translate` | kernel/src/paging.rs:142-144 | agrees with the hardware walk on every address |
| `Paging.Vm.MakeMapping` | kernel/src/paging.rs:162-164 | the page map gains one page and the frame one holder |
| `Paging.Vm.MapPage` | kernel/src/paging.rs:146-165 | succeeds exactly when allowed, absent and a table can be had; updates one page of the page map; a refusal changes memory, bitmap and ledger not at all |
| `Paging.Vm.MapFresh` | kernel/src/paging.rs:168-172 | the lowest free frame backs the page; a refusal gives it back and leaves everything as it was |
| `Paging.Vm.MapNew` | kernel/src/paging.rs:167-181 | a zeroed page with the rights asked for, or nothing exactly when refused, at no cost |
| `Paging.Vm.ZeroPage` | kernel/src/paging.rs:173-176 | all 1024 words of the page read zero and nothing else changes |
| `Paging.Vm.UnmapPage` | kernel/src/paging.rs:183-192 | the page map loses the page and the caller gets its frame; absent pages change nothing |
| `Paging.Vm.Protect` | kernel/src/paging.rs:194-206 | only the flags of the page change: same frame, same words, same holders |
| `Paging.Vm.FreePage` | kernel/src/shell.rs:329-331 | unmapping and freeing returns the frame to the pool and nothing else |
| `Paging.Vm.HandleFault` | kernel/src/paging.rs:217-223 | recovers exactly the faults on absent demand pages that frames allow; the page is then zero and open to user code |
| `Paging.Vm.Read` | kernel/src/heap.rs:44-46 | a kernel read of a mapped page gives the word the walk reaches |
| `Paging.Vm.Write` | kernel/src/heap.rs:53-58 | a kernel write changes one word and no translation |
| `Paging.Vm.ReadByte` | kernel/src/shell.rs:319 | a kernel read of a byte gives the byte the walk reaches |
| `Paging.Vm.WriteByte` | kernel/src/shell.rs:316 | a kernel write of a byte changes that byte of its word and no translation |
| `Paging.FreshDraws` | kernel/src/paging.rs:167-181 | backing a page uses only free frames: one for the page and at most one for its table |
| `Paging.UserEntryWalk` | kernel/src/paging.rs:119-122 | a user page in user space can be read and written by user code: the directory agrees |
| `Paging.PoolHolder` | kernel/src/paging.rs:167-181 | outside the kmalloc range a mapped page holds a frame of its own from the pool |
| `Paging.DemandPage` | kernel/src/mem.rs:167-177 | a demand address and its page lie in one user slot |
| `PageDump.Dump` | kernel/src/paging.rs:286-312 | the lines expand to exactly the present pages in address order; the pages of a line are adjacent in a row, and no line goes on where the one before it ends |
| `PageDump.FollowsIsAdjacent` | kernel/src/paging.rs:320-322 | the test for going on with a run holds exactly when the next page is adjacent, both ways and in rights, to the last page of the run |
| `PageDump.DumpTable` | kernel/src/paging.rs:301-309 | one table extends the listing by exactly its present pages |
| `PageDump.StepPresent` | kernel/src/paging.rs:318-333 | the listing step on a present page keeps the listing exact and maximal |
| `PageDump.StepAbsent` | kernel/src/paging.rs:329-334 | the listing step on a gap keeps the listing exact and maximal |
| `PageDump.LengthenRun` | kernel/src/paging.rs:320-325 | a page that follows makes its run one longer |
| `PageDump.PrintRun` | kernel/src/paging.rs:326-327 | a page that does not follow ends the run for good |
| `PageDump.AbsentSlot` | kernel/src/paging.rs:297-300 | one step stands for all 1024 pages of an absent table |
| `Blocks.CoalesceIsMaximal` | kernel/src/heap.rs:207-214 | after merging no two neighbours are both free |
| `Blocks.CoalesceTiled` | kernel/src/heap.rs:202-222 | merging conserves the tiling, so every byte |
| `Blocks.CoalesceUsed` | kernel/src/heap.rs:202-222 | merging keeps every used block as it was |
| `Blocks.CoalesceTwice` | kernel/src/heap.rs:202-222 | a merged list has nothing left to merge |
| `Blocks.MergeStep` | kernel/src/heap.rs:212-213 | one round of the merging loop leaves the merged list the same |
| `Blocks.HeadSettled` | kernel/src/heap.rs:206-217 | a block that cannot merge forward can be judged: it is the lowest fit if nothing before it fits |
| `Blocks.LowestFitFinds` | kernel/src/heap.rs:215-221 | the pure search finds a free block that is large enough, exactly when one exists |
| `Blocks.TiledDisjoint` | kernel/src/heap.rs:181-200 | two blocks of a tiling are the same or do not overlap |
| `Blocks.OnlyOneAt` | kernel/src/heap.rs:191-200 | a header address belongs to one block |
| `Blocks.SplitTiled` | kernel/src/heap.rs:224-233 | a split fills exactly the block it came from |
| `Blocks.GrownUsed` | kernel/src/heap.rs:124-131 | growing keeps the blocks handed out |
| `Blocks.GrownFits` | kernel/src/heap.rs:247-254 | after a full growth the second search cannot fail |
| `Blocks.ShrunkUsed` | kernel/src/heap.rs:141-152 | shrinking keeps the blocks handed out |
| `Blocks.ShrunkUndoesGrown` | kernel/src/heap.rs:101-165 | growing and shrinking back restores every block, whether the top was free, used or absent |
| `Blocks.FreedUsed` | kernel/src/heap.rs:269-273 | freeing takes one block, and nothing else, out of those handed out |
| `HeapState.MergeReplaces` | kernel/src/heap.rs:213 | the header write of a merge puts the merged list in memory and touches no live word |
| `HeapState.FlagReplaces` | kernel/src/heap.rs:273 | a flag write puts the new list in memory and touches no live word |
| `HeapState.SplitReplaces` | kernel/src/heap.rs:226-228 | the two header writes of a split put the split list in memory and touch no live word |
| `HeapState.TopReplaces` | kernel/src/heap.rs:124-131 | a new top header completes the tiling in memory |
| `HeapState.KeepsBlocks` | kernel/src/heap.rs:101-165 | an operation that keeps a heap's pages keeps its headers and payloads |
| `HeapState.PayloadStore` | kernel/src/heap.rs:53-58 | an owner's store inside a payload touches no header |
| `Heap.RoundUpIsLeast` | kernel/src/heap.rs:60-63 | the least block size that serves the request |
| `Heap.PagesOf` | kernel/src/heap.rs:172 | the fewest whole pages that cover the bytes |
| `Heap.LoweredIsTarget` | kernel/src/heap.rs:135-138 | giving bytes back lowers the break by whole pages that cover them and no more, or to the base |
| `Heap.OneTarget` | kernel/src/heap.rs:135-138 | there is one such place |
| `Heap.ContiguousFrameStaysInside` | kernel/src/heap.rs:83-90 | every frame growth is given lies in the carved block, if and only if the block does not end where the sum wraps or fills the range |
| `Heap.FramesAfterBlock` | kernel/src/heap.rs:83-90 | past a block that ends at the wrap come the last frame, then frame 0 and every frame after it: low memory and the image |
| `Heap.CarvedFrame` | kernel/src/heap.rs:83-90 | inside the block the frame is the one kept for that very page |
| `Heap.Heap.SizeAt` | kernel/src/heap.rs:44-46 | reads the size word of a header |
| `Heap.Heap.UsedAt` | kernel/src/heap.rs:48-51 | reads the used flag of a header |
| `Heap.Heap.WriteHeader` | kernel/src/heap.rs:53-58 | both header words change and no other word does |
| `Heap.Heap.LastBlock` | kernel/src/heap.rs:181-189 | the walk ends at the top block of the tiling |
| `Heap.Heap.FindBlock` | kernel/src/heap.rs:191-200 | finds the block whose payload starts there, or nothing exactly when no block does |
| `Heap.Heap.Absorb` | kernel/src/heap.rs:212-213 | two free neighbours become one and no live word changes |
| `Heap.Heap.MergeForward` | kernel/src/heap.rs:207-214 | a free block swallows its whole run of free neighbours; the merged list is unchanged |
| `Heap.Heap.FirstFit` | kernel/src/heap.rs:202-222 | agrees with merge-everything-then-take-the-lowest-fit, and keeps every used block and live word |
| `Heap.Heap.Take` | kernel/src/heap.rs:224-233 | hands out the block, split when the rest can stand alone |
| `Heap.Heap.TryAlloc` | kernel/src/heap.rs:243-245 | one search and one hand-out: null exactly when no merged run fits |
| `Heap.Heap.Alloc` | kernel/src/heap.rs:235-255 | the lowest run that fits, or after growth by the pages that cover the request and no more the lowest run of the grown heap; large enough and less than 16 bytes too large; null for zero, oversized, or no fit after growth met a refused page, with all free runs merged; no live word changes |
| `Heap.Heap.AllocGrown` | kernel/src/heap.rs:247-254 | the lowest run that fits after growth; null only when a page was refused, and then all free runs are merged |
| `Heap.Heap.Free` | kernel/src/heap.rs:257-274 | exactly the flag of the block behind the pointer is cleared; foreign and freed pointers change nothing |
| `Heap.Heap.Size` | kernel/src/heap.rs:276-288 | the payload size of the block behind the pointer, used or free, and zero for any other pointer |
| `Heap.Heap.Stats` | kernel/src/heap.rs:290-317 | counts every block and byte: payloads and headers add up to the heap |
| `Heap.Heap.AddPage` | kernel/src/heap.rs:105-120 | one more page is backed exactly when range, frame and table allow; a refusal changes nothing |
| `Heap.Heap.AddCarvedPage` | kernel/src/heap.rs:83-120 | a page of the contiguous heap gets the frame at its own offset |
| `Heap.Heap.GrowOne` | kernel/src/heap.rs:105-120 | one round of growth keeps the growing invariant |
| `Heap.Heap.Extend` | kernel/src/heap.rs:102-120 | pages are added until all are there or one is refused |
| `Heap.Heap.Cover` | kernel/src/heap.rs:124-131 | the new pages join a free top block or become one |
| `Heap.Heap.Grow` | kernel/src/heap.rs:101-133 | succeeds exactly when one page can be added; partial growth means the next page is refused |
| `Heap.Heap.DropPage` | kernel/src/heap.rs:156-160 | unmaps a page; its frame returns to the pool or stays carved |
| `Heap.Heap.Retract` | kernel/src/heap.rs:154-162 | exactly the pages above the target go |
| `Heap.Heap.CutTop` | kernel/src/heap.rs:141-152 | refuses exactly when the target is not inside a free top block with room for a block |
| `Heap.Heap.Shrink` | kernel/src/heap.rs:135-165 | the exact condition, the new break and the new blocks; a refusal changes nothing |
| `Heap.Heap.Brk` | kernel/src/heap.rs:167-179 | the old break or null, with the exact condition of each; a whole growth moves the break by at least the bytes asked for and less than a page more, and so does shrinking, down to the base; the blocks and frames afterwards |
| `Heap.Heap.GrowThenShrink` | kernel/src/heap.rs:101-179 | a whole growth undone restores break, blocks and frames, new page tables aside |
| `Heap.ReturnUndoesDraw` | kernel/src/heap.rs:101-165 | once drawn pages are returned only new tables remain in the ledger |
| `Heap.Heap.OwnerStore` | kernel/src/shell.rs:314-317 | an owner's byte store lands exactly when it is inside a live block, and changes that byte alone |
| `Heap.Heap.OwnerLoad` | kernel/src/shell.rs:318-323 | an owner's byte read is answered exactly when it is inside a live block, from memory |
| `Heap.Heap.Inside` | kernel/src/heap.rs:191-200 | finds whether a byte behind a pointer lies in a block handed out, and where |
| `Heap.Heap.BlockInHeap` | kernel/src/heap.rs:181-200 | a block is 8-aligned, at least 8 bytes, inside the heap, mapped and writable |
| `Boot.BuildTables` | boot/boot.asm:42-56 | entries 0 and 768 share one identity table and entry 1023 names the directory |
| `Boot.BootWindow` | kernel/src/paging.rs:93-99 | the boot tables show the kernel table at its higher-half address while it is filled |
| `Boot.InitPaging` | kernel/src/paging.rs:92-106 | entry i of the kernel table is read-only exactly when its address lies from the start of the image to the end of its read-only part; entry 768 is switched, the cache dropped and write protection on |
| `Boot.BootedTables` | kernel/src/paging.rs:101-103 | after the switch the fixed slots have tables of their own and nothing else is mapped |
| `Boot.BootedFixed` | kernel/src/paging.rs:94-100 | both windows show the first 4 MB, the read-only part protected in the upper one |
| `Boot.BootedInv` | kernel/src/paging.rs:92-106 | the paging invariant holds when boot ends |
| `Boot.FixedWindows` | kernel/src/paging.rs:94-100 | by address: the upper window shows the memory 3 GB below and is writable exactly outside the read-only image, the lower one shows the same memory writable, and user code reaches neither |
| `Boot.ReadOnlyHasWritableAlias` | kernel/src/paging.rs:94-100 | every read-only image page is writable through the low window |
| `KernelState.DemandBounded` | kernel/src/mem.rs:19-20 | at most 256 pages of the demand zone are ever mapped |
| `KernelState.FaultFramesBounded` | kernel/src/paging.rs:217-223 | the zone and its table hold at most 257 frames |
| `KernelState.DemandAdded` | kernel/src/paging.rs:217-223 | a recovered fault adds one page that was not there |
| `KernelState.HeapKept` | kernel/src/heap.rs:320-346 | an operation on pages clear of a heap leaves its headers, pages and payloads alone |
| `KernelState.HeapOp` | kernel/src/heap.rs:348-378 | an operation of one heap leaves the other heap, the fixed windows and every live payload as they were |
| `KernelState.TradedOwners` | kernel/src/heap.rs:101-165 | no operation gives reserved memory away or leaves a frame in a caller's hands |
| `Trace.ViewKept` | kernel/src/heap.rs:348-378 | an operation that changes no live payload changes no stored byte |
| `Trace.ViewGranted` | kernel/src/heap.rs:224-233 | a block handed out clear of the live ones has a pointer that was not live, and memory agrees with the view that adds it |
| `Trace.ViewFreed` | kernel/src/heap.rs:257-274 | giving a block back takes its pointer and bytes out of the view and nothing else |
| `Trace.ViewStored` | kernel/src/shell.rs:314-317 | a byte stored in a live block is the only byte of any live block that changes |
| `Trace.CellsApart` | kernel/src/heap.rs:224-255 | different bytes behind live pointers of either heap have different addresses |
| `Trace.CallAt` | kernel/src/heap.rs:348-378 | in a truthful run each call found memory as callers knew it, and got the answer owed there |
| `Trace.NullMeans` | kernel/src/heap.rs:235-255 | in a truthful run null answers only zero bytes, more than the range holds, or a request no free run fits where the heap cannot grow by a page |
| `Trace.FirstServed` | kernel/src/heap.rs:235-255 | the first request of an empty heap is served right after the first header, unless no page can be had |
| `Kernel.Kernel.Kmalloc` | kernel/src/heap.rs:348-350 | the answer owed by the allocator and the state it leaves; the view gains exactly that pointer with the block granted, which was not live and overlaps no live block |
| `Kernel.Kernel.Kfree` | kernel/src/heap.rs:352-354 | the flag of that block is cleared and the view loses exactly that pointer and the bytes behind it |
| `Kernel.Kernel.Ksize` | kernel/src/heap.rs:356-358 | the size of the block behind the pointer, zero where there is none; nothing changes |
| `Kernel.Kernel.Kbrk` | kernel/src/heap.rs:360-362 | the answer owed by brk and the state it leaves, with the view unchanged; a refusal changes nothing |
| `Kernel.Kernel.Vmalloc` | kernel/src/heap.rs:364-366 | as kmalloc, on the scattered heap |
| `Kernel.Kernel.Vfree` | kernel/src/heap.rs:368-370 | as kfree, on the scattered heap |
| `Kernel.Kernel.Vsize` | kernel/src/heap.rs:372-374 | as ksize, on the scattered heap |
| `Kernel.Kernel.Vbrk` | kernel/src/heap.rs:376-378 | as kbrk, on the scattered heap |
| `Kernel.Kernel.Kstore` | kernel/src/shell.rs:314-317 | a byte is stored exactly when it is inside a live kmalloc block; the view and memory gain exactly that byte |
| `Kernel.Kernel.Kload` | kernel/src/shell.rs:318-323 | the byte in memory behind a live kmalloc pointer, which is the last one stored there |
| `Kernel.Kernel.Vstore` | kernel/src/shell.rs:314-317 | a byte is stored exactly when it is inside a live vmalloc block; the view and memory gain exactly that byte |
| `Kernel.Kernel.Vload` | kernel/src/shell.rs:318-323 | the byte in memory behind a live vmalloc pointer, which is the last one stored there |
| `Kernel.Kernel.Fault` | kernel/src/paging.rs:217-223 | a fault is recovered exactly when absent, in the demand zone and frames are left; the page is then zero and open to user code; the view is unchanged |
| `Kernel.Kernel.UserDemo` | kernel/src/shell.rs:328-357 | the report of the demonstration: the word read back, a read-only entry on the same frame, a refusal in kernel space, nothing left; or nothing, only where frames are short |
| `Kernel.Kernel.DemoSteps` | kernel/src/shell.rs:328-357 | its steps touch one page and trade frames for that page only |
| `Kernel.Kernel.Step` | kernel/src/heap.rs:348-378 | any call keeps the kernel valid, its answer and the state it leaves are the ones owed, it is honest, and the view changes exactly as the call says |
| `Kernel.Kernel.KernelStep` | kernel/src/heap.rs:348-362 | the same for the calls of the kmalloc heap |
| `Kernel.Kernel.VirtualStep` | kernel/src/heap.rs:364-378 | the same for the calls of the vmalloc heap |
| `Kernel.Kernel.Run` | kernel/src/heap.rs:348-378 | any run keeps the kernel valid; through the states it passes every answer was the one owed and honest, and memory agreed with what callers knew; every pointer not freed has the block it was granted, and memory holds every byte stored behind one; faults are bounded |
| `Kernel.Kernel.FaultsBounded` | kernel/src/mem.rs:19-20 | at most 256 recovered faults and 257 frames in every valid state |
| `Kernel.Kernel.OneHolder` | kernel/src/pmm.rs:23-113 | every counted frame is exactly one of free, reserved, carved, table, vmalloc or user |
| `Kernel.Kernel.HolderMeaning` | kernel/src/mem.rs:201-213 | free, reserved and carved in the ledger mean the same in the bitmap and in the boot arithmetic |
| `Kernel.Kernel.TableMeaning` | kernel/src/paging.rs:118-129 | a frame held as a table is named by a directory entry, and the reverse |
| `Kernel.Kernel.PageMeaning` | kernel/src/paging.rs:146-165 | a frame held by a page is mapped in vmalloc or in user space, never both, and the reverse |
| `Kernel.Kernel.FramesInUse` | kernel/src/pmm.rs:75-77 | the count of frames in use never underflows in a valid state |
| `Kernel.Kernel.PhysicallyContiguous` | kernel/src/heap.rs:81-90 | each kmalloc address translates to its own offset inside the carved block |
| `Kernel.Kernel.LiveBlocks` | kernel/src/heap.rs:224-255 | live blocks of both heaps are disjoint, 8-aligned, mapped and writable |
| `Kernel.Kernel.ImageProtected` | kernel/src/paging.rs:94-100 | each page of the kernel window is writable exactly outside the read-only image, by address, in the tables and in the cache |
| `Kernel.Kernel.UserReach` | kernel/src/paging.rs:146-150 | what user code reaches, by walk or by cache, lies in user space |
| `KernelInit.ReservedFrames` | kernel/src/mem.rs:202-203 | the two reservations leave exactly the frames outside low memory and the image |
| `KernelInit.FirstLedger` | kernel/src/mem.rs:201-213 | bitmap, reserved memory and carved block give every frame one holder |
| `KernelInit.StartPool` | kernel/src/mem.rs:201-203 | the pool is exactly the whole frames of the regions outside low memory and the image |
| `KernelInit.CarvedWindow` | kernel/src/mem.rs:207-213 | the carved block as addresses, and its frame sum cannot wrap if and only if the memory map gives a safe block |
| `KernelInit.Want` | kernel/src/mem.rs:207-208 | the most whole pages that fit a quarter of usable memory and 32 MB |
| `KernelInit.GrantedBlock` | kernel/src/mem.rs:207-208 | the block carved is the lowest of its size and has all that was wanted where the pool has it in one piece |
| `KernelInit.Attach` | kernel/src/heap.rs:320-346 | both heaps over one paging layer, valid if and only if the frame sum cannot wrap |
| `KernelInit.LowMapIsSafe` | kernel/src/mem.rs:207-213 | a memory map that ends two pages short of 4 GB gives a safe block or none |
| `KernelInit.UnsafeMap` | kernel/src/mem.rs:207-213 | a memory map on which a block is carved and is not safe |
| `KernelInit.Init` | kernel/src/mem.rs:190-213 | gives up exactly for an image past its window or no block; the block is the lowest run with a quarter of usable memory, at most 32 MB, in whole pages, or at least half the longest run; the kernel that comes up is valid if and only if the memory map gives a safe block |
| `KernelInit.BootAndRun` | kernel/src/mem.rs:190-213 | from the boot tables through any run of calls, on every memory map with a safe block: valid, both heaps empty at first over the frames boot left, every answer the one owed, granted blocks and stored bytes still there |
| `Vga.BlankAhead` | kernel/src/vga.rs:147-159 | nothing is written at or past the cursor |
| `Vga.PutKeepsView` | kernel/src/vga.rs:147-168 | one byte, with or without a scroll, keeps the last 25 rows of the page in view |
| `Vga.PrintShowsPage` | kernel/src/vga.rs:80-93 | after a clear any text shows as the last 25 rows of the same text on an endless page: the low byte of each cell is the character laid out there or a space, the rest its colour |
| `Vga.Glyph` | kernel/src/vga.rs:151 | character and colour read back out of the cell |
| `Vga.ColorAttr` | kernel/src/vga.rs:66-68 | foreground in bits 8 to 11, background in bits 12 to 15 |
| `Vga.Fresh` | kernel/src/vga.rs:126-132 | a screen never entered is blank white on black with the cursor home |
| `Vga.EraseTakesBack` | kernel/src/vga.rs:100-106 | erasing a character just printed on a blank restores the terminal, but for the scroll where it filled the screen |
| `Vga.Driver.constructor` | kernel/src/vga.rs:34-52 | the cursor home in white on black, and the other screens blank |
| `Vga.Driver.Clear` | kernel/src/vga.rs:80-86 | the live terminal is blank with the cursor home |
| `Vga.Driver.Scroll` | kernel/src/vga.rs:161-168 | every row moves up one and the last is blank, although the copy is in place |
| `Vga.Driver.PutByte` | kernel/src/vga.rs:147-159 | the buffer and cursor follow the terminal |
| `Vga.Driver.PrintText` | kernel/src/vga.rs:88-93 | the buffer and cursor follow the terminal for any bytes |
| `Vga.Driver.Backspace` | kernel/src/vga.rs:100-106 | one cell back and blank, and nothing at the first cell |
| `Vga.Driver.SwitchScreen` | kernel/src/vga.rs:108-136 | no terminal changes, only which one is in front; bad numbers change nothing |
| `Vga.Driver.Load` | kernel/src/vga.rs:121-123 | the buffer takes the saved cells |
| `Vga.Driver.Do` | kernel/src/vga.rs:80-136 | an action reaches the terminal in front and no other |
| `Vga.Driver.Session` | kernel/src/vga.rs:80-136 | any session on the one buffer is the same session on three terminals |
| `Vga.ScreensIndependent` | kernel/src/vga.rs:108-136 | a screen ends a session as if its own actions had been all of it |
| `Klib.PrefixIsSmaller` | kernel/src/klib.rs:55 | more digits never make a smaller number, so the first overflow is final |
| `Klib.ParseU32` | kernel/src/klib.rs:35-58 | the value of the digits exactly when they are digits of the base and the value fits 32 bits, at any length |
| `Klib.Utoa` | kernel/src/klib.rs:22-33 | the buffer ends with the decimal numeral, is never left, and keeps its unused front |
| `Klib.NumeralMeans` | kernel/src/klib.rs:22-33 | the numeral is digits, is worth its number and has no leading zero |
| `Klib.RoundTrip` | kernel/src/klib.rs:22-58 | parsing the printed numeral gives the number back, for every 32-bit number |
| `Klib.DigitMeans` | kernel/src/klib.rs:46-51 | the digit characters are exactly the sixteen in either case, each worth its place |
| `Klib.HexRoundTrip` | kernel/src/klib.rs:37-58 | parsing a numeral in base sixteen gives the number back, with either prefix and in either case, for every 32-bit number |
| `Klib.TrimStartMeans` | kernel/src/klib.rs:36 | exactly the white space at the front is trimmed |
| `Klib.TrimEndMeans` | kernel/src/klib.rs:36 | exactly the white space at the end is trimmed |
| `Klib.SpaceAround` | kernel/src/klib.rs:36 | white space around a number does not matter |

## Left out

- Heap.RoundUpIsLeast: rounds on unbounded integers; the 32-bit sum wraps only above 0xFFFFFFF8, and `Alloc` refuses such requests first.
- Paging.Vm.MapPage: asks that the caller hold the frame it maps, that flags fit twelve bits and that the address be below the table window, where the entry is a directory entry; every caller in the repository does.
- Paging.Vm.MapFresh: the same limits on address and flags, and a page of the fixed 4 MB windows must be mapped, as it always is.
- Paging.Vm.MapNew: the same limits as `MapFresh`.
- Paging.Vm.UnmapPage: addresses below the table window only; above it the code would clear a directory entry.
- Paging.Vm.Protect: addresses below the table window and flags that fit twelve bits, as in every call.
- Paging.Vm.GiveFrame: asks that the frame be handed out and not mapped; `Pmm.Pmm.FreeFrame` is total, and the bitmap alone does not notice a frame freed while it is mapped.
- KernelInit.Init: the memory map is a list of regions and a byte count; the boot loader's structures are not part of this model.
- The kernel's statics (the bitmap, the heap records, the screen slots) are fields of the model and not words of the modelled memory.
- Accessed and dirty bits, large pages, global pages, and the processor's caches of directory entries; speculative fills of the translation cache.
- Messages: `koops!`, `kpanic!` and `printk!` change no modelled state; a panic during init is the empty result of `Init`.
- The hardware text cursor and port output; the screen statics start with an arbitrary buffer.
- Descriptor tables, interrupts, the keyboard, the shell's other commands, the stack dump, and the boot loader probe.
- `strlen`, `strcmp`, flag decoding and the text layout of the page dump: finite and easy.
- Ring 3 code is not run; what it could reach is a statement about the tables and the cache.
