# Verified model of the POS_C9 kernel's memory management

This project models the memory management of Patrick's Operating System in Dafny and proves what it keeps:
the virtual address allocator, two-level paging over the physical frame allocator, and three smaller
components that promise a round trip or a refinement (number printing and parsing, the walk over the initial
RAM disk, the scrolling text screen). `dafny verify dfyconfig.toml` checks everything.

## How it is built

Each component has a value-level model (states and operations as pure functions, with the theorems about
them) and the imperative code (classes whose methods do what the C functions do, loop for loop), proved to
compute exactly what the model says.

| files | component |
|---|---|
| `word.dfy` | 32-bit words, page sizes and fixed addresses, rounding up to a multiple |
| `blocks.dfy`, `allocator_model.dfy` | lists of blocks as address sets; `malloc`, `malloc_align`, `free`, runs |
| `list.dfy`, `vmm.dfy` | the intrusive list in raw node memory; the allocator over its three lists |
| `bitmap.dfy`, `frame_model.dfy`, `memory_map.dfy`, `pmm.dfy` | the frame bitmap, its set of free frames, the Multiboot memory map and its bytes |
| `page_model.dfy`, `fault_model.dfy`, `rights.dfy`, `paging.dfy` | the hardware walk, page faults over whole runs, access rights, the paging code |
| `address_space.dfy`, `boot.dfy` | the allocator against the hardware walk; start-up of all three components |
| `node_use.dfy`, `node_room.dfy` | how many list nodes a run creates; how long they fit beside what the allocator manages |
| `numerals.dfy`, `archive.dfy` | printers and parsers; the octal size field and the archive walk |
| `screen.dfy`, `screen_text.dfy` | the screen as a window on a log; what characters and texts do |

**Words.** A `u32` is an integer between 0 and 2^32 - 1. Storing a sum in one makes Dafny prove that it did
not wrap; where the C code can wrap on an input the model admits, the function `Wrap` is written out. Masks
and shifts of addresses and table words are written as `%` and `/` (`Word.BitOperations` gives the
correspondence on bit-vectors); bitmap bytes are 8-bit vectors with the C operators.

**Node memory.** The allocator carves its list nodes out of one stretch of memory by address arithmetic, so
that memory is a map from address to record which the methods update in place, and a pointer is an address.
A node and the data record right behind it are one record of 20 bytes.

**Tables through their own mapping.** `paging.c` reaches the page directory and the tables through virtual
addresses. Every such access in the model goes through the hardware walk of the memory it is about to change.

## What is proved false, and exactly when it holds

* `malloc` damages the allocator for exactly two requests that find a block: 0, which puts an empty block in
  use, and 0xFFFFFFFF, whose search length wraps to 0 (`AllocatorModel.MallocKeepsInvExactly`).
* `malloc_above` and `malloc_align` cut the piece in front of an allocation to the size of the request instead
  of the distance to the suitable address (line 124 of `vmm.c` passes `size`, not `split_size`). For every
  32-bit request that finds a block, also when the search length wraps, the partition of addresses survives
  exactly when the request is at least one byte and shorter than the block, or than half of it if a gap is
  needed (`AllocatorModel.MallocAboveKeepsInvExactly`).
* The result of `malloc_align` is aligned exactly when the block starts aligned or is aligned `size` bytes in,
  in 32-bit arithmetic; the result of `malloc_above` respects its bound exactly when the block starts there and
  aligned, or needs a gap and the address `size` bytes in lies high enough. Concrete inputs are given for each
  failure. The variant that was evidently meant is modelled next to the code; for every request of at least one
  byte whose search length does not wrap it is right.
* `pmm_initialize` looks only at the low words of a memory map entry, rounds its start down and lets frame
  addresses wrap. What it frees for an entry is really available exactly when the length's low word is below a
  page, or the region starts page-aligned below 4 GB and so many bytes of it end there too; it frees all that is
  available exactly when the region is also shorter than 4 GB (`FrameModel.RegionIsFreedExactly`).
* The allocator never checks that its list nodes stay out of the addresses it hands out. In every run from
  start-up they do exactly if no state of the run has more than 203 blocks, free and in use together
  (`NodeRoom.NodesAreUnmanagedExactly`). A bound on the blocks in use guarantees that exactly if it is 100 or
  less (`NodeRoom.LiveBoundIsSafeExactly`); plain one-byte allocations alone break it with the 202nd.
* Backspace, space, backspace takes the character just printed back exactly if that did not go into the last
  column, from where the cursor has already left for the next row (`ScreenText.EraseTakesBackExactly`).
* `put_dec` prints nothing for numbers of 2^31 and more; reading its output back is right exactly below that.
* An 11-digit octal size is read correctly exactly when it is below 2^32.

## Model

| member | source | states |
|---|---|---|
| Blocks.CanonicalIsUnique | src/c/vmm.c:386-395 | a sorted, disjoint, fully coalesced free list is determined by the set of addresses it covers |
| Blocks.CompactIsCanonicalForm | src/c/vmm.c:386-395 | coalescing touching neighbours until none is left keeps every address and yields the one canonical list of those addresses |
| Blocks.StretchInOneBlock | src/c/vmm.c:224-245 | consecutive free addresses always lie in one free block, so searching block by block misses nothing |
| AllocatorModel.MallocTakesLeastFit | src/c/vmm.c:91-138 | malloc(size) returns the least address from which size+1 addresses are free and moves exactly the first size of them to the used side |
| AllocatorModel.AvailableMeansFreeStretch | src/c/vmm.c:224-245 | the search succeeds if and only if size+1 consecutive addresses are free |
| AllocatorModel.FindsExactly | src/c/vmm.c:224-245 | a search with a bound succeeds if and only if some free block is long enough and ends beyond the bound |
| AllocatorModel.FitsExactly | src/c/vmm.c:234-238 | a non-empty block passes the test of the search if and only if it is long enough and holds an address at or above the bound |
| AllocatorModel.MallocAboveTakesFirst | src/c/vmm.c:101-138 | malloc_above allocates from the first free block that has size + align bytes, in 32 bits, and ends beyond the bound |
| AllocatorModel.NeedsGapMeans | src/c/vmm.c:107-122 | no piece is left in front if and only if the block starts aligned at or above the bound, or starts at 0 and no 32-bit address would do |
| AllocatorModel.MallocKeepsInv | src/c/vmm.c:101-138 | malloc keeps free and used blocks a partition of the managed addresses, canonical and with the highest address free |
| AllocatorModel.MallocKeepsInvExactly | src/c/vmm.c:91-138 | among the requests that find a block, exactly 0 and 0xFFFFFFFF break that invariant |
| AllocatorModel.MallocCanBreakPartition | src/c/vmm.c:91-138 | a concrete free list with which both requests find a block and break it |
| AllocatorModel.FreeReturnsBlock | src/c/vmm.c:140-157 | freeing the base of a block in use adds exactly its addresses to the free ones and removes exactly that block from the used list |
| AllocatorModel.FreeOfUnknownAddress | src/c/vmm.c:142-147 | freeing an address at which no block in use starts changes nothing |
| AllocatorModel.RunKeepsUnfreedBlocks | src/c/vmm.c:140-157 | in every run a block in use whose base is never freed is still in use at the end |
| AllocatorModel.FreeKeepsInv | src/c/vmm.c:140-157 | free keeps the partition invariant for every address, also one that is not in use |
| AllocatorModel.FreeBlockAboveEveryUsedBlock | src/c/vmm.c:322-342 | a free block always lies above every used one, so the neighbour free inserts in front of is never NULL and the free list is never empty |
| AllocatorModel.UsedAddressIsUnique | src/c/vmm.c:301-320 | no two used blocks share a base, so the search by address finds the one right block |
| AllocatorModel.PlainMallocIsLegal | src/c/vmm.c:91-94 | a plain malloc needs no gap: it is safe if and only if it finds a block and its size is neither 0 nor 0xFFFFFFFF |
| AllocatorModel.RunKeepsInv | src/c/vmm.c:91-157 | every run of allocations, plain, aligned or bounded below, and of free keeps the partition of the addresses managed at the start |
| AllocatorModel.FreeListIsDetermined | src/c/vmm.c:91-157 | two valid states that manage the same addresses and use the same ones have the same free list, block for block |
| AllocatorModel.RunRestoresFreeList | src/c/vmm.c:91-157 | whatever a run allocated and in whatever order it freed, once the same addresses are in use as before, the free list is block for block the one from before |
| AllocatorModel.RunNeverReissues | src/c/vmm.c:91-138 | after any run, what an allocation hands out is disjoint from every block in use and inside the managed addresses |
| AllocatorModel.FreeUndoesMalloc | src/c/vmm.c:101-157 | freeing what any legal allocation, plain, aligned or bounded, just returned restores both lists exactly, the piece cut off in front included |
| AllocatorModel.MallocAlignIsAlignedExactly | src/c/vmm.c:96-138 | for every request that finds a block the result is a multiple of align if and only if the block starts at one or is at one size bytes in, modulo 2^32 |
| AllocatorModel.MallocAlignKeepsInvExactly | src/c/vmm.c:96-138 | for every request that finds a block, size 0 and wrapping search lengths included, the partition survives if and only if the size is at least 1 and below the block's, or below half of it if the block starts unaligned |
| AllocatorModel.TakeKeepsInvExactly | src/c/vmm.c:122-132 | for every 32-bit size and every block, the one or two cuts keep the partition if and only if each piece is non-empty and inside the block |
| AllocatorModel.ForeignPieceBreaksInv | src/c/vmm.c:128-132 | a piece that covers the first address behind a free block can neither be handed out nor stay free without breaking the partition |
| AllocatorModel.MallocAlignCanMisalign | src/c/vmm.c:122-126 | a concrete request for 64-byte alignment that comes back misaligned |
| AllocatorModel.MallocAlignCanBreakPartition | src/c/vmm.c:101-138 | three concrete requests that break the partition: a block of twice the size that starts unaligned, size 0, and a search length that wraps to 0 |
| AllocatorModel.AsMeantIsAligned | src/c/vmm.c:107-128 | for at least one byte and a search length that does not wrap, splitting at the computed split_size instead gives the least multiple of align in the block, leaves a byte behind it and keeps the partition |
| AllocatorModel.MallocAlignIsAsMeantExactly | src/c/vmm.c:107-128 | on those requests the code agrees with that variant if and only if no gap is needed or the gap equals the request |
| AllocatorModel.MallocAboveKeepsInvExactly | src/c/vmm.c:101-138 | for every size, alignment and lower bound with which a block is found, the partition survives if and only if the size is at least 1 and below the block's, or below half of it if a gap is needed |
| AllocatorModel.MallocAboveKeepsInv | src/c/vmm.c:101-138 | the calls that runs are made of keep the partition |
| AllocatorModel.MallocAboveIsAboveExactly | src/c/vmm.c:101-138 | for every request that finds a block the result lies at or above the bound if and only if the block starts there and aligned, or needs a gap and the address size bytes in, modulo 2^32, lies there |
| AllocatorModel.MallocAboveCanMissBound | src/c/vmm.c:107-126 | a concrete bound inside a block that the result misses, and one whose next multiple of align is 2^32, for which the counter wraps and the result is 0 |
| LinkedList.LinkInInserts | src/c/list.c:3-31 | linking a node in between two neighbours yields the list with it inserted there, whatever its old links were, and touches links of that list only |
| LinkedList.LinkOutRemoves | src/c/list.c:60-79 | unlinking a node yields the list without it and touches links of its neighbours only |
| LinkedList.DisjointListKept | src/c/list.c:3-79 | a list that shares no node with the one operated on is untouched |
| LinkedList.List.InsertAfter | src/c/list.c:3-16 | inserts into the sequence behind a given position and keeps first, last and all links consistent |
| LinkedList.List.InsertBefore | src/c/list.c:18-31 | the same in front of a given position |
| LinkedList.List.InsertFirst | src/c/list.c:33-46 | the node becomes the head, of an empty list too |
| LinkedList.List.InsertLast | src/c/list.c:48-58 | the node becomes the tail, of an empty list too |
| LinkedList.List.Remove | src/c/list.c:60-79 | deletes one position from the sequence, at either end too |
| LinkedList.List.HighestNode | src/c/list.c:115-137 | returns the node of greatest address, NULL exactly for the empty list |
| VirtualMemory.NodeGrown | src/c/vmm.c:256-296 | a record placed behind the arena belongs to no list, and the arena stays dense and free of overlaps |
| VirtualMemory.HighestOfTwo | src/c/vmm.c:275-282 | with no recycled node left, the highest node in the free and used lists is the last record ever created |
| VirtualMemory.Vmm.GetUnusedNode | src/c/vmm.c:247-299 | hands out the oldest recycled node, or the next record of the arena if there is none; it is in none of the three lists, and every other node stays in exactly one |
| VirtualMemory.Vmm.SearchFree | src/c/vmm.c:224-245 | finds the first free block that is long enough and reaches the lower bound, NULL if there is none; its sums do not wrap |
| VirtualMemory.Vmm.SearchUsed | src/c/vmm.c:301-320 | finds the first used block with the given base, NULL if there is none |
| VirtualMemory.Vmm.SearchFreeNeighbor | src/c/vmm.c:322-342 | finds the first free block that starts beyond the given node |
| VirtualMemory.Vmm.SearchAdjacentFree | src/c/vmm.c:344-368 | finds the first free block that touches its successor, NULL exactly if none does |
| VirtualMemory.Vmm.SplitFree | src/c/vmm.c:212-222 | replaces a free block by two consecutive ones in 32-bit arithmetic; the number of nodes ever created becomes the greater of what it was and the number of blocks then free and in use |
| VirtualMemory.Vmm.CompactAfter | src/c/vmm.c:370-384 | replaces two touching blocks by their union in the first node and puts the second node at the end of those kept for reuse |
| VirtualMemory.Vmm.CompactAllFree | src/c/vmm.c:386-395 | terminates and leaves the canonical form of the free list |
| VirtualMemory.Vmm.AddFree | src/c/vmm.c:38-51 | appends one unmapped stretch and leaves the canonical list of all unmapped addresses so far; creates a node only if the list with the new block is longer than any before |
| VirtualMemory.Vmm.Initialize | src/c/vmm.c:9-89 | for any frozen directory and tables the free list is canonical and covers exactly the addresses below 0xFFC00000 whose directory or table entry is not present; as many nodes are created as the list ever had blocks, the newest counted before it is coalesced |
| Word.AlignUpIsLeast | src/c/vmm.c:116-120 | the multiple at which the counting stops is the least one no lower than where it starts |
| VirtualMemory.Vmm.SplitSize | src/c/vmm.c:107-120 | counts, modulo 2^32, the distance to the first multiple of align at or above both the block's start and the bound, or to 0 if that multiple is beyond 32 bits |
| VirtualMemory.Vmm.MallocAbove | src/c/vmm.c:101-138 | for every request that finds a block does to both lists exactly what the model's malloc_above does, damage included, and keeps all nodes properly linked; the allocator stays valid if and only if the cuts fit the block; the number of nodes becomes the greater of what it was and the number of blocks afterwards |
| VirtualMemory.Vmm.MallocAlign | src/c/vmm.c:96-99 | the same without a lower bound |
| VirtualMemory.Vmm.Malloc | src/c/vmm.c:91-94 | the same without alignment, where no gap can arise; the allocator stays valid if and only if the size is neither 0 nor 0xFFFFFFFF |
| VirtualMemory.Vmm.Free | src/c/vmm.c:140-157 | does to both lists exactly what the model's free does and creates no node; an address at which no block in use starts changes nothing |
| AddressSpace.ReadThroughWindow | src/c/vmm.c:56-62 | what initialization reads at 0xFFC00000 + (i << 12) is the table that directory entry i names |
| AddressSpace.UnmappedIsUntranslated | src/c/vmm.c:36-68 | an address counts as unmapped if and only if the hardware walk fails on it |
| AddressSpace.AllocationsAreUntranslated | src/c/vmm.c:91-157 | in no run does a block in use cover an address that the tables translated at initialization |
| Bitmaps.SetMeans | src/c/bitmap.c:8-11 | or-ing the mask into its byte takes exactly that bit out of the clear ones |
| Bitmaps.ClearMeans | src/c/bitmap.c:13-16 | and-ing with the negated mask adds exactly that bit to the clear ones |
| Bitmaps.Bitmap.TestBit | src/c/bitmap.c:3-6 | tells whether the bit is not among the clear ones |
| Bitmaps.Bitmap.SetBit | src/c/bitmap.c:8-11 | removes exactly one bit from the clear ones |
| Bitmaps.Bitmap.ClearBit | src/c/bitmap.c:13-16 | adds exactly one bit to the clear ones |
| Bitmaps.Bitmap.FindFirstSetBit | src/c/bitmap.c:18-34 | the least set bit, 0 if none is set |
| Bitmaps.Bitmap.FindFirstClearBit | src/c/bitmap.c:36-52 | the least clear bit, 0 if none is clear |
| Bitmaps.Bitmap.SetAllBits | src/c/bitmap.c:59-62 | leaves no bit clear |
| Bitmaps.Bitmap.AnyBitClear | src/c/bitmap.c:64-74 | true if and only if some bit is clear |
| Bitmaps.Bitmap.AnyBitSet | src/c/bitmap.c:76-86 | true if and only if some bit is set |
| FrameModel.NoFrameHandedOutTwice | src/c/pmm.c:110-167 | in every run, between two allocations of the same frame that frame was released |
| FrameModel.ReleaseUndoesAlloc | src/c/pmm.c:110-167 | releasing the address just returned restores the set of free frames |
| FrameModel.RegionIsFreedExactly | src/c/pmm.c:53-73 | for a type-1 entry the frames freed are exactly the available ones if and only if the region is shorter than 4 GB and meets the condition of the next row |
| FrameModel.RegionIsSafeExactly | src/c/pmm.c:53-73 | only available memory is freed for a type-1 entry, wrapping addresses included, if and only if the low word of its length is below a page, or it starts page-aligned below 4 GB and that length from there ends at or below 4 GB |
| FrameModel.WrappingRegionIsUnsafe | src/c/pmm.c:62-72 | a concrete page-aligned entry below 4 GB whose second frame address wraps, so that frame 0 is freed |
| FrameModel.PlainMapIsFreedExactly | src/c/pmm.c:50-77 | for a map whose type-1 entries all meet that condition and are shorter than 4 GB, exactly the frames some entry declares available are freed |
| FrameModel.EntryFitsExactly | src/c/pmm.c:62-72 | the frames freed for an entry of at least a page all have bits if and only if the last one has, or all 2^20 if the addresses wrap |
| FrameModel.WholeBytes | src/c/pmm.c:23-30 | the bitmap has exactly one bit per managed frame, for every 32-bit memory size |
| FrameModel.MemoryIsCovered | src/c/pmm.c:23-25 | the frames managed cover all memory up to mem_upper KB above 1 MB, and at most 1 MB beyond |
| FrameModel.NextEntry | src/c/pmm.c:50-77 | stepping by size+4 visits the entries of the memory map one after the other |
| MemoryMap.WordRoundTrip | src/h/multiboot.h:46-54 | four bytes, least significant first, are read back as the word they were written for, wherever they stand |
| MemoryMap.MapRoundTrip | src/c/pmm.c:47-77 | the walk over a map written from any entries, as size, 64-bit base and length, kind and any padding, reads back exactly those entries |
| MemoryMap.EncodedFreesExactly | src/c/pmm.c:50-77 | for a map written from plain entries shorter than 4 GB, the frames freed are exactly those wholly inside an entry of kind 1 |
| PhysicalMemory.Pmm.FreeRegions | src/c/pmm.c:50-77 | from a full bitmap, exactly the frames of type-1 entries become free; what an entry is in bytes is MemoryMap.MapRoundTrip |
| PhysicalMemory.Pmm.ReserveBootPages | src/c/pmm.c:85-107 | takes exactly the frames of present 4 MB boot pages out of the free ones |
| PhysicalMemory.Pmm.Initialize | src/c/pmm.c:13-108 | a frame ends up free exactly when a type-1 entry frees it, or, for a map of plain entries, declares it available, and no present boot page holds it |
| PhysicalMemory.Pmm.AllocFrame | src/c/pmm.c:110-144 | returns the address of the least free frame and takes only that one; returns 0xFFFFFFFF if and only if none is free |
| PhysicalMemory.Pmm.FreeFrame | src/c/pmm.c:146-167 | frees exactly the frame that holds the address |
| Word.BitOperations | src/c/paging.c:249-251 | on 32-bit vectors the masks and shifts of the code are the remainders and quotients of the model |
| PageModel.DirectoryReached | src/c/paging.c:294-298 | every word of the directory is reached at the directory's virtual address |
| PageModel.TableReached | src/c/paging.c:337-342 | through the self-map, word j of table i appears at 0xFFC00000 + 0x1000*i + 4*j |
| PageModel.EntryWritten | src/c/paging.c:352-355 | writing a table entry retranslates that one page and nothing else outside the recursive window |
| PageModel.TableCreated | src/c/paging.c:297-346 | creating a table changes no translation outside the recursive window and keeps tables distinct |
| PageModel.BorrowedPageRestored | src/c/paging.c:313-346 | borrowing the kernel's page 10, creating the table there and restoring the page amounts to creating the table |
| PageModel.ScratchWindow | src/c/paging.c:319-332 | while page 10 is borrowed the new table appears at 0xC000A000, whatever is written into it |
| PageModel.UnmapPageMeans | src/c/paging.c:363-386 | unmap_page makes its page untranslated and changes no other page outside the recursive window |
| FaultModel.MapMeans | src/c/paging.c:278-361 | map_page makes its page translate to the given frame, changes no other page outside the recursive window, keeps directory and tables sound, and takes no free frame if the table is there and at most one otherwise, never the one being mapped |
| AccessRights.MapWords | src/c/paging.c:288-355 | all of memory after map_page: one table word holds the frame and the low twelve bits of the directory entry; a new table is filled with 2 and entered with 3; no other word changes |
| AccessRights.UnmapWords | src/c/paging.c:363-386 | all of memory after unmap_page: one table word is 0, if there is a table; no other word changes |
| AccessRights.MapGivesRights | src/c/paging.c:348-355 | the page mapped gets the rights of its directory entry, kernel read and write if the table is new; no other page outside the recursive window changes its rights |
| AccessRights.UnmapTakesRights | src/c/paging.c:363-386 | the page unmapped has no rights left, every other page outside the recursive window keeps its own |
| AccessRights.FaultRunKeepsAccess | src/c/paging.c:177-199 | after any run of page faults every page served and every page mapped before can be read and written by the kernel and by nobody else |
| AccessRights.SwitchKeepsRights | src/c/paging.c:95-125 | outside the recursive window the new tables give every page the rights the boot directory gave it |
| FaultModel.ClashIsSkipped | src/c/paging.c:302-311 | allocating, noticing the clash, allocating again and releasing gives the table the least free frame other than the one being mapped, and nothing else changes hands |
| FaultModel.FaultKeepsIsolation | src/c/paging.c:177-199 | serving a fault keeps pages on separate frames, mapped frames in use, and directory and tables out of sight of user pages |
| FaultModel.FaultRunKeepsIsolation | src/c/paging.c:177-199 | the same over every run of page faults, and what was mapped stays mapped as it was |
| FaultModel.SwitchKeepsTranslation | src/c/paging.c:99-125 | outside the recursive window the new 4 KB tables translate every address as the boot directory's one 4 MB page did |
| FaultModel.BootPageIsReserved | src/c/pmm.c:85-107 | the boot directory's one page covers exactly the frames below 4 MB, which therefore never count as free |
| FaultModel.ReservedIsMapped | src/c/pmm.c:85-107 | for any directory of 4 MB pages the frames reserved are exactly those the hardware walk can reach |
| FaultModel.SwitchStartsIsolated | src/c/paging.c:99-142 | the new directory is sound and, with the boot page's frames reserved, no frame is shared: runs of faults start from an isolated state |
| Paging.Machine.FillIn | src/c/memory.c:13-20 | fills the frame a page shows and changes no other frame |
| Paging.Machine.BuildTables | src/c/paging.c:95-125 | writes directory and kernel table through the boot mapping, which stays in force meanwhile, and changes no other frame |
| Paging.Paging.Initialize | src/c/paging.c:10-165 | places both tables behind the frame bitmap, switches to them, leaves every translation outside the recursive window as it was and memory outside the two frames too |
| Paging.PageAfterIsLeast | src/c/paging.c:46-53 | the directory goes to the first page boundary at or behind the end of the frame bitmap |
| Paging.Paging.VirtToPhys | src/c/paging.c:244-276 | equals the hardware walk on every virtual address, directory index 1023 included; 0xFFFFFFFF if the walk fails |
| Paging.Paging.AllocTableFrame | src/c/paging.c:302-311 | the frame for a new table is never the frame being mapped, and only it leaves the free set |
| Paging.Paging.InstallTable | src/c/paging.c:313-346 | through the borrowed page, leaves memory as it was but for the new table and its directory entry, and records its recursive address |
| Paging.Paging.GetTableAttribs | src/c/paging.c:398-401 | the low twelve bits of the directory entry |
| Paging.Paging.MapPage | src/c/paging.c:278-361 | does to memory and free frames exactly what the model's map_page does, attribute bits included (AccessRights.MapWords), and keeps the records of table addresses right |
| Paging.Paging.UnmapPage | src/c/paging.c:363-386 | does to memory exactly what the model's unmap_page does |
| Paging.Paging.HandleFault | src/c/paging.c:177-199 | does to memory and free frames exactly what the model's fault step does |
| Numerals.HexRoundTrip | src/c/string.c:66-113 | parsing what put_hex prints gives the number, for every 32-bit number |
| Numerals.DecRoundTripExactly | src/c/string.c:56-64 | parsing what put_dec prints gives the number if and only if it is below 2^31 |
| Numerals.TextsAreShort | src/c/string.c:29-37 | printed numbers are NUL-free and fit the 16-bit length the parsers rely on |
| Numerals.TextsAreCanonical | src/c/vga.c:99-179 | put_hex sends 0x and digits 0 to 9 and A to F, put_dec digits 0 to 9 or, from 2^31 on, nothing; no leading zeros |
| Numerals.ParseDecMeans | src/c/string.c:56-64 | the decimal parser gives the positional value of any characters, counted from '0', modulo 2^32 |
| Numerals.ParseHexMeans | src/c/string.c:66-113 | the hexadecimal parser gives the positional value of its digits modulo 2^32 |
| Numerals.HexDigitValues | src/c/string.c:79-109 | the digits 0 to 9, A to F and a to f have the values 0 to 15 |
| Numerals.CaseIsIgnored | src/c/string.c:79-109 | turning a to f into A to F does not change what is read |
| Numerals.PrefixIsSkipped | src/c/string.c:72-75 | a leading 0x with something behind it is skipped, and nothing else is |
| Numerals.StrLen | src/c/string.c:29-37 | the number of characters before the NUL, modulo 2^16 |
| Numerals.StrToU32 | src/c/string.c:56-64 | folds the characters into a decimal value modulo 2^32 |
| Numerals.HexStrToU32 | src/c/string.c:66-113 | reads the characters within the 16-bit length as the model's parser does, whose digits, prefix and value are the rows above |
| Numerals.PutDec | src/c/vga.c:99-126 | sends the decimal digits most significant first, nothing from 2^31 on; both buffers suffice |
| Numerals.PutHex | src/c/vga.c:128-179 | sends 0x and the upper-case hexadecimal digits most significant first; both buffers suffice |
| Archive.SizeRoundTripExactly | src/c/initrd.c:86-97 | reading back a size written in octal digits is right if and only if it is below 2^32 |
| Archive.OctalMeans | src/c/initrd.c:86-97 | the value of any characters, counted from '0', in base 8 |
| Archive.FieldsInPlace | src/h/initrd.h:6-27 | with the widths of the header's fields summed up, the size is where the code looks for it and the name comes first |
| Archive.GetSize | src/c/initrd.c:86-97 | the value of the eleven octal digits modulo 2^32, right to left with a wrapping weight |
| Archive.StrideIsLength | src/c/initrd.c:108-114 | the step from one header to the next is the length of header and padded data |
| Archive.CountHeaders | src/c/initrd.c:99-120 | returns the number of members of every well-formed non-empty archive |
| Screens.PutCommutes | src/c/vga.c:24-88 | printing one character on the window shows what printing it in the never-scrolling log makes visible |
| Screens.ScreenIsWindow | src/c/vga.c:10-88 | for any characters and colour changes the 25 by 80 cells are the last 25 rows of the log |
| Screens.ScreenFromAnyStart | src/c/vga.c:24-88 | the same from any screen contents and cursor position |
| Screens.ScrolledRowsAreFinal | src/c/vga.c:69-88 | rows that have left the screen never change |
| ScreenText.PutMeans | src/c/vga.c:24-67 | backspace moves left but not beyond column 0, tab to the next multiple of 8 or the next row, newline to the start of the next row, carriage return to column 0, printable characters write one cell and move on; all others do nothing |
| ScreenText.PrintedCell | src/c/vga.c:10-58 | a cell holds the character in its low byte, then four bits of foreground and four of background |
| ScreenText.TextIsLaidOver | src/c/vga.c:15-67 | printing printable characters and newlines from the start of a row lays the text, cut at every newline and after every 80 characters, over the rows from there on, with the cursor behind its last row |
| ScreenText.ScreenShowsText | src/c/vga.c:15-88 | the same of the screen, which shows the last 25 rows of it |
| ScreenText.EraseTakesBackExactly | src/c/vga.c:24-67 | backspace, space, backspace behind a character blanks it and puts the cursor back if and only if it was not printed in the last column |
| Screens.Screen.SetTextColor | src/c/vga.c:10-13 | changes only the colours of what is printed later |
| Screens.Screen.PutChar | src/c/vga.c:24-67 | does to cells and cursor exactly what the model does, whose meaning is ScreenText.PutMeans, with the cursor on the screen and every cell index in bounds |
| Screens.Screen.Scroll | src/c/vga.c:69-88 | moves every row up by one and blanks the last when the cursor is below the screen, otherwise changes nothing |
| Boot.StartPaging | src/c/kernel.c:24-28 | pmm_initialize followed by paging_initialize: the frames left free are exactly those a type-1 entry frees, or for a plain map declares available, above the first 4 MB; nothing is shared, no translation outside the recursive window and no memory outside the two new tables changes |
| Boot.BitmapIsBehindKernel | src/c/pmm.c:28-29 | the frame bitmap starts at the first page boundary behind the kernel |
| Boot.FirstFaultMeans | src/c/vmm.c:15-30 | the fault caused by the first write to the list headers maps their page and changes no other translation outside the recursive window |
| Boot.BootListIsCollected | src/c/vmm.c:33-88 | whatever canonical list is collected from the tables in force at start-up, it is the one of the stretch below the kernel and the stretch behind the list headers' page |
| Boot.StartLists | src/c/kernel.c:30 | vmm_initialize at start-up leaves exactly these two free blocks and manages exactly what the hardware does not translate below the window; it creates three nodes, which fit the page already mapped, so the tables it reads do not change under it |
| Boot.Start | src/c/kernel.c:24-30 | the three initializations in order, from the memory map and the boot directory to the two free blocks, with paging isolated, the kernel able to write the page of the list headers and the allocator valid; before the first fault no memory outside the two new tables changes |
| NodeUse.CreatedIsMost | src/c/vmm.c:247-299 | over every run the number of nodes becomes the greatest number of blocks, free and in use, in any state of the run |
| NodeUse.Perform | src/c/vmm.c:91-157 | the calls of a run made on the real lists: they end in the state and with the number of nodes the model gives |
| NodeUse.FreeBlocksAreFew | src/c/vmm.c:212-222 | in every valid state the free list is longer than the used list by at most the number of blocks managed from the start |
| NodeRoom.NodesAreUnmanagedExactly | src/c/vmm.c:273-296 | in every run from start-up the nodes stay out of the managed addresses if and only if no state of the run has more than 203 blocks |
| NodeRoom.PerformFromStart | src/c/vmm.c:273-296 | the same of the real lists: after the calls of any run their nodes lie outside the managed addresses if and only if that holds |
| NodeRoom.PlainRunIsClearExactly | src/c/vmm.c:91-94 | n plain one-byte allocations from start-up are a legal run, and the nodes stay clear if and only if n is at most 201 |
| NodeRoom.LiveBoundIsSafeExactly | src/c/vmm.c:101-157 | a bound on the blocks in use keeps the nodes clear in every run from start-up if and only if it is at most 100 |

## Left out

- VirtualMemory.Vmm.MallocAbove: needs a block that fits the search, because the code follows the NULL its search returns otherwise; an alignment of 0, by which the code divides, is excluded. What later calls do to an allocator that an ill-fitting cut has damaged is not followed.
- VirtualMemory.Vmm.Malloc: needs room for two more node records below the end of the address space, which the code never checks.
- VirtualMemory.Vmm.Free: needs a block in use, because the code follows the head of the used list without looking.
- VirtualMemory.Vmm.Initialize: the directory and tables do not change while the lists are built. At start-up that is so (Boot.StartLists); for tables that make the arena grow past its first page the page faults it causes are not part of it.
- VirtualMemory.Vmm.GetUnusedNode: its own contract does not keep node storage apart from the addresses handed out, because the code does not look; when that holds is NodeRoom.NodesAreUnmanagedExactly.
- Paging.Paging.MapPage: directory index 1023 and the page through which the directory itself is reached are excluded, and some frame other than the one being mapped must be free if a table is needed; otherwise the code writes through a table it no longer reaches.
- Paging.Paging.Initialize: both tables must lie inside the 4 MB mapped at boot; the code prints a complaint when they do not, and goes on.
- Paging.Paging.VirtToPhys: for the current directory only.
- PhysicalMemory.Pmm.Initialize: the entries of the memory map tile it exactly and the frames they free fit the bitmap (for one entry FrameModel.EntryFitsExactly says when); the code writes past the bitmap when they do not.
- PhysicalMemory.Pmm.FreeRegions: the same.
- Archive.CountHeaders: an empty archive is excluded; the code counts at least one header.
- The translation look-aside buffer, `invlpg` and the control registers, except for the directory address and the page-size extension bit that decide how addresses are translated; accessed and dirty bits set by the processor.
- That the frame bitmap, the stack and the kernel image lie in memory the tables also describe; the bitmap is separate storage here.
- `copy_page_directory`, `copy_page_table` and `change_page_directory`, which only copy.
- Screen output of the other components, cursor port writes, `clear_screen` and `clear_line`, which would add only easy members.
- Halting loops on misuse, which are preconditions here; GDT, IDT, timer, keyboard and terminal; `initrd_initialize` and the printing of headers and files; unused string and memory helpers.
