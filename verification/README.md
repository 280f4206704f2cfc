# Verified model of an i686 kernel

This project models the parts of a small i686 kernel that keep data structures consistent, and proves what
they promise, in Dafny. `dafny verify dfyconfig.toml` checks all of it. The model follows the code: where the
code departs from its comments, the code is modelled, a theorem says for all inputs exactly when the promise is
kept, and a lemma gives a case in which it is not.

| part | files |
|---|---|
| kernel heap | `HeapLayout.dfy` (lists of blocks), `HeapTheorems.dfy` (what malloc and free promise), `KernelHeap.dfy` (the pointer code) |
| ext2 block map | `BlockMap.dfy` (layout and pointer tree), `FileBlocks.dfy` and `FileBlockTheorems.dfy` (lookup and set) |
| ext2 allocation | `BlockTable.dfy` (bitmaps and searches), `BlockAllocator.dfy` (allocate, nest, roll back, free), `AllocationRuns.dfy`, `Truncate.dfy` (the recursion), `FileWalk.dfy` and `FileTruncation.dfy` (what it means for a file), `BitmapCache.dfy` |
| ext2 directories | `DirCodec.dfy` (entries and their layout), `DirectoryFile.dfy` (reading and flushing) |
| paging | `Paging.dfy` (the two-level table as a map), `PageTables.dfy`, `PageFrames.dfy` and `PageFrameAllocators.dfy`, `FrameOwnership.dfy` (no frame lost or in use twice), `ProcessMemory.dfy` |
| processes | `ProcessTable.dfy`, `Scheduling.dfy`, `Signals.dfy` and `SignalTheorems.dfy` (a state machine over polls and waits), `SignalManager.dfy` (its code), `Polling.dfy` and `WaitReplies.dfy` (what the calls answer), `Reaping.dfy`, `Children.dfy`, `Sleepers.dfy` and `Reissue.dfy` (whose child a wait hands over), `FileCounts.dfy` and `OpenFiles.dfy` |
| clock | `Clock.dfy` |
| shared | `Arithmetic.dfy` |

Objects whose methods change their fields are classes; their methods are proved against functions or predicates
on the old and new state, and the theorems are lemmas about those. Memory of the heap is a map from addresses to
headers; the device is a map from block addresses to addresses or bytes; devices and clocks that the kernel waits
for are parameters.

What the theorems say where code and comments part:

- Heap: `find_free_block` subtracts in `size_t`, so a block whose aligned start lies behind its end passes the
  test (`kernel/cpp/KernelHeap.cpp:243`). `MallocExact` says for which requests malloc keeps its promise, and
  `MallocReuses` and `MallocExtends` which block a request gets. The
  similar subtraction at line 343 wraps only if the sentinel is aligned already, and then rewrites it in place.
- Block map: the lookup shadows its triple indirect pointer (`kernel/cpp/Ext.cpp:1470`), and new pointer blocks
  below another pointer block are zeroed but never written to their entry (lines 1636-1646 and 1688-1699).
  `SetThenLookup` and `SetOne` say which blocks are found again, `SetThenAstray` which other lookups a set
  disturbs.
- Allocation: some searches go on after a find (lines 1936-1959 and 1968-1989). `AllocationBalance` and
  `RunKeepsCount` say when the superblock count stays right. Freed blocks lower the count of their group's
  descriptor (line 2081), which `DescriptorDrifts` measures: it wraps when a block of a full group is freed. The
  superblock count is right then; but a descriptor that claims free blocks for a full bitmap lets a later search
  leave the bitmap, and `ReadableExactly` says which searches do. The runs have none of those.
- Waiting: a parent's list of children is never pruned, and identifiers are issued again. `RunOwn` and `ForkExact`
  say for which forks every wait still hands its caller one of its own children, `RunKnown` for which every child
  stays on its parent's list.
- Allocation of pointer blocks: the search for one starts in group zero (lines 1864-1865) and may end at its first
  block. Where that is block zero, the caller takes it for a failure; `LinkSucceeds` says when.
- Truncation stops at the first zero pointer. `TruncateFreesFile` says which files lose all their blocks.
- Directories: padding adds to the size instead of replacing it (line 941). `InBlocksExactly` says which
  directories are written without an entry across a block boundary.
- Paging: the second search of `map` tests one page over and over and does not stop at a find
  (`kernel/cpp/PageDescriptorTable.cpp:570-590`); mapping physical page zero takes any frame. The contract of
  `Map` says exactly when it succeeds.
- Frames: the second search of `allocate` looks at page zero only
  (`kernel/cpp/PageFrameAllocator.cpp:257-264`), and an available region inside one word frees the pages before it
  (lines 118-133). `FreePages` says exactly which pages are free once the memory map is read.
- Heap of a process: freeing starts at the break itself (`kernel/cpp/Process.cpp:543-549`), which is the lowest
  stack page when the break has reached the stack; and page-aligned breaks keep their page.
- Clock: a sleep whose end lies behind the wrap of the clock returns at once (`kernel/cpp/Pit.cpp:54-58`).
- The repository has no exit call and does not call `notify_wait`. The exit of a process is modelled as becoming a
  zombie and `notify_wait` in one step.

## Model

| member | source | states |
|---|---|---|
| `KernelHeap.Heap.constructor` | kernel/cpp/KernelHeap.cpp:145-168 | a new heap is one list block, the sentinel `last`, at the start address rounded up to the heap alignment |
| `KernelHeap.Heap.AlignPower` | kernel/cpp/KernelHeap.cpp:213-220 | the shifts find the exponent of the alignment, never below the heap's own |
| `KernelHeap.Heap.Search` | kernel/cpp/KernelHeap.cpp:204-289 | the walk over the headers stops at the first block the test accepts, or at `last`, and knows the header before it |
| `KernelHeap.Heap.MoveUp` | kernel/cpp/KernelHeap.cpp:245-280 | moving a header up to the aligned start splits the front off, or gives the gap to the block before, or moves `start` |
| `KernelHeap.Heap.Take` | kernel/cpp/KernelHeap.cpp:292-307 | the block taken is marked, and its tail split off when a header and an aligned byte count fit |
| `KernelHeap.Heap.FindFreeBlock` | kernel/cpp/KernelHeap.cpp:198-310 | a search that finds a block leaves memory that represents the carved list, and one that overshoots leaves what the theorems say of it; one that finds none changes nothing |
| `KernelHeap.Heap.NewBlock` | kernel/cpp/KernelHeap.cpp:314-399 | the list is extended by one block at the aligned address with a new sentinel behind it |
| `KernelHeap.Heap.AlignLast` | kernel/cpp/KernelHeap.cpp:326-383 | the sentinel moves up to an aligned address in the three ways of `new_block` |
| `KernelHeap.Heap.GrowPages` | kernel/cpp/KernelHeap.cpp:320-324 | pages are added until the sentinel to be lies below `next_page_addr` |
| `KernelHeap.Heap.Malloc` | kernel/cpp/KernelHeap.cpp:172-194 | the pointer code computes exactly the list operation whose correctness `MallocExact` states; when that is not a list the links in memory are not one either |
| `KernelHeap.Heap.Free` | kernel/cpp/KernelHeap.cpp:117-141 | the pointer code computes exactly the release of the block that owns the address, and nothing for the null pointer |
| `KernelHeap.Heap.MergeForward` | kernel/cpp/KernelHeap.cpp:136-140 | the merging loop joins the whole run of free blocks behind the block, and never the sentinel |
| `KernelHeap.DescentIsNoHeap` | kernel/cpp/KernelHeap.cpp:243-262 | headers that are reached in descending order of address are not the links of any heap: what an overshooting split leaves behind |
| `HeapTheorems.MallocExact` | kernel/cpp/KernelHeap.cpp:172-399 | malloc returns fresh space aligned to the request, at least as large as asked for, moves and shrinks no live block and keeps the tiling, if and only if the search does not stop at a block whose aligned start lies behind its end, or that start is the sentinel's with nothing live in between |
| `HeapTheorems.MallocReuses` | kernel/cpp/KernelHeap.cpp:198-310 | malloc takes the first free block in which the size, rounded up, fits behind the aligned start of the data, unless a block before it wraps; the heap does not grow, what is left in front and behind stays free where it makes a block, and no other block is touched |
| `HeapTheorems.MallocExtends` | kernel/cpp/KernelHeap.cpp:314-399 | if no free block has that room and none wraps, the heap grows by one block of exactly the rounded size |
| `HeapTheorems.OvershootExample` | kernel/cpp/KernelHeap.cpp:243 | a heap and a request for which the wrapping subtraction of the test loses the list |
| `HeapTheorems.OvershootReached` | kernel/cpp/KernelHeap.cpp:117-399 | that heap is reached from a new one by two requests and a free |
| `HeapTheorems.FirstFitAccepts` | kernel/cpp/KernelHeap.cpp:204-289 | the search stops at the first block its test accepts; `MallocReuses` says which that is without the test |
| `HeapTheorems.CarveTiles` | kernel/cpp/KernelHeap.cpp:245-307 | the four ways to carve a block out of a free one keep the list a tiling of memory |
| `HeapTheorems.CarveKeepsLive` | kernel/cpp/KernelHeap.cpp:245-307 | they keep every live block where it was, at least as large, and make one new live block |
| `HeapTheorems.ExtendTiles` | kernel/cpp/KernelHeap.cpp:314-399 | extending the heap in its three ways keeps the tiling |
| `HeapTheorems.ExtendKeepsLive` | kernel/cpp/KernelHeap.cpp:314-399 | it keeps every live block and makes one |
| `HeapTheorems.SwallowLoses` | kernel/cpp/KernelHeap.cpp:243-262 | when an overshooting block is stretched to the sentinel, a live block in between is lost |
| `HeapTheorems.FreeCorrect` | kernel/cpp/KernelHeap.cpp:117-141 | free turns the block and the whole free run behind it into one free block, keeps the tiling and every other live block, and leaves the sentinel |
| `HeapTheorems.BytesFillHeap` | kernel/cpp/KernelHeap.cpp:99-107 | the dump's corruption test, summed up: headers and sizes account for every byte from the first block to the sentinel |
| `HeapTheorems.RunKeepsLive` | kernel/cpp/KernelHeap.cpp:117-399 | over any run of sound requests and frees, a block that is not freed is still live at its address with its size |
| `HeapLayout.Log2OfPow2` | kernel/cpp/KernelHeap.cpp:213-220 | for a power of two the shifts find its exponent |
| `HeapLayout.AlignedStartBounds` | kernel/cpp/KernelHeap.cpp:235-237 | the aligned start is a multiple of the alignment, at or above the data and less than one alignment further |
| `FileBlocks.FileMap.InodeLookup` | kernel/cpp/Ext.cpp:1444-1530 | the walk with its shadowed pointer computes `Lookup` |
| `FileBlocks.FileMap.NewPointerBlock` | kernel/cpp/Ext.cpp:1579-1597 | a new block of pointers is zeroed, taken from the free blocks and, where the code links it, becomes the target of that pointer alone |
| `FileBlocks.FileMap.Descend` | kernel/cpp/Ext.cpp:1569-1654 | the walk to the last-level pointer: it fails exactly if more blocks of pointers are missing than are free, and links the first new one in the inode only |
| `FileBlocks.FileMap.PointerBlock` | kernel/cpp/Ext.cpp:1569-1711 | the same including the last level |
| `FileBlocks.FileMap.InodeSet` | kernel/cpp/Ext.cpp:1534-1727 | it succeeds exactly if the device is writable, the block is in range and enough blocks are free; then exactly the spot of the block changes, if its pointer block is linked; failing it changes no address |
| `BlockMap.WhereRoundTrip` | kernel/cpp/Ext.cpp:1447-1530 | the layout of direct, single, double and triple indirect pointers gives every block of a file an entry of its own |
| `BlockMap.EveryEntryIsUsed` | kernel/cpp/Ext.cpp:1447-1530 | and every entry of a last-level pointer block is that of a block of the file, so the largest file is as large as the layout allows |
| `BlockMap.LookupFollowsLayout` | kernel/cpp/Ext.cpp:1454-1528 | up to the double indirect range the lookup finds the entry of the layout |
| `BlockMap.LookupGoesAstray` | kernel/cpp/Ext.cpp:1463-1510 | in the triple range it ends at another entry: one pointer block too early, or in the single indirect block |
| `BlockMap.WriteLeaf` | kernel/cpp/Ext.cpp:1713-1724 | writing an entry of a last-level pointer block changes that spot and no other, and no pointer block |
| `BlockMap.WriteUnowned` | kernel/cpp/Ext.cpp:1588-1597 | writing a block that is none of the file's pointer blocks changes nothing the file leads to |
| `BlockMap.LinkZeros` | kernel/cpp/Ext.cpp:1583-1597 | linking a block of zeros into the inode adds a pointer block and changes no address |
| `FileBlockTheorems.SetOne` | kernel/cpp/Ext.cpp:1534-1727 | setting a block changes the address the layout gives that block and no other, in all four ranges, and is lost exactly if its pointer block is new and not linked |
| `FileBlockTheorems.SetThenLookup` | kernel/cpp/Ext.cpp:1444-1727 | a lookup after a successful set gives the new address if and only if the block is in the single or double range and its pointer block is linked; other lookups below the triple range are unchanged |
| `FileBlockTheorems.SetThenAstray` | kernel/cpp/Ext.cpp:1463-1727 | a lookup in the triple range changes with a set, of that block or another, if and only if it goes astray into the very entry that is written, or, when a new triple indirect pointer is linked, into a used entry of the single indirect block |
| `FileBlockTheorems.FailedSetAstray` | kernel/cpp/Ext.cpp:1574-1700 | a set that fails changes such a lookup exactly when it has linked a new triple indirect pointer and the lookup goes astray into a used entry |
| `FileBlockTheorems.ThiefBlock` | kernel/cpp/Ext.cpp:1463-1510 | a file with all its pointer blocks in which setting block 12 changes the lookup of block 14 |
| `FileBlockTheorems.FailedSet` | kernel/cpp/Ext.cpp:1574-1700 | a set that fails changes no address of the file |
| `FileBlockTheorems.LostBlock` | kernel/cpp/Ext.cpp:1682-1699 | a file whose block is lost when it is set, because the new pointer block is not written to its entry |
| `BlockAllocator.Allocator.Scan` | kernel/cpp/Ext.cpp:1891-1901 | a search loop stops at the first clear bit |
| `BlockAllocator.Allocator.Search` | kernel/cpp/Ext.cpp:1883-1990 | the searches end at the bit `Pick` names, whether or not it is clear |
| `BlockTable.PickIsClear` | kernel/cpp/Ext.cpp:1883-1990 | for all descriptor counts the bit picked is clear unless the search overran: then it is the bit at the start index of a group that is named |
| `BlockTable.ReadableExactly` | kernel/cpp/Ext.cpp:1883-1990 | the condition under which searches are modelled leaves out exactly those that test a bit behind a bitmap, or end at one |
| `BlockTable.PickFinds` | kernel/cpp/Ext.cpp:1883-1994 | a block is found if and only if some group that admits free blocks has one, other than the previous block of the file |
| `BlockTable.PickOrder` | kernel/cpp/Ext.cpp:1883-1990 | which free block is taken where the search does not overrun: in the group of the inode, with the previous block there, the first one behind that block, else the first before it; and the choice in every other case |
| `BlockAllocator.Allocator.AllocateNewBlock` | kernel/cpp/Ext.cpp:1857-2054 | the method computes `Allocation`, with its nested allocation of pointer blocks and its rollback |
| `BlockAllocator.Allocator.Link` | kernel/cpp/Ext.cpp:2021-2025 | the nested allocations stop at the first block that is not found |
| `BlockAllocator.SlipsExactly` | kernel/cpp/Ext.cpp:1934-1960 | a block in use is taken if and only if the search overruns and the bit at its start index is set |
| `BlockAllocator.HonestIsBounded` | kernel/cpp/Ext.cpp:1883-1990 | with descriptors that claim no more than their bitmaps have, no search leaves a bitmap, those for pointer blocks included |
| `BlockAllocator.AllocationBalance` | kernel/cpp/Ext.cpp:1857-2054 | for all descriptor counts the superblock count keeps its distance from the number of clear bits if and only if neither the search for the block nor one for a pointer block overruns onto a block in use, whether the allocation succeeds or is rolled back |
| `BlockAllocator.AllocationTakes` | kernel/cpp/Ext.cpp:1996-2054 | a block handed out is in use afterwards, and was in use before if and only if the search overran onto a block in use |
| `BlockAllocator.RollbackLeaves` | kernel/cpp/Ext.cpp:2021-2034 | the exact tables after a roll back: the block is free and counted again, and the pointer blocks taken before the failure stay in use and counted |
| `BlockAllocator.RollbackRestores` | kernel/cpp/Ext.cpp:2021-2034 | an allocation that is rolled back before it needs a pointer block restores the tables, provided that it took a free block |
| `BlockAllocator.RefusedExactly` | kernel/cpp/Ext.cpp:1857-2005 | an allocation changes nothing if and only if the device is read only or full by the count, no group that admits blocks has one to find, or the search ends behind the file system |
| `BlockAllocator.LinkSucceeds` | kernel/cpp/Ext.cpp:1910-2005 | with honest descriptors the pointer blocks are all found if and only if there are as many free ones, and not if the search ends at block zero: in a file system without a boot block that is every search for a file outside group zero while group zero admits blocks |
| `BlockAllocator.AllocationSucceeds` | kernel/cpp/Ext.cpp:1857-2054 | with honest descriptors an allocation that is not refused hands out its block if and only if it is not block zero, a pointer leads to it and the pointer blocks can be found |
| `BlockAllocator.PointerSlips` | kernel/cpp/Ext.cpp:1910-1960 | the guard under which a pointer block is taken from a block in use is exact; with honest descriptors it is that the file is outside group zero and group zero admits free blocks |
| `BlockAllocator.Allocator.DeallocateBlock` | kernel/cpp/Ext.cpp:2058-2088 | the block's bit is cleared and the counts changed only if it was set; blocks out of range are refused |
| `BlockAllocator.FreedEffect` | kernel/cpp/Ext.cpp:2058-2088 | freeing clears that block's bit and no other and keeps the superblock count in step |
| `BlockAllocator.DescriptorDrifts` | kernel/cpp/Ext.cpp:2079-2085 | the group descriptor moves two away from its bitmap, and wraps and claims more than the bitmap has exactly if its count was zero |
| `AllocationRuns.RunKeepsCount` | kernel/cpp/Ext.cpp:1857-2088 | after any run of allocations and frees, failing and nested ones included and whatever the descriptors count, the superblock count is the number of clear bits over all bitmaps if and only if no allocation of the run took a block in use |
| `AllocationRuns.WrapExample` | kernel/cpp/Ext.cpp:2079-2085 | a block of a full group is freed and taken again: the superblock count is right, and the descriptor no longer stops a search from leaving the bitmap |
| `Truncate.OpenFile.TruncateRecursive` | kernel/cpp/Ext.cpp:744-789 | the recursion frees exactly the blocks that `Visit` lists, in that order, and reports a zero pointer |
| `Truncate.OpenFile.TruncateDirect` | kernel/cpp/Ext.cpp:686-696 | the direct pointers are freed and cleared up to the first zero one |
| `Truncate.OpenFile.ClearPointers` | kernel/cpp/Ext.cpp:684-723 | the pointers of the inode are freed and cleared exactly up to the first under which a zero pointer is met |
| `Truncate.OpenFile.TruncateFile` | kernel/cpp/Ext.cpp:671-740 | nothing happens for a file not open for writing or of size zero; otherwise size and sectors become zero as well |
| `Truncate.VisitFreesDense` | kernel/cpp/Ext.cpp:744-789 | a subtree has all its blocks freed if and only if no zero pointer comes before a block in it |
| `Truncate.FreeAllExact` | kernel/cpp/Ext.cpp:744-789 | freeing a list of blocks clears the bits of exactly those blocks and raises the count by their number |
| `Truncate.TruncateFreesAll` | kernel/cpp/Ext.cpp:671-789 | truncating gives back every data and pointer block of the file, each once, if and only if the file is dense; the free count then rises by exactly that number |
| `Truncate.DenseClears` | kernel/cpp/Ext.cpp:684-723 | truncating a dense file leaves no pointer in its inode |
| `FileWalk.WalkCoversFile` | kernel/cpp/Ext.cpp:671-789 | the walk of truncation covers exactly the blocks that the layout of the file gives addresses, and its pointer blocks |
| `FileWalk.WalkOnce` | kernel/cpp/Ext.cpp:671-789 | it lists none twice if no address stands for two of them |
| `FileTruncation.WalkIsGapless` | kernel/cpp/Ext.cpp:744-789 | the walk meets no zero pointer before a block if and only if nothing comes behind a missing block of the file: no block, and no pointer block that leads to later ones only |
| `FileTruncation.TruncateFreesFile` | kernel/cpp/Ext.cpp:671-789 | truncating a file by its block map frees blocks of that file only, keeps the superblock count in step, and frees all of them, pointer blocks included, if and only if nothing comes behind a missing block |
| `BitmapCache.BlockAlloc.CacheBlockAlloc` | kernel/cpp/Ext.cpp:2317-2364 | a bitmap is read once, if its group exists and the device can be read |
| `BitmapCache.BlockAlloc.Access` | kernel/cpp/Ext.cpp:1788-1803 | the byte operations set or clear the bit and mark the bitmap modified, or do nothing if it cannot be read |
| `BitmapCache.BlockAlloc.Read` | kernel/cpp/Ext.cpp:1806-1814 | the bit of the cached bitmap is returned, and "in use" if it cannot be read |
| `BitmapCache.BlockAlloc.FlushBlockAlloc` | kernel/cpp/Ext.cpp:2368-2408 | it succeeds exactly if no modified bitmap fails to be written; then the device holds every bitmap as it was seen, and no other block changed |
| `BitmapCache.WriteOneBit` | kernel/cpp/Ext.cpp:1798-1802 | or-ing with a mask, or and-ing with its complement, changes one bit of a byte |
| `BitmapCache.PutOneBit` | kernel/cpp/Ext.cpp:1788-1803 | setting a bit changes that bit of that group in the view of the file system and nothing on the device |
| `BitmapCache.DropFlushes` | kernel/cpp/Ext.cpp:2372-2404 | one bitmap of a flush keeps the view |
| `BitmapCache.RunIsTransparent` | kernel/cpp/Ext.cpp:1788-2408 | after any run of sets, reads and flushes the file system sees for each bit the value last set, or the original bit, and the other blocks of the device are unchanged |
| `BitmapCache.ReadableRun` | kernel/cpp/Ext.cpp:1788-2408 | while the device can be read no set is lost: each bit is the value last set in the run, or the original, whatever was flushed or failed to be |
| `DirCodec.ParseAllBytes` | kernel/cpp/Ext.cpp:816-877 | reading the bytes of entries gives back the entries that have an inode |
| `DirCodec.RoundTrip` | kernel/cpp/Ext.cpp:794-969 | flushing and reading again gives the same inodes, names and type bytes, with sizes that are multiples of four and fill the file exactly |
| `DirCodec.InBlocksExactly` | kernel/cpp/Ext.cpp:933-962 | no entry crosses a block boundary if and only if the first fits a block and all entries end in the block the first ends in: the padding always makes an entry cross |
| `DirCodec.PaddingAsMeant` | kernel/cpp/Ext.cpp:938-942 | one step of padding to the end of the block, as the comment asks, keeps the entry in its block and the next one whole |
| `DirCodec.MeantExactly` | kernel/cpp/Ext.cpp:927-963 | with that padding all entries of a directory would be whole and in one block each, if and only if each fits a block |
| `DirectoryFile.Directory.constructor` | kernel/cpp/Ext.cpp:794-884 | the reading loop computes `Parse` |
| `DirectoryFile.Directory.SizeEntries` | kernel/cpp/Ext.cpp:911-925 | each size becomes what the entry needs, rounded up to four |
| `DirectoryFile.Directory.WriteEntry` | kernel/cpp/Ext.cpp:928-963 | one entry is padded and written at its position |
| `DirectoryFile.Directory.Flush` | kernel/cpp/Ext.cpp:893-969 | the file becomes the bytes of the entries with the sizes of `Layout`, and nothing changes if there are no edits |
| `DirectoryFile.Directory.NewEntry` | kernel/cpp/Ext.cpp:1001-1037 | an entry is added exactly if the directory is writable, the name is not empty and the entry fits a block; the length kept for it is right if and only if the name has fewer than 256 bytes, or 65536 without a type field |
| `PageTables.PageDescriptorTable.Translate` | kernel/cpp/PageDescriptorTable.cpp:785-841 | the two-level walk gives the frame of the page and the offset, or zero |
| `PageTables.PageDescriptorTable.Allocate` | kernel/cpp/PageDescriptorTable.cpp:147-265 | it succeeds exactly if the page is unmapped and there is a frame, and then binds that page alone, in a new page table if there is none |
| `PageTables.PageDescriptorTable.Free` | kernel/cpp/PageDescriptorTable.cpp:395-450 | it removes that page alone, and its page table exactly with the last page in it |
| `PageTables.PageDescriptorTable.Empty` | kernel/cpp/PageDescriptorTable.cpp:40-51 | a page table is empty if no entry is present |
| `PageTables.PageDescriptorTable.FindRun` | kernel/cpp/PageDescriptorTable.cpp:538-593 | the searches find the lowest free run from the hint on despite the skip-ahead; below the hint they end at the highest unmapped page |
| `PageTables.PageDescriptorTable.Map` | kernel/cpp/PageDescriptorTable.cpp:521-624 | it succeeds if and only if the run it chose is free and a frame is left for physical page zero; the run is then mapped and nothing else changed, and a failure leaves the pages mapped so far |
| `PageTables.PageDescriptorTable.Unmap` | kernel/cpp/PageDescriptorTable.cpp:628-651 | it removes exactly the pages of the range, and frees no frame |
| `Paging.BindBinds` | kernel/cpp/PageDescriptorTable.cpp:233-249 | the two-level table refines a partial map: setting an entry binds one page |
| `Paging.UnbindUnbinds` | kernel/cpp/PageDescriptorTable.cpp:435-449 | clearing an entry unbinds one page |
| `Paging.ViewDetermines` | kernel/cpp/PageDescriptorTable.cpp:147-450 | directories with the same map are the same, since no page table is empty |
| `Paging.SkipAhead` | kernel/cpp/PageDescriptorTable.cpp:543-562 | a mapped page spoils every run it lies in, so the search may go on behind it |
| `Paging.MappedTranslates` | kernel/cpp/PageDescriptorTable.cpp:606-623 | every address of a mapped range translates to its physical address |
| `Paging.UnmapUndoesMap` | kernel/cpp/PageDescriptorTable.cpp:521-651 | unmapping what was mapped restores the directory, page tables included |
| `Paging.SecondSearchMisses` | kernel/cpp/PageDescriptorTable.cpp:568-590 | a directory in which the second search misses a free run |
| `ProcessMemory.Process.SetUserStack` | kernel/cpp/Process.cpp:455-499 | the break stays at or below the stack and the heap mapped, also when it fails part way; exactly the pages that the stack gains are mapped; it fails only for a stated reason, and no frame is lost or in use twice |
| `ProcessMemory.Process.Grow` | kernel/cpp/Process.cpp:533-542 | the pages a larger break needs are mapped in order, up to the first that cannot be |
| `ProcessMemory.Process.Shrink` | kernel/cpp/Process.cpp:543-549 | exactly the pages behind the new break, up to that of the old break, are freed, and their frames go back to the allocator |
| `ProcessMemory.Process.Brk` | kernel/cpp/Process.cpp:503-561 | the break moves exactly when it returns 0; the heap from the program's end to the break stays mapped and below the stack, also when it fails part way; no frame is lost and none is in use twice |
| `ProcessMemory.ShrinkingAndStack` | kernel/cpp/Process.cpp:543-549 | moving the break down keeps the stack mapped if and only if the old break is below the bottom of the stack |
| `ProcessMemory.ShrinkingAndGrowth` | kernel/cpp/Process.cpp:520-549 | after moving down, the first page a larger break needs is still mapped if and only if the new break is page aligned |
| `ProcessMemory.FailingAndGrowth` | kernel/cpp/Process.cpp:533-542 | after a call that failed with a page mapped, a second call for any break that needs a page stops at that page and maps none |
| `FrameOwnership.BindConserves` | kernel/cpp/PageDescriptorTable.cpp:147-265 | mapping a page to the allocator's next frame loses no frame and puts none to use twice |
| `FrameOwnership.UnbindConserves` | kernel/cpp/PageDescriptorTable.cpp:395-450 | neither does removing a page and giving its frame back |
| `SignalManager.Manager.Ask` | kernel/cpp/SignalManager.cpp:36-118 | the first half of poll computes `Polled`: the count of ready requests, an error, or registration and sleep |
| `SignalManager.Manager.Register` | kernel/cpp/SignalManager.cpp:50-101 | one pending poll per request that is neither ready nor bad |
| `SignalManager.Manager.StartPoll` | kernel/cpp/SignalManager.cpp:48-118 | registration followed by the counts |
| `Polling.PollCallReply` | kernel/cpp/SignalManager.cpp:36-118 | a call with requests and time replies with the number of requests that are ready, if any is; with -1 if none is valid; and else puts every valid one on the list and sleeps |
| `Polling.ReventsAre` | kernel/cpp/SignalManager.cpp:36-78 | for each request it writes back that it is not valid, or the requested events that have happened; all of them for a file in memory |
| `Polling.EventRecorded` | kernel/cpp/SignalManager.cpp:152-183 | an event on a device is recorded in exactly the polls that ask for it there, and makes exactly the sleeping processes that own one runnable |
| `Polling.TickRecorded` | kernel/cpp/SignalManager.cpp:374-405 | a tick runs down every poll that can time out, and makes exactly the sleeping processes whose time is up runnable |
| `SignalManager.Manager.FinishPoll` | kernel/cpp/SignalManager.cpp:121-148 | the second half returns the number of fired requests and removes the caller's entries and no others |
| `SignalManager.Manager.NotifyFile` | kernel/cpp/SignalManager.cpp:152-183 | the loop over the pending polls computes `Notified` |
| `SignalManager.Manager.TickDown` | kernel/cpp/SignalManager.cpp:374-405 | the loop over the pending polls computes `Ticked` |
| `SignalManager.Manager.NotifyWait` | kernel/cpp/SignalManager.cpp:279-320 | the ending of a child computes `Ended` |
| `SignalManager.Manager.StartWait` | kernel/cpp/SignalManager.cpp:187-247 | the first half of waitpid computes `Waited` |
| `SignalManager.Manager.FinishWait` | kernel/cpp/SignalManager.cpp:250-275 | the second half computes `Resumed` |
| `SignalManager.Manager.Collect` | kernel/cpp/Syscall.cpp:374-385 | the wait call removes an ended child from the process table with its own entries |
| `SignalManager.Manager.Purge` | kernel/cpp/SignalManager.cpp:324-351 | all entries of a process are removed and no others |
| `SignalTheorems.StepKeeps` | kernel/cpp/SignalManager.cpp:15-405 | every step keeps both invariants: no sleeping process owns a poll that has fired or timed out, and exits are neither lost nor duplicated |
| `SignalTheorems.RunKeeps` | kernel/cpp/SignalManager.cpp:15-405 | the same over every interleaving |
| `SignalTheorems.BootRunKeeps` | kernel/cpp/SignalManager.cpp:15-405 | so in every state that can be reached from the first process |
| `SignalTheorems.PollReply` | kernel/cpp/SignalManager.cpp:121-148 | a process that leaves its poll with nothing fired has timed out, and none of its entries remain |
| `SignalTheorems.FileEventWakes` | kernel/cpp/SignalManager.cpp:152-183 | a device event leaves no process asleep that polls for it |
| `SignalTheorems.WaitReply` | kernel/cpp/SignalManager.cpp:187-247 | a wait that does not block returns an ended process of the caller's list with its status; the list keeps its identifier |
| `SignalTheorems.WaitResumeReply` | kernel/cpp/SignalManager.cpp:250-275 | so does one that blocked |
| `WaitReplies.WaitCallReply` | kernel/cpp/SignalManager.cpp:187-247 | a wait call answers with the first ended process on the list that it is for; blocks if there is none; and fails if the caller lists none that it is for |
| `WaitReplies.CodesAreExits` | kernel/cpp/SignalManager.cpp:279-320 | in every state of a run the status kept for an ended process is the one it last ended with |
| `WaitReplies.WaitHandsExit` | kernel/cpp/SignalManager.cpp:187-275 | so a wait hands over the status that the process gave with its exit |
| `Reaping.OwnDelivers` | kernel/cpp/SignalManager.cpp:187-275 | while every process that a live process lists is its child, no wait hands out a child of another process |
| `Reaping.ExitReachesParent` | kernel/cpp/SignalManager.cpp:279-320 | and an exit that wakes a waiting process wakes the parent |
| `Reaping.ForkOwn` | kernel/cpp/Syscall.cpp:172-194 | a fork keeps the lists right if and only if no other live process lists the identifier it issues |
| `Reaping.RunOwn` | kernel/cpp/Syscall.cpp:146-195 | the lists are right in all states of a run if and only if no fork of it issues a listed identifier |
| `Reaping.RunDelivers` | kernel/cpp/SignalManager.cpp:187-275 | from the first process on, no wait of a run without such forks hands out another's child |
| `Children.ForkKnown` | kernel/cpp/Syscall.cpp:172-194 | a fork keeps every child on its parent's list if and only if no process has outlived a parent with the identifier it issues |
| `Children.RunKnown` | kernel/cpp/Syscall.cpp:146-195 | every child is on its parent's list in all states of a run if and only if no fork of it issues such an identifier |
| `Children.EndedIsListed` | kernel/cpp/SignalManager.cpp:279-320 | the ended children of a running process are all on the list of ended ones |
| `Children.ChildIsHanded` | kernel/cpp/SignalManager.cpp:187-247 | a running process is handed each of its ended children with its status when it asks for it, and one of them when it asks for any |
| `Children.ExitWakesParent` | kernel/cpp/SignalManager.cpp:279-320 | a parent that sleeps in a wait for a child is awake once it has ended |
| `Children.RunHands` | kernel/cpp/SignalManager.cpp:187-320 | in a run from the first process without such forks no ended child of a running process is lost to it |
| `Children.ForkedPoll` | kernel/cpp/Process.cpp:213-217 | after a fork a poll of the child answers as the parent's would have |
| `Sleepers.StepGrounded` | kernel/cpp/SignalManager.cpp:36-118 | every step keeps that a sleeping process polls or waits and that each pending poll can fire |
| `Reissue.ClosedStep` | kernel/cpp/SignalManager.cpp:187-320 | processes blocked in waits for each other, or for processes that do not exist, stay so in every step that issues no listed identifier |
| `Reissue.Drive` | kernel/cpp/SignalManager.cpp:121-320 | a process that is not so blocked can be made to run, without a fork |
| `Reissue.ForkExact` | kernel/cpp/Syscall.cpp:172-194 | after a fork, whatever follows without issuing a listed identifier hands no process another's child, if and only if nobody waits for the identifier issued and all other live processes that list it are blocked for good |
| `Reissue.ReachedForkExact` | kernel/cpp/Syscall.cpp:146-195 | the same for every state that such a run from the first process reaches |
| `Reissue.StolenChild` | kernel/cpp/Syscall.cpp:172-194 | a run in which a process reaps another's child whose identifier was issued again, and the parent waits in vain |
| `SignalTheorems.FileEventKeeps` | kernel/cpp/SignalManager.cpp:152-183 | the step of a device event keeps the invariants |
| `SignalTheorems.TickKeeps` | kernel/cpp/SignalManager.cpp:374-405 | the step of a tick keeps the invariants |
| `SignalTheorems.PollCallKeeps` | kernel/cpp/SignalManager.cpp:36-118 | the step of a poll call keeps the invariants |
| `SignalTheorems.WaitCallKeeps` | kernel/cpp/SignalManager.cpp:187-247 | the step of a wait call keeps the invariants |
| `SignalTheorems.WaitResumeKeeps` | kernel/cpp/SignalManager.cpp:250-275 | the step of a woken wait keeps the invariants |
| `SignalTheorems.ExitKeeps` | kernel/cpp/SignalManager.cpp:279-320 | the step of an exit keeps the invariants |
| `SignalTheorems.ForkKeeps` | kernel/cpp/Syscall.cpp:146-195 | the step of a fork keeps the invariants |
| `Scheduling.RoundRobin.NextProc` | kernel/cpp/Scheduler.cpp:21-67 | it goes to the first ready process after the current one; then that process is active and no other, the one left is runnable if it was active, and every other keeps its status |
| `Scheduling.RoundRobin.Switch` | kernel/cpp/ProcTable.cpp:57-115 | the old process becomes runnable if it was active, and the new one active |
| `Scheduling.OneIsActive` | kernel/cpp/Scheduler.cpp:21-67 | after a call at most one process is active, and it is the current one |
| `Scheduling.SwitchedYields` | kernel/cpp/ProcTable.cpp:57-115 | a call goes to a process that can run; the one it leaves can run again if it was running; all others keep their status, so whoever could run still can |
| `Scheduling.ComesNearer` | kernel/cpp/Scheduler.cpp:37-49 | a call does not pass over a ready process |
| `Scheduling.BoundedWaiting` | kernel/cpp/Scheduler.cpp:21-67 | in a table of n processes one that is ready at every call is scheduled within n calls, whatever the others do |
| `ProcessTable.ProcTable.constructor` | kernel/cpp/ProcTable.cpp:17-21 | the table starts with the first process |
| `ProcessTable.ProcTable.Insert` | kernel/cpp/ProcTable.cpp:36-53 | it ends, returns the first free identifier after the last one and disturbs no entry; zero if and only if all are taken |
| `ProcessTable.AfterReaches` | kernel/cpp/ProcTable.cpp:40-50 | every identifier comes up within one round |
| `OpenFiles.FileTable.OpenFile` | kernel/cpp/ProcTable.cpp:164-185 | a new description gets the lowest free key and count one; a failing open leaves no trace |
| `OpenFiles.FileTable.CloseFile` | kernel/cpp/ProcTable.cpp:189-205 | the count goes down and the description goes with its last reference |
| `OpenFiles.FileTable.CopyFile` | kernel/cpp/ProcTable.cpp:209-218 | the count goes up by one |
| `OpenFiles.Processes.Open` | kernel/cpp/Process.cpp:390-405 | the lowest free descriptor names the new description, and the counts stay right |
| `OpenFiles.Processes.Close` | kernel/cpp/Process.cpp:409-441 | one descriptor or all are closed, and the counts stay right |
| `OpenFiles.Processes.Duplicate` | kernel/cpp/Process.cpp:177-181 | the descriptors of another process are copied and each counted |
| `OpenFiles.Processes.CloseAll` | kernel/cpp/Process.cpp:413-424 | no descriptor of the process is left, and the counts stay right |
| `OpenFiles.Processes.Fork` | kernel/cpp/Syscall.cpp:146-195 | the child has the parent's descriptors, the counts stay right, and a fork that finds no identifier changes nothing |
| `OpenFiles.Processes.Execve` | kernel/cpp/Syscall.cpp:411-485 | the process keeps its descriptors and the counts stay right |
| `OpenFiles.Processes.Erase` | kernel/cpp/ProcTable.cpp:25-32 | deleting a process closes its descriptors, and the counts stay right |
| `FileCounts.Gains` | kernel/cpp/ProcTable.cpp:209-218 | counting a new descriptor keeps every count the number of descriptors that name the key |
| `FileCounts.Loses` | kernel/cpp/ProcTable.cpp:189-205 | so does giving one up; the description is erased exactly with the last |
| `OpenFiles.TakenBound` | kernel/cpp/ProcTable.cpp:170-172 | the search for a free key ends |
| `Clock.Pit.constructor` | kernel/cpp/Pit.cpp:14-44 | the clock starts at zero with the advance of the divisor |
| `Clock.Pit.Tick` | kernel/cpp/Pit.cpp:80-87 | the clock reads exactly ticks times the advance, modulo its wrap: the carry test is exact |
| `Clock.ReloadIsClosest` | kernel/cpp/Pit.cpp:22-23 | no other divisor is closer to the frequency asked for |
| `Clock.AdvanceIsFloor` | kernel/cpp/Pit.cpp:29-31 | the two parts of the advance make up the length of a tick rounded down |
| `Clock.Drift` | kernel/cpp/Pit.cpp:28-35 | after n ticks the clock is never ahead of the time passed and less than n units of 2^-32 milliseconds behind |
| `Clock.Carry` | kernel/cpp/Pit.cpp:82-86 | adding the parts with the carry taken from the wrapped sum is adding the whole readings |
| `Clock.SleepsLongEnough` | kernel/cpp/Pit.cpp:52-64 | when a sleep returns, the time asked for has passed if and only if its end lay before the wrap of the clock; otherwise it returns at once |
| `PageFrameAllocators.PageFrameAllocator.Allocate` | kernel/cpp/PageFrameAllocator.cpp:238-305 | while page zero is used, it returns the lowest free page above the last one allocated and marks it, and fails if and only if there is none |
| `PageFrameAllocators.PageFrameAllocator.Free` | kernel/cpp/PageFrameAllocator.cpp:328-333 | exactly that page is marked free |
| `PageFrameAllocators.PageFrameAllocator.FreeRegion` | kernel/cpp/PageFrameAllocator.cpp:107-133 | the words of an available region are rewritten as `AfterAvailable` says |
| `PageFrameAllocators.PageFrameAllocator.ReserveRegion` | kernel/cpp/PageFrameAllocator.cpp:144-165 | the words of any other region are marked as `AfterReserved` says |
| `PageFrameAllocators.PageFrameAllocator.ReadMap` | kernel/cpp/PageFrameAllocator.cpp:65-179 | the bitmap becomes what both passes and the pages used before make of it |
| `PageFrames.CarefulExactly` | kernel/cpp/PageFrameAllocator.cpp:98-133 | an available region frees no page outside it if and only if it reaches into another word, or starts or ends at a word |
| `PageFrames.FreeIsAvailable` | kernel/cpp/PageFrameAllocator.cpp:92-134 | with careful regions every page freed lies in one |
| `PageFrames.ReservedIsUsed` | kernel/cpp/PageFrameAllocator.cpp:136-166 | every page of a reserved region is used in the end |
| `PageFrames.PassesExactly` | kernel/cpp/PageFrameAllocator.cpp:92-166 | which pages an available region frees and marks, and a reserved one takes, by the region and the words of its ends |
| `PageFrames.InsideExactly` | kernel/cpp/PageFrameAllocator.cpp:98-150 | the pages of an available region are those that lie in it as a whole, those of a reserved one have a byte in it; an available region inside page zero is taken for one that ends with the address space |
| `PageFrameAllocators.FreePages` | kernel/cpp/PageFrameAllocator.cpp:65-179 | after the map is read a page is free if and only if an available region holds it, or has it as a stray page, no later one marks it, no reserved region takes it, and it was not used before |
| `PageFrameAllocators.OneRegionIsFree` | kernel/cpp/PageFrameAllocator.cpp:92-134 | all the memory that a single available region lists is free then, but for what was used before |
| `PageFrameAllocators.FreeExactly` | kernel/cpp/PageFrameAllocator.cpp:65-179 | with any number of regions all free pages lie in available ones if and only if no stray page of a careless region escapes: one that no later region rewrites, none reserves or holds, and that was not used before |
| `PageFrameAllocators.FreeAfterReadMap` | kernel/cpp/PageFrameAllocator.cpp:65-179 | a page that is free afterwards is in no reserved region, was free before in the known memory, and with careful regions lies in an available one |
| `AllocationRuns.SlipExample` | kernel/cpp/Ext.cpp:1934-1960 | tables in which a pointer block is taken from a block in use, and the count is wrong afterwards |
| `Truncate.HoleExample` | kernel/cpp/Ext.cpp:744-748 | a hole in front of a block: nothing is freed |
| `FileBlockTheorems.AstrayBlock` | kernel/cpp/Ext.cpp:1463-1510 | a file with all its pointer blocks whose block in the triple range is set and not found |
| `DirCodec.PaddingExample` | kernel/cpp/Ext.cpp:939-941 | two entries of which the first is padded over the end of its block |
| `ProcessMemory.StackFreedExample` | kernel/cpp/Process.cpp:543-549 | a break at the bottom of the stack whose move frees the stack |
| `PageFrameAllocators.CarelessExample` | kernel/cpp/PageFrameAllocator.cpp:118-133 | an available region inside a word that frees the page before it |
| `Clock.EndsAtOnce` | kernel/cpp/Pit.cpp:54-58 | a sleep whose end lies behind the wrap does not wait at all |

## Left out

- KernelHeap.Heap.Malloc: requests whose addresses would pass 2^32 (a size above 0xFFFFFFF0 also wraps when it is rounded up), running out of pages in `next_page`, which panics, and the magic numbers of headers.
- FileBlocks.FileMap.InodeSet: the free blocks are a list known beforehand, so that the tables of `allocate_new_block` and the pointer tree are not changed by one call; writes to the device succeed.
- BlockAllocator.Allocator.AllocateNewBlock: how many pointer blocks `inode_set` needs and whether it reaches the block are arguments; searches that leave a bitmap, which `BlockTable.ReadableExactly` characterises, read and write memory that is not part of this model; the group of the previous block is one of the file system's; the count of sectors.
- BlockAllocator.AllocationBalance: speaks of tables in which the first block of group zero is in use, as it is in every file system.
- AllocationRuns.RunKeepsCount: the first block of the file system is not freed.
- Truncate.TruncateFreesAll: the upper size field and the flushing of the inode.
- BitmapCache.BlockAlloc.FlushBlockAlloc: a write to the device either happens or leaves the block as it was. The inode bitmaps, which have the same code, are not modelled a second time.
- DirectoryFile.Directory.Flush: names whose length does not fit the length kept for them, which `NewEntry` says when it makes, and entries whose padded size does not fit sixteen bits; the directory's file is a sequence of bytes.
- DirCodec.ParseAllBytes: an entry whose size is smaller than its own fields ends the reading; the code would ask for a buffer of almost 2^32 bytes.
- PageTables.PageDescriptorTable.Allocate: a new page table appears empty; `new_page_table` and its recursion into the heap, configuration bits, the TLB and 4MB pages are not part of this model.
- PageFrameAllocators.PageFrameAllocator.Allocate: if page zero is free it is marked used and the null address returned, which the contract says; 4MB pages are not modelled.
- PageFrameAllocators.PageFrameAllocator.ReadMap: available regions that write words behind the table are required away; words are modelled bit by bit.
- ProcessMemory.Process.Brk: the kernel's copy of the user mappings; a maximum stack size beyond the kernel base.
- Scheduling.RoundRobin.NextProc: with no process ready the search does not end, so one is required; registers and stacks.
- SignalManager.Manager.StartWait: options, and the copying of the status to user space.
- Reissue.ForkExact: which identifier a fork issues is an argument, any that is positive and not in the table; `ProcTable.Insert` says which one the table picks. A parent is the identifier that the source records.
- OpenFiles.Processes.Fork: registers, memory and the child list, to which a failed fork adds -1; the descriptors of all processes are one map, keyed by process object.
- Clock.SleepsLongEnough: the waiting loop itself, whose turns are interrupts, is a predicate on readings.
- Interrupts inside an operation: guarded regions are atomic steps.
- `pfa_initialise`, `allocate_new_inode`, `flush_bgdt`, `free_user_space`, `duplicate_user_space`, path lookup, file reads and writes, and the drivers: easy members, or too far from their intent to state one.
- Boot, format readers, dumps, port input and output: field unpacking and printing.
