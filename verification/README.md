# Verification model of the SectorOS-RE2 kernel

A Dafny model of the parts of the kernel that manage memory, disks and names, with proofs of what they promise.
`dafny verify dfyconfig.toml` checks it all. The original is C; each file below follows one component of it.

**Memory.** `Frames.dfy` is the bit-packed frame allocator, `Paging.dfy` the two-level page tables with `alloc_page`,
`free_page`, `alloc_region`, `free_region` and `ksbrk` on top. The kernel heap has four layers. `HeapModel.dfy` says what
`malloc`, `free` and `realloc` do to the sequence of blocks that tiles the heap, branch by branch.
`HeapProperties.dfy` proves what each call keeps, `HeapPlaces.dfy` where it puts blocks. `HeapMemory.dfy` says how blocks and the free list lie in memory words.
`KernelHeap.dfy` is the allocator itself: headers, trailers, links and payloads are words of one array, the methods write
them one by one as the source does, and every method is proved against the functions of `HeapModel.dfy`.
`HeapRuns.dfy` is about whole runs of calls in the specification, `HeapTail.dfy` about the one call that breaks them, and
`HeapSession.dfy` runs the allocator itself through them. `PagingRuns.dfy` is about runs of mapping and unmapping. `Kmalloc.dfy` adds aligned blocks and physical addresses, and `Boot.dfy` shows that start-up meets the preconditions
of all this and that mapping the framebuffer later keeps them.

**Disks and files.** `AtaPio.dfy` is the byte interface over 512-byte sectors. `BlockTree.dfy`, `Ext2.dfy` and
`Allocation.dfy` are the EXT2 driver: the block map with direct, single, double and triple tables, file reads, and the
two bitmap allocators. `Sorfs.dfy` is the image builder together with the driver that reads its images.

**Names, pictures, processes.** `MountTable.dfy` is the map from token sequences to mounted files that the VFS tree
stands for, and `Vfs.dfy` the tree updated in place. `Targa.dfy` decodes run-length coded images, and `TargaStreams.dfy`
shows that it reads what coders write. `Process.dfy` is the cooperative process switch. `Line.dfy` is the integer line
algorithm and `Numerals.dfy` prints and reads numbers. `Bytes.dfy`, `Arithmetic.dfy` and `Options.dfy` are shared.

Where the model follows code that departs from its documentation or evident intent, a lemma says how far:

- `realloc` does not move `tail` when it splits the last block (src/mem/kheap.c:446-452, unlike 299-302). Every other
  call keeps the heap invariant, and that one breaks it (`HeapRuns.StepKeeps`, in both directions). A free afterwards can
  leave two free neighbours (`HeapTail.StaleTailStopsJoining`, `HeapTail.StaleTailExample`). As long as `tail` is wrong, a
  call that splits, frees or resizes the block at the end of the heap reads a size word past heap_curr, and no other call
  does (`HeapTail.LooksExactly`, `KernelHeap.Heap.LookIs`); a malloc that takes that block whole does not
  (`HeapTail.WholeTakeExample`). The next block taken from the break repairs it (`HeapTail.GrowingHealsTheTail`).
- `IS_ALIGN` is false of every address (`Paging.NothingIsAligned`), so an aligned bump allocation always moves to the next
  page but advances the pointer by the size alone. `kheap_enabled` in src/mem/paging.c:25 is never set (kheap.c sets
  `Kheap_enabled`), so page tables always come from the bump allocator.
- `alloc_page` takes frame 0 as "any frame", so page 0 is not identity mapped by `init_paging`. `free_region` ignores its
  `free` argument. `init_paging` maps pages 1 to 16 to frames that kernel pages use too, so freeing one of them gives away a
  frame in use (`Boot.FreeLowPage`; `Paging.KernelSpace.FreePage` has the exact condition). The branch of
  `ksbrk` for a negative size is dead, because the size is unsigned; a sum that wraps around moves the break down all the
  same (`Paging.KernelSpace.Ksbrk`).
- The sector loops run over the whole disk when offset and size are both 0 (`AtaPio.BoundsFit`).
- `set_DBlock_num` tests `<= 0` where `get_DBlock_num` tests `< 0`: they disagree exactly at four file blocks
  (`BlockTree.SetAgrees`), and at file block 12 the single table is replaced (`BlockTree.SetTwelve`). A table made below
  another one is lost (`BlockTree.NewTableIsLost`, `BlockTree.NewSecondIsLost`), and a root table made on the way is not
  cleared (`BlockTree.NewRootIsStale`).
- A read that begins past the end of a file in its last block copies almost 2^32 bytes (`Ext2.PastTheEnd`). `sorfs_read`
  does not look at the file's size (`Sorfs.Driver.Read`).
- The TGA decoder compares with the size of the image between packets only, so the last packet can write behind the buffer
  or in front of it (`Targa.StaysInData`).
- `EXT2_alloc_block` returns group number times blocks per group plus bit, without `first_data_block`, and
  `alloc_inode` likewise without the 1 that inode numbers start from; the number is computed in 32 bits, and
  `Allocation.NumbersDistinct` says exactly when that keeps numbers apart. Both rewrite only block 2, with the last block of
  the group table.
- A mount or unmount below a mounted directory can hide that directory's file system from other paths, because the
  nodes it makes carry no file (`MountTable.LookupAfterMount`, `MountTable.LookupAfterUnmount`). `VFS_unmount("/")` leaves
  `vfs_root` set (`Vfs.FileTree.UnmountAt`).
- `exit` asks for the pid that has just gone; the search then ends at the greatest smaller pid, or wraps around.

## Model

| member | source | states |
|---|---|---|
| Frames.Pmm.SetBit | src/Include/pmm.h:29 | marks one frame and no other, although eight share a byte |
| Frames.Pmm.FirstFreeBlock | src/mem/pmm.c:51-60 | the least free frame, or -1 when there is none |
| Frames.Pmm.AllocBlock | src/mem/pmm.c:39-44 | takes the least free frame; every other frame keeps its state |
| Frames.Pmm.FreeBlock | src/mem/pmm.c:46-49 | gives back exactly that frame |
| Paging.NothingIsAligned | src/Include/paging.h:28 | IS_ALIGN holds of no address |
| Paging.AddPage | src/mem/paging.c:119-130 | a page mapped to a free frame has that frame to itself, takes no other page's frame, and leaves no page on a free frame |
| Paging.DropPage | src/mem/paging.c:149-152 | when a page's frame is given back, no page is left on a free frame if and only if no other page used that frame, or it is none of the allocator's |
| Paging.DropLeaksNothing | src/mem/paging.c:149-152 | and no other frame is left taken without a page |
| Paging.RegionStep | src/mem/paging.c:69-77 | one page more of a region: pages mapped before stay, new ones are identity mapped or get a frame that was free |
| Paging.KernelSpace.DKmalloc | src/mem/paging.c:57-64 | the bump allocator, with alignment rounding up even aligned pointers |
| Paging.KernelSpace.HardwareAgrees | src/mem/paging.c:40-54 | the walk of the processor through physical table addresses sees exactly the mapping that virt2phys reads through table pointers, and may write every mapped page in kernel and user mode |
| Paging.KernelSpace.AllWritable | src/mem/paging.c:108-129 | every mapped page has present, rw and user set in its table entry and in its directory entry, whatever has been mapped and unmapped |
| Paging.KernelSpace.PhysIs | src/mem/paging.c:34-55 | with paging on, virt2phys of a mapped address is where the processor finds it, and 0 for any other address |
| Paging.KernelSpace.LinearPhys | src/mem/paging.c:34-55 | switching paging on changes no translation of a linearly mapped address |
| Paging.KernelSpace.AllocPage | src/mem/paging.c:91-131 | the tables refine a partial map: one page is added, readable and writable for everybody, to the frame asked for or the least free one; a mapped page changes nothing |
| Paging.KernelSpace.MapPage | src/mem/paging.c:234-238 | alloc_page with frame 0: old mappings and their privacy stay, a new page has its frame to itself, exactly that frame stops being free, and a bitmap that was exact stays exact |
| Paging.KernelSpace.FreePage | src/mem/paging.c:133-153 | one page is removed, its frame freed on request, all other pages stay; afterwards no page uses a free frame if and only if the page shared its frame with no other, it was not given back, or it is none of the allocator's |
| Paging.KernelSpace.AllocRegion | src/mem/paging.c:66-78 | every page from start to end is mapped afterwards, and no other mapping changes; no page uses a free frame afterwards if and only if no page newly mapped to itself has the number of a free frame; tables are made only for the region |
| Paging.KernelSpace.FreeRegion | src/mem/paging.c:80-89 | exactly the pages from start to end are unmapped and exactly their frames given back; no page is left on a free frame if and only if no page outside shared one of them |
| Paging.KernelSpace.InitPaging | src/mem/paging.c:155-185 | exactly the kernel's 52 MB and the low pages are mapped, linearly and identically, except for page 0 |
| Paging.KernelSpace.MapUpTo | src/mem/paging.c:233-238 | the loop of ksbrk maps every heap page up to the new boundary, each new one to a frame of its own, and keeps all other mappings |
| Paging.KernelSpace.Ksbrk | src/mem/paging.c:213-267 | the break moves by exactly the size, in 32-bit arithmetic, or not at all, and moves down exactly when the sum wraps around; all pages below heap_end stay mapped, each new one to a frame of its own |
| PagingRuns.Run | src/mem/paging.c:91-153 | over any run of mapping and unmapping private pages, bitmap and page tables agree exactly, kept pages keep their frames, all others have theirs to themselves, and free frames and mapped pages add up to the same number |
| HeapProperties.RoundingFits | src/mem/kheap.c:251-252 | rounding in 32 bits is right exactly for sizes up to 2^32 - 32 |
| HeapProperties.BestIsSmallest | src/mem/kheap.c:208-225 | best fit is the first smallest block of the list that is large enough; none exactly when all are too small |
| HeapProperties.TakesWhenFits | src/mem/kheap.c:253-256 | malloc takes a free block exactly when some free block is large enough |
| HeapProperties.TakeKeeps | src/mem/kheap.c:257-308 | splitting keeps the tiling, sizes in sixteens, no two free neighbours, and the free list equal to the free blocks |
| HeapProperties.GrowKeeps | src/mem/kheap.c:310-326 | taking a block from the break keeps them too |
| HeapProperties.MallocKeeps | src/mem/kheap.c:247-327 | malloc adds one used block, large enough and apart from every used block, or fails only when no free block fits and the heap cannot grow |
| HeapPlaces.MallocPlace | src/mem/kheap.c:247-327 | malloc returns the front of a smallest sufficient free block, and takes all of it exactly when fewer than 24 bytes would remain; else a block of the rounded size at the break; it panics only when the break cannot move |
| HeapProperties.ReleaseKeeps | src/mem/kheap.c:329-368 | free removes one used block, joins it with both neighbours, and keeps the invariant in all four cases |
| HeapProperties.ShrinkKeeps | src/mem/kheap.c:420-453 | shrinking keeps the tiling with or without a free next block, and the invariant exactly when `tail` is right |
| HeapProperties.ReallocKeeps | src/mem/kheap.c:370-455 | on every path one block, large enough, replaces the old one and the tiling holds; the invariant holds if and only if the call did not shrink the last block |
| HeapPlaces.ShrinksInPlace | src/mem/kheap.c:387-452 | realloc to a size the block has returns the same pointer and gives back a rest of 24 bytes or more |
| HeapPlaces.GrowsWhere | src/mem/kheap.c:388-419 | realloc beyond the block's size stays in place if and only if the next block is free and both have room; else it moves into a free previous block with room; else to malloc's place; it panics exactly when none of these is there |
| HeapPlaces.ExactFitExample | src/mem/kheap.c:390 | growing 16 bytes to 48 with a free block of 16 behind fits exactly and stays in place |
| HeapPlaces.ListAfterFree | src/mem/kheap.c:329-368 | a freed block goes to the front of the free list unless it joins the one before it; the free blocks that stay keep their order |
| HeapPlaces.ListAfterMalloc | src/mem/kheap.c:257-308 | a rest that malloc splits off goes to the front, and the other free blocks keep their order |
| HeapPlaces.ListAfterRealloc | src/mem/kheap.c:388-452 | the same for realloc when it does not move |
| HeapMemory.Unlinked | src/mem/kheap.c:179-195 | the writes of removeFromList leave a well-formed doubly linked list of the other blocks |
| HeapMemory.Linked | src/mem/kheap.c:197-206 | the writes of addToList leave a well-formed list with the block in front |
| HeapMemory.CopyOne | src/common/string.c:41-54 | one word more of a forward copy; together with `HeapMemory.CopySource` it is right although the ranges overlap |
| HeapMemory.LiveReplace | src/mem/kheap.c:386-419 | when one block replaces another, all other live payloads are byte for byte what they were |
| KernelHeap.Heap.RemoveFromList | src/mem/kheap.c:179-195 | memory holds the list without the block; only link words change |
| KernelHeap.Heap.AddToList | src/mem/kheap.c:197-206 | memory holds the list with the block in front; only link words change |
| KernelHeap.Heap.BestFit | src/mem/kheap.c:208-225 | the walk over the links in memory finds the specified block |
| KernelHeap.Heap.StepIs | src/mem/kheap.c:227-245 | stepping by header or trailer finds the neighbours of the tiling, or NULL at the ends |
| KernelHeap.Heap.StepsInvert | src/mem/kheap.c:227-245 | getPrevBlock and getNextBlock undo each other |
| KernelHeap.Heap.LookIs | src/mem/kheap.c:172-245 | wherever `tail` points, getNextBlock and getPrevBlock in memory step as in the tiling, and isFree there reads a word of the heap exactly when the tiling says so |
| KernelHeap.Heap.HeapWritable | src/mem/paging.c:233-238 | every word of the heap lies on a page that the processor maps for writing |
| KernelHeap.Heap.Memcpy | src/common/string.c:41-54 | a forward copy between overlapping ranges is right when the destination is below the source |
| KernelHeap.Heap.Malloc | src/mem/kheap.c:247-327 | refines the specification; returns a new payload of the size asked for and changes no byte of a live one; frames are needed only when no free block suffices |
| KernelHeap.Heap.Free | src/mem/kheap.c:329-368 | refines the specification; removes one live payload and changes no byte of another |
| KernelHeap.Heap.GrowIntoNext | src/mem/kheap.c:388-400 | growing over the next block refines the specification and keeps the payload in place |
| KernelHeap.Heap.GrowIntoPrev | src/mem/kheap.c:403-411 | joining with the previous block refines the specification and leaves the payload readable where it was |
| KernelHeap.Heap.CopyInto | src/mem/kheap.c:412 | the copy to the front of the joined block, overlapping or not, delivers the bytes and disturbs no other block |
| KernelHeap.Heap.ShrinkIntoNextBlock | src/mem/kheap.c:420-445 | the rest joins the free next block, and the bytes kept stay |
| KernelHeap.Heap.ShrinkAloneBlock | src/mem/kheap.c:420-452 | the rest becomes a free block of its own, with `tail` as the source leaves it |
| KernelHeap.Heap.MoveBlock | src/mem/kheap.c:415-418 | malloc, copy and free: the old payload arrives and no other live byte changes |
| KernelHeap.Heap.Realloc | src/mem/kheap.c:370-455 | refines the specification on all paths; the bytes both sizes have room for stay, and no byte of another payload changes; frames are needed only for a move to the break |
| HeapRuns.StepKeeps | src/mem/kheap.c:247-455 | one call keeps the invariant if and only if it is not a realloc that splits the last block |
| HeapRuns.RunKeeps | src/mem/kheap.c:247-455 | so does every run, up to its first such call |
| HeapRuns.NothingIsLost | src/mem/kheap.c:247-455 | sizes and overheads of all blocks add up to heap_curr - heap_start |
| HeapRuns.LiveApart | src/mem/kheap.c:247-455 | in every reachable state live payloads are disjoint and inside the heap |
| HeapRuns.Isolation | src/mem/kheap.c:247-455 | over any run with these effects, a payload that no call frees or resizes keeps all its bytes |
| HeapRuns.FreeUndoesMalloc | src/mem/kheap.c:257-368 | freeing what malloc took from a free block restores the same tiling, whole or split |
| HeapTail.StaleTailStopsJoining | src/mem/kheap.c:446-452 | after a split of the last block, freeing it always leaves two free neighbours |
| HeapTail.StaleTailExample | src/mem/kheap.c:446-452 | three calls from the empty heap reach such a state |
| HeapTail.LooksExactly | src/mem/kheap.c:247-455 | in any well-formed tiling, wherever `tail` points, malloc, free and realloc ask for a free bit past heap_curr if and only if `tail` does not name the last block and the call splits, frees or resizes that block, or moves another into it and splits it |
| HeapTail.NeverBefore | src/mem/kheap.c:247-455 | in every run up to the first split of the last block, no call looks past heap_curr |
| HeapTail.WholeTakeExample | src/mem/kheap.c:271-275 | malloc 64, realloc 16, malloc 32: the part split off is taken whole and nothing past heap_curr is read; freeing or growing it then does read there |
| HeapTail.SplitAgainExample | src/mem/kheap.c:271-275 | malloc 256, realloc 16, malloc 16: the last malloc reads past heap_curr |
| HeapTail.RemainderIsTaken | src/mem/kheap.c:257-275 | after a split of the last block, malloc takes the part split off exactly when no smaller free block suffices, and looks past heap_curr exactly when it then splits it again |
| HeapTail.GrowingHealsTheTail | src/mem/kheap.c:315-318 | the next block taken from the break restores the invariant |
| HeapSession.Call | src/mem/kheap.c:247-455 | the methods of the allocator move through the states of the specification, keep the invariant if and only if the call does not split the last block, and have the stated effect on what callers hold |
| HeapSession.Calls | src/mem/kheap.c:247-455 | any sequence of malloc, free and realloc in which every block taken from the break has an address and frames, of any length: the final state is that of the specification, and every payload that no call names keeps all its bytes |
| HeapSession.SmallRequestsFit | src/mem/paging.c:213-267 | with frames for the heap up to its limit, every run of requests smaller than the address space above it is one of those |
| Kmalloc.HandedInside | src/mem/kheap.c:58-83 | the address returned is the first page boundary behind malloc's pointer, or that pointer, and the whole request behind it lies inside the new block |
| Kmalloc.KmallocInt | src/mem/kheap.c:58-83 | malloc of the padded size, with its effect on what callers hold; the physical address reported is that of the frame mapped there |
| Boot.Start | src/Kernel/KernelMain.c:443-445 | frame bitmap, paging and heap started in this order meet every requirement of the heap, with page tables for low memory and the kernel only |
| Boot.TablesBelowHeap | src/Include/kheap.h:30-32 | page tables made for low memory, for the whole range of the heap and for up to 174 further directory entries lie below the heap |
| Boot.Session | src/Kernel/KernelMain.c:443-445 | from start-up on, any sequence of heap calls in which every block taken from the break fits ends in the state the specification gives and needs no page table that reaches the heap |
| Boot.RequestsFit | src/Kernel/KernelMain.c:443-445 | from start-up on, all requests below 768 MB fit, however many and whatever they add up to |
| Boot.MapFramebuffer | src/drivers/video/vesa.c:191 | mapping the framebuffer to itself leaves the heap valid, block by block and byte by byte |
| Boot.FreeLowPage | src/mem/paging.c:133-182 | freeing a low page after start-up leaves its frame free although a kernel page is mapped to it |
| Bytes.Memcpy | src/common/string.c:41-54 | replaces exactly n bytes of the destination |
| Bytes.WordIs | src/fs/ext2.c:588-592 | words in buffers are little-endian |
| Bytes.EncodeIs | src/fs/ext2.c:531-533 | and so are words that are written |
| AtaPio.BoundsFit | src/drivers/storage/ata_pio.c:253-254 | the last sector and offset fit the range exactly unless offset and size are both 0 |
| AtaPio.Advance | src/drivers/storage/ata_pio.c:263-277 | every pass handles exactly the part of the range in its sector |
| AtaPio.Device.Write | src/drivers/storage/ata_pio.c:247-281 | read-modify-write of sectors replaces exactly the bytes of the range, for any alignment |
| AtaPio.Device.Read | src/drivers/storage/ata_pio.c:284-319 | the buffer gets exactly the bytes of the range |
| BlockTree.EntryAfterSet | src/fs/ext2.c:531-533 | rewriting one word of a table block changes that word of that block and no other on the disk |
| BlockTree.LocateOf | src/fs/ext2.c:459-508 | every file block below 12+p+p^2+p^3, and no other, has a place in the block map, and its place determines it |
| BlockTree.LeafIndex | src/fs/ext2.c:459-508 | every place of the block map belongs to a file block: the decomposition is a bijection |
| BlockTree.LocateInOrder | src/fs/ext2.c:459-508 | file blocks lie in the tree in their order, level by level and word by word |
| BlockTree.LevelStarts | src/fs/ext2.c:459-508 | twelve direct blocks, then the single, double and triple tables behind words 12, 13 and 14 |
| BlockTree.SetAgrees | src/fs/ext2.c:510-577 | set uses the place that get reads if and only if the file block is neither the first of a level nor the one behind the last level |
| BlockTree.NumAfterStore | src/fs/ext2.c:510-577 | recording a number at a leaf changes that leaf and no other place, at any depth, while present tables are distinct |
| BlockTree.StoreKeepsSound | src/fs/ext2.c:510-577 | and keeps present tables distinct |
| BlockTree.GetAfterSet | src/fs/ext2.c:459-577 | get after set: the new number at i, the old one at every other file block |
| BlockTree.SetTwelve | src/fs/ext2.c:517-522 | at file block 12, set replaces the single table and get then reads the whole level from the recorded block |
| BlockTree.NewTableIsLost | src/fs/ext2.c:438-457 | a table made by set below a double or triple table is never entered in its parent: get goes on reading block 0 |
| BlockTree.NewSecondIsLost | src/fs/ext2.c:556-575 | nor is one made below the triple root; and if the root has a table at the next index, the number is recorded there, as a table of other file blocks |
| BlockTree.NewRootIsStale | src/fs/ext2.c:438-457 | a double or triple root table made by set is used as it stands on the disk: the number goes wherever its old bytes lead, and get takes them for the table numbers of the whole level |
| BlockTree.NewSingle | src/fs/ext2.c:524-535 | at the single level the number just recorded is read back, and every other file block of the level is what the block held before |
| Ext2.FileIsBlocks | src/fs/ext2.c:403-409 | the flat file is the concatenation of the blocks that get_DBlock_num names |
| Ext2.FileAfterSet | src/fs/ext2.c:510-577 | set gives one file block the bytes of the recorded block and leaves the others, as long as data and table are apart |
| Ext2.Pass | src/fs/ext2.c:354-367 | each pass of the read loop copies the part of the range in its block, 0 bytes for a last block that begins at the end |
| Ext2.PastTheEnd | src/fs/ext2.c:345-367 | beyond the end of the file the copied length wraps around exactly when the read starts in the last block |
| Ext2.FileSystem.ReadDiskBlock | src/fs/ext2.c:417-420 | the bytes of the block, when it is on the device |
| Ext2.FileSystem.GetDBlockNum | src/fs/ext2.c:459-508 | the number recorded at the file block's place, with block 0 read in the place of a missing table |
| Ext2.FileSystem.SetDBlockNum | src/fs/ext2.c:510-577 | exactly one word changes, of the inode or of one table on the disk |
| Ext2.FileSystem.ReadInodeFiledata | src/fs/ext2.c:345-369 | the buffer gets exactly the file's bytes from offset to the end of the request or of the file, in 32-bit arithmetic; nothing when that end lies in an earlier block than offset |
| Allocation.AllOnes | src/fs/ext2.c:592-593 | a word is all ones exactly when every bit is set, so skipping it skips no clear bit |
| Allocation.BitCounts | src/fs/ext2.c:596-600 | bit k of a word counts 2^k, and setting it when clear adds 2^k |
| Allocation.WordOfBitmap | src/fs/ext2.c:588-597 | a word of the buffer tells the state of its 32 blocks |
| Allocation.MarkIs | src/fs/ext2.c:587-597 | bit n of a bitmap is bit n % 8 of byte n / 8 of the block that block_bitmap or inode_bitmap names |
| Allocation.TakenMarks | src/fs/ext2.c:599-603 | one bit and one count change; every other bit and count of both kinds stays, although block 2 is rewritten too |
| Allocation.TakenKeeps | src/fs/ext2.c:599-603 | bitmaps stay where they are, and when the bit was clear every free count stays equal to the clear bits of its bitmap |
| Allocation.TakenIsAllocated | src/fs/ext2.c:599-603 | in the fields of the descriptor: a block sets one clear bit of block_bitmap's block and takes one off free_blocks_count, an inode the same with inode_bitmap and free_inodes_count; no other field, group or block changes but block 2 |
| Allocation.RewrittenIs | src/fs/ext2.c:427-431 | block 2 ends up holding the last block of the table, and every other block keeps its bytes |
| Allocation.CountTells | src/fs/ext2.c:584-585 | with right counts, a group is full exactly when it counts no free bit |
| Allocation.RunMarks | src/fs/ext2.c:579-682 | after any run exactly the bits set before it and the ones it handed out are set |
| Allocation.GrantsDistinct | src/fs/ext2.c:579-682 | no run hands out a bit twice |
| Allocation.NumbersDistinct | src/fs/ext2.c:604 | the 32-bit numbers returned for distinct bits are distinct if and only if every group but the first begins at least a bitmap's bits away from the first, in both directions modulo 2^32 |
| Allocation.GrantBelow | src/fs/ext2.c:588-604 | bits that stand for no member of a group are never handed out when the file system has set them |
| Allocation.NumbersInRun | src/fs/ext2.c:579-682 | over any run of calls no number is returned twice for one kind, when bits that stand for no member are set and all numbers fit in 32 bits |
| Allocation.Groups.RewriteBgd | src/fs/ext2.c:427-431 | block 2 ends up holding the last block of the table |
| Allocation.Groups.Alloc | src/fs/ext2.c:579-611 | takes the first clear bit of the first group that counts one and has one, in that group's own bitmap and count, and returns group times size of group plus bit in 32 bits; fails exactly when every group is full, whatever the counts say; keeps right counts right |
| Allocation.Groups.AllocMany | src/fs/ext2.c:579-682 | any sequence of calls returns pairwise distinct numbers of a kind, under the same condition on the kinds that are asked for |
| MountTable.JoinTokens | src/common/string.c:317-338 | strsep loses nothing: the tokens joined by separators are the string |
| MountTable.LookupAfterMount | src/fs/vfs.c:393-448 | what every lookup returns after a mount: the new file, nothing, or the old result, by how far the two paths agree |
| MountTable.LookupAfterUnmount | src/fs/vfs.c:450-492 | the same for an unmount |
| MountTable.RunIs | src/fs/vfs.c:393-492 | over every run, each path's file depends on the operations on that very path alone, and the tree is the prefixes of the paths used |
| MountTable.SubMount | src/fs/vfs.c:410-428 | a mount below a child is a mount in the child's own map |
| MountTable.NoTokenLost | src/fs/vfs.c:294-373 | the tokens for which the walk goes down and those given to finddir are the path's tokens, if and only if no empty token stops the walk; that one is dropped |
| MountTable.OpenDivides | src/fs/vfs.c:340-373 | a path without empty tokens is divided at the deepest node into separator-free tokens: the path is the two parts joined again, and the result is what finddir makes of the second part from that node's file on |
| MountTable.FeedIs | src/fs/vfs.c:357-364 | finddir succeeds on all tokens exactly when each is found in the file that the one before led to |
| MountTable.OpenMounted | src/fs/vfs.c:340-448 | opening the path just mounted gives the mounted file |
| Vfs.FileTree.MountRecur | src/fs/vfs.c:393-429 | the tree, updated in place, refines the mount of the map; sibling names stay distinct |
| Vfs.FileTree.UnmountRecur | src/fs/vfs.c:450-482 | the tree refines the unmount of the map |
| Vfs.FileTree.MountAt | src/fs/vfs.c:431-448 | mount of any path; vfs_root is set only by a mount of "/" |
| Vfs.FileTree.UnmountAt | src/fs/vfs.c:484-492 | unmount of any path; vfs_root stays |
| Vfs.FileTree.LookupRecur | src/fs/vfs.c:294-321 | the file of the deepest node on the path, and the tokens not taken |
| Vfs.FileTree.FileOpen | src/fs/vfs.c:340-373 | finddir is fed exactly the tokens that the mount tree did not take, from the mounted file on; "/" gives vfs_root, and a path that is empty or does not begin with a separator nothing |
| Vfs.RootRun | src/fs/vfs.c:340-492 | after any mounts and unmounts, opening "/" gives the file of the last mount of "/" on an empty top, and nothing if there was none |
| Vfs.Strstr | src/common/string.c:127-150 | the first occurrence at or after a position |
| Targa.SlotTwice | src/gui/targa.c:75 | the placement of pixels is its own inverse: every place gets exactly one pixel of a full stream |
| Targa.SlotIs | src/gui/targa.c:75 | stream order with the origin at the top, rows upside down with the origin at the bottom |
| Targa.Advance | src/gui/targa.c:75 | the row test before each pixel puts the t-th pixel at row h-1-t/w or t/w, column t%w, across packet boundaries and behind the image too |
| Targa.PacketByte | src/gui/targa.c:70-78 | the top bit of a packet's first byte is its kind, the other seven the number of its pixels less one |
| Targa.Decode | src/gui/targa.c:66-109 | every coded pixel goes to its slot and nothing else is written, for any mix of run and raw packets |
| Targa.WellFormedIs | src/gui/targa.c:66-109 | a well-formed stream is one of whole packets with no more pixels than the image |
| Targa.BehindImage | src/gui/targa.c:75 | a pixel behind the last one lies outside the buffer, except for the two that fall on the size words in front of the pixels |
| Targa.StaysInData | src/gui/targa.c:66-109 | the decoder writes nothing outside the buffer if and only if the stream has no more pixels than the image, or at most two more and the image has one or two columns, bottom up |
| Targa.FullImage | src/gui/targa.c:66-109 | a full stream determines every pixel of the image |
| Targa.AcceptedIs | src/gui/targa.c:41-92 | which header fields types 9 and 10 must have, and how wide their colours are |
| Targa.StartIs | src/gui/targa.c:40 | the pixels begin behind the header and the colour map |
| Targa.Parse | src/gui/targa.c:36-115 | the headers accepted, the dimensions, and the decoded pixels |
| TargaStreams.ColourIs | src/gui/targa.c:76 | a colour is blue, green, red and alpha, opaque when there is no fourth byte |
| TargaStreams.DecodesCoded | src/gui/targa.c:66-109 | decoding any list of packets as a coder writes them gives the pixels they stand for |
| Sorfs.UnpackedPacked | src/fs/sorfs.c:24-33 | a record read back is the record written |
| Sorfs.PackedFields | src/Include/sorfs.h:54-61 | a record is magic, name, kind, size and offset, little-endian and without gaps |
| Sorfs.RecordIs | src/tools/mksorfs/mksorfs.cpp:91-117 | record i of an image has the name, size and place of file i; the others are marked free |
| Sorfs.ExtentsInOrder | src/tools/mksorfs/mksorfs.cpp:91-111 | extents follow each other without gap or overlap, inside the image |
| Sorfs.ContentOnDisk | src/fs/sorfs.c:40-43 | from a record's offset on the disk holds the file's bytes and then those of the files behind it |
| Sorfs.Build | src/tools/mksorfs/mksorfs.cpp:81-137 | superblock with magic, name, size and counts, then table and contents as the driver expects them |
| Sorfs.Driver.FindDir | src/fs/sorfs.c:134-148 | the first file of the name, with its record number and size |
| Sorfs.Driver.Read | src/fs/sorfs.c:97-105 | the buffer gets the bytes from the record's offset on, whatever the file's size: the named file's inside it, and those of the files behind it past its end |
| Process.ChosenOne | src/process/process.c:77-80 | a request ends at exactly one process, as long as one is left |
| Process.ChosenIsNearest | src/process/process.c:77-80 | the chosen process is the first that counting down from the request comes to, around 0 |
| Process.ResumedAsSaved | src/process/process.c:11-146 | in every run a resumed process gets each register under its own name as it was when it last stopped, or those it was made with, and has not run in between |
| Process.KeptByLast | src/process/process.c:16-49 | the registers kept for a process that is not running were stored by its last event |
| Process.Manager.Search | src/process/process.c:77-80 | the search terminates, at the greatest live pid not above the request or else the greatest of all |
| Process.Manager.ContextSwitch | src/process/process.c:16-49 | the process that ran keeps each saved register under its own name, its user stack pointer and CR3; the one resumed gets exactly the registers kept for it |
| Process.Manager.ChangeProcess | src/process/process.c:65-90 | the same through change_process; a missing process 0 panics |
| Process.Manager.Create | src/process/process.c:115-146 | a new pid, a new process that runs from its entry point, the process that ran saved, and the registers of the others kept |
| Process.Manager.Exit | src/process/process.c:92-113 | the process leaves the list, the next one chosen resumes with its saved registers, and the registers of all others are kept |
| Line.StepUp | src/gui/draw.c:128-135 | the error term wraps around exactly when the floor of i*minor/major goes up by one |
| Line.LineIs | src/gui/draw.c:112-154 | the line starts and ends at the given points, stays in their box, and consecutive points are neighbours |
| Line.RoundedDown | src/gui/draw.c:112-154 | after step i the longer coordinate is i further and the shorter one i*minor/major, rounded down, in the right directions |
| Line.DrawLine | src/gui/draw.c:112-154 | after step i the minor coordinate is start + sign * floor(i*minor/major), in all octants |
| Numerals.NumeralIs | src/common/string.c:187-208 | the numeral stands for the number by position, without a leading zero, in every base from 2 to 36 |
| Numerals.DigitsAre | src/common/string.c:196 | the digits of values 0 to 35 are 0 to 9 and a to z |
| Numerals.FirstCounts | src/common/string.c:187-208 | the first digit counts most |
| Numerals.Itoa | src/common/string.c:187-208 | the buffer holds the numeral after the reversal in place, then the terminating zero, and nothing behind it has changed |
| Numerals.Atoi | src/common/string.c:210-250 | skips spaces and a sign, and returns the value of the digits |
| Numerals.ParsedIs | src/common/string.c:210-250 | white space, then a plus, a minus or no sign, then digits; what follows them is not looked at |
| Numerals.ReadBack | src/common/string.c:187-250 | atoi of the base-10 numeral of n is n, and of the same with a minus sign -n |

## Left out

- AtaPio.Device.Write: a call with offset 0 and size 0 is excluded, because the end of its range wraps around; `AtaPio.BoundsFit` says so.
- AtaPio.Device.Read: the same.
- Ext2.FileSystem.SetDBlockNum: required to find the tables on its way, so `alloc_inode_metadata_block` is not reached; `BlockTree.NewTableIsLost`, `BlockTree.NewSecondIsLost`, `BlockTree.NewRootIsStale` and `BlockTree.NewSingle` say on values what the code then leaves, for blocks handed out before. Three file blocks whose write would leave the buffer are excluded by `IsPlace`.
- Ext2.FileSystem.GetDBlockNum: promises nothing when a table number lies outside the disk or the file block is past the triple tables, where the code reads whatever its buffer held.
- Ext2.FileSystem.ReadInodeFiledata: an offset behind the end but in the same block is excluded, where `Ext2.PastTheEnd` says how much is copied, and so are file blocks whose number lies outside the disk.
- Allocation.Groups.Alloc: stands for both allocators, which differ only in the descriptor fields they use. Bitmaps are required to lie apart from each other and from block 2, which `rewrite_bgd` overwrites.
- Frames.Pmm.AllocBlock: needs a free frame; without one the source sets a bit outside the bitmap and returns -1.
- Paging.KernelSpace.AllocRegion: the same, for every page of the region that is not mapped yet and not mapped to itself.
- Paging.KernelSpace.FreeRegion: frames of the region must have a bit, since the source otherwise clears one outside the bitmap.
- KernelHeap.Heap.Malloc: a block taken from the break needs free frames, since `alloc_block` without a free frame writes outside the bitmap, and a break below 2^32, since `ksbrk` otherwise moves the break down (`Paging.KernelSpace.Ksbrk`).
- KernelHeap.Heap.Realloc: the same, for a move to the break.
- HeapSession.Calls: a run ends with the first call that splits the last block; `HeapTail.LooksExactly` says what each call after that reads.
- Targa.Decode: the same restriction on streams as for `Targa.Parse`.
- KernelHeap.Heap.Free: of an address that is not a live payload is undefined in the source and excluded, as is freeing an address that `kmalloc_a` moved to a page boundary.
- Kmalloc.KmallocInt: before the heap is up the source hands out addresses from a pointer; that branch is not modelled.
- Paging.KernelSpace.AllocPage: one page directory is modelled; copying directories is not.
- Boot.Start: assumes that the kernel image ends, and the frame bitmap begins, 1 MB below the heap. Page tables and heap are separate memory in the model; `Boot.TablesBelowHeap` shows that their addresses are apart.
- Vfs.FileTree.FileOpen: paths that end in a separator are excluded, because the source then writes through the wrong pointer (src/fs/vfs.c:325-326). `finddir` of the mounted file systems is a parameter; opening flags are left out.
- Vfs.Node.Insert: children are a sequence; the linked list of src/common/structures/list.c, whose front insertion reads an empty head, is not modelled.
- Sorfs.Build: the superblock name is the 32 bytes of its field; a longer output name, which the source copies past the field, is left out.
- Sorfs.Driver.FindDir: promises nothing for a name that is not there, where the source ends without returning a value.
- Sorfs.Driver.Read: reads that go past the end of the device are excluded.
- Targa.Parse: the stream must consist of whole packets that do not exceed the image; `Targa.StaysInData` says what longer ones do. The final copy into the result, image types 1 and 2, and int overflow of the pixel count are left out.
- Process.Manager.Exit: needs another process, without which the search never ends; the list is a sequence, page directories are numbers. Pids are not reused; the source's counter wraps around after 2^32 processes.
- The merge with a free next block inside `malloc` (src/mem/kheap.c:275-291) is not written out, because `HeapProperties.JoinsAt` shows that a free block never has a free neighbour; `calloc` is left out.
- `write_inode_filedata`, `EXT2_free_block`, `free_inode` and directory entries: what they do departs from their purpose (src/fs/ext2.c:388, 617-618), and correctness statements would be false.
- `mbr_write`, and the offset of a partition: the driver here sits on the whole device; a request past its end is refused as in src/fs/mbr.c:207-211.
- Numerals.Atoi: a number too large for an int is excluded, because signed overflow is undefined in C.
- Line.DrawLine: coordinates are unbounded; the pixel writes become a sequence of points.
- The other drawing code, the network stack, the shell, consoles, interrupts, port I/O and assembly: hardware and user interface.
