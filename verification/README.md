# NimlothOS core in Dafny

A model of four parts of NimlothOS and proofs about them: the Micro-FS file system, Sv39
virtual memory, pipes with the log messages sent through them, and the life cycle of
processes.  `dafny verify dfyconfig.toml` checks all of it.

**Micro-FS.**  Blocks live on one device behind a write-back cache of sixteen entries.
Bitmaps hand out inodes and data blocks, an inode names its blocks through direct, indirect
and double-indirect ids, directories are files of 32-byte entries.  `BlockCache`, `Bitmap`,
`Layout`, `InodeGrowth`, `FileData`, `DiskInode`, `Mfs`, `Vfs`, `Format`, `Directory` and
`DirOps` follow these layers; each method works on the cache object and its contract speaks
of the plain array of blocks behind it.  `FsState` states the volume invariant (who owns
which block, free blocks are zero, the tail of a last block is zero) and the meaning of a
volume as a map from inode to bytes.  `FsRuns` is the result: every run of operations on a
formatted volume does to the blocks what it does to that map, and returns the same bytes,
and mounting the device again shows the same files.  `Paths` says which files a path can
name, `FsLimits` shows what happens without free space.

**Virtual memory.**  `PhysMem` is physical memory with the stack frame allocator,
`PageTable` the three-level table in raw frames that refines a map from page number to leaf,
`MemorySet` the framed areas with their frames, `SpaceRuns` all runs on one space, `Fork` the
copy of a user space, `Spaces` any number of spaces in one memory beside the frames the kernel
holds itself, `SystemRuns` all runs on them, with the frames that are enough, `UserBuffer`
the splitting of a range of user addresses into slices of pages, for exactly the ranges for
which it ends, and the iterator over their bytes.  Entries and `satp` follow sections 4.4 and
4.1.11 of the RISC-V Privileged Architecture, version 1.12; `HardwareWalk` is the translation
of its section 4.3.2 up to the check of access rights, which the kernel's own walk is compared
with.

**Pipes and logs.**  `Pipe` is the 32-byte ring and the two blocking loops, cut at their
yield points; `PipeRuns` all interleavings of any number of readers and writers;
`LogMessage` the message codec; `LogTransport` one sender and one receiver on a pipe: messages
arrive in order, and under every fair schedule they arrive.
`PipeMemory` joins pipes and address spaces: bytes of the writer's range of addresses arrive in
the reader's, under every interleaving and whatever other processes do; `PipeUser` is the two
loops on the ring, the iterator and the pages.

**Processes.**  `Process` is the state of the process subsystem and a step per operation,
`ProcessInv` proves that every step keeps the invariant, `ProcessSteps` says what each step
means field by field, `Kernel` is the code on the kernel's variables, proved against the steps,
`ProcessRuns` what follows for every run.
`Machine` joins processes and memory: which steps on memory a call leads to, that they are
always possible, and that a process finds its memory as it left it; `MachineRuns` is the code
from power-on through every run of calls.

Where the code and its documentation differ the model follows the code: the cache drops the
entry that was *inserted* first among those nobody holds, since a hit does not reorder the
queue (the documentation says least recently used); `translate` may return an entry that is
not valid; a suspended process always goes back to the first ready queue; a read or write of
no bytes on a pipe waits like any other; `recycle_data_pages` does free the frames of the pages;
a buffer that would reach the upper half of the address space is silently cut short at its
border, or, if its end has more than 39 bits and does not look like an address of the upper
half, is never finished: unless it panics on the way, the loop comes to stand on one address
and pushes slices for ever.

Conventions.  An object the source shares through reference counting is a value in a
collection plus an explicit count (`strong` for cache entries, `RefCount` for process
control blocks).  Ghost parameters `g` and `k` say which volume and inode a handle belongs
to.  A disk inode is mapped from its block into an object and stored back while the block
stays pinned, as the source does through a reference into the cached bytes.  Panics and
failed assertions of the source are preconditions where the source leaves them to the
caller, and are proved unreachable everywhere else.

## Model

| member | source | states |
|---|---|---|
| LittleEndian.DecodeEncode | components/src/log/message.rs:99-106 | decoding the n little-endian bytes of a number below 256^n gives the number back |
| LittleEndian.EncodeDecode | components/src/log/message.rs:136-163 | encoding what was decoded gives the bytes back |
| LittleEndian.EncodeAt | components/src/log/message.rs:99-106 | byte i of the encoded number is its i-th byte from below |
| BlockCacheLayer.BlockCacheManager.constructor | components/src/micro_fs/block_cache.rs:361-365 | an empty cache shows the device itself |
| BlockCacheLayer.BlockCacheManager.FindSlot | components/src/micro_fs/block_cache.rs:399 | finds the entry of a block, or shows that there is none |
| BlockCacheLayer.BlockCacheManager.FindVictim | components/src/micro_fs/block_cache.rs:402-413 | the entry inserted first among those without other holders, or none exists |
| BlockCacheLayer.BlockCacheManager.Lookup | components/src/micro_fs/block_cache.rs:394-421 | never changes the blocks seen; a hit keeps the queue's order; a miss on a full queue drops exactly the oldest unpinned entry and appends the new one; it fails exactly when sixteen entries are all pinned |
| BlockCacheLayer.BlockCacheManager.EvictSlot | components/src/micro_fs/block_cache.rs:319-334 | dropping an entry writes it back, so the blocks seen do not change |
| BlockCacheLayer.BlockCacheManager.Read | components/src/micro_fs/block_cache.rs:264-266 | a held entry has the block as last modified |
| BlockCacheLayer.BlockCacheManager.Modify | components/src/micro_fs/block_cache.rs:227-236 | changes one block of the array seen and no other; the entry of that block, and only it, holds the new bytes and is marked modified |
| BlockCacheLayer.BlockCacheManager.ReadBlock | components/src/micro_fs/block_cache.rs:455-459 | a lookup for one statement: the block, no change, no handle left |
| BlockCacheLayer.BlockCacheManager.WriteBlock | components/src/micro_fs/block_cache.rs:298-300 | a modification for one statement: one block changes, no handle left |
| BlockCacheLayer.BlockCacheManager.SyncAll | components/src/micro_fs/block_cache.rs:482-487 | afterwards the device equals the array of blocks seen and nothing is marked modified |
| BlockCacheLayer.BlockCacheManager.FifteenPinsSuffice | components/src/micro_fs/block_cache.rs:402-413 | with at most fifteen handles out the lookup cannot run out of entries |
| BlockCacheLayer.AllPinned | components/src/micro_fs/block_cache.rs:402-413 | if every entry is pinned there are at least as many handles as entries |
| BlockCacheLayer.EvictConsistent | components/src/micro_fs/block_cache.rs:327-334 | writing back and dropping an unpinned entry keeps cache, device and array in agreement |
| BlockCacheLayer.LoadConsistent | components/src/micro_fs/block_cache.rs:110-119 | so does loading a block that is not cached |
| BlockCacheLayer.UpdateConsistent | components/src/micro_fs/block_cache.rs:319-324 | so does replacing an entry by another for the same block |
| BlockCacheLayer.RunOps | components/src/micro_fs/block_cache.rs:394-487 | under every sequence of reads, writes and syncs, of handles taken, used and dropped, with at most fifteen out before a lookup, the cache returns what a plain array returns, exactly the handles taken and not dropped are out, and a final sync makes the device that array |
| BlockCacheLayer.LastWrite | components/src/micro_fs/block_cache.rs:227-236 | over every run a block holds what was last written to it, through a handle or not |
| BlockCacheLayer.HandlesCounted | components/src/micro_fs/block_cache.rs:394-421 | the handles out on a block are those taken less those dropped |
| BitmapLayer.AddClearBit | components/src/micro_fs/bitmap.rs:147 | adding the power of a clear bit sets that bit and leaves all others |
| BitmapLayer.SubSetBit | components/src/micro_fs/bitmap.rs:192 | subtracting the power of a set bit clears that bit and leaves all others |
| BitmapLayer.TrailingOnes | components/src/micro_fs/bitmap.rs:141-146 | the position of the lowest clear bit of a word that is not all ones |
| BitmapLayer.FirstClear | components/src/micro_fs/bitmap.rs:141-146 | the lowest clear bit of a block, or all are set |
| BitmapLayer.Bitmap.Decomposition | components/src/micro_fs/bitmap.rs:237-241 | block, word and bit add up to the bit number |
| BitmapLayer.UsedAfterBlockUpdate | components/src/micro_fs/bitmap.rs:186-194 | changing one bit of one block adds or removes exactly that number |
| BitmapLayer.Alloc | components/src/micro_fs/bitmap.rs:133-158 | finds the lowest clear bit and sets only it; nothing found exactly when no bit is clear |
| BitmapLayer.Dealloc | components/src/micro_fs/bitmap.rs:186-194 | clears exactly the given bit, which must be set |
| BitmapLayer.AllocThenDealloc | components/src/micro_fs/bitmap.rs:133-194 | freeing what was allocated restores the set of used bits |
| BitmapLayer.FirstFitBound | components/src/micro_fs/bitmap.rs:133-158 | the lowest clear bit is at most the number of set bits |
| BitmapLayer.BlockBitIs | components/src/micro_fs/bitmap.rs:44 | bit j of a bitmap block is bit j % 8 of its byte j / 8 |
| Layout.SetU32 | components/src/micro_fs/layout.rs:424-431 | one entry of an index block changes, the other 127 stay |
| Layout.DataBlocksLeast | components/src/micro_fs/layout.rs:324-326 | a file has the least number of blocks that hold its bytes |
| Layout.TotalStep | components/src/micro_fs/layout.rs:337-367 | one more data block costs one block plus the index blocks that start with it |
| Layout.TotalMono | components/src/micro_fs/layout.rs:337-379 | `total_blocks` is strictly monotone in the number of data blocks, so the needed count never underflows |
| Layout.Owned | components/src/micro_fs/layout.rs:337-367 | the listing of all blocks of the index tree has as many elements as `total_blocks` computes |
| Layout.OwnedAt | components/src/micro_fs/layout.rs:265-286 | where each data and index block sits in the listing |
| Layout.OwnedDistinct | components/src/micro_fs/layout.rs:265-286 | without duplicates in the listing, different places of the tree are different blocks |
| Layout.BlockIdInjective | components/src/micro_fs/layout.rs:265-286 | `block_id` is injective over the blocks of a file |
| Layout.OwnedFrame | components/src/micro_fs/layout.rs:265-286 | the tree depends on its index blocks only |
| Layout.NodeIsNotData | components/src/micro_fs/layout.rs:265-286 | no index block is a data block of the same file |
| InodeGrowth.WriteNode | components/src/micro_fs/layout.rs:424-464 | writing an index block keeps all ids placed before and all data |
| InodeGrowth.Advance | components/src/micro_fs/layout.rs:405-464 | placing the next data block id extends the listing by exactly the ids taken |
| InodeGrowth.StepDirect | components/src/micro_fs/layout.rs:410-413 | one step of the direct loop |
| InodeGrowth.StepRoot | components/src/micro_fs/layout.rs:415-436 | taking the block for a new index root |
| InodeGrowth.StepIndirect1 | components/src/micro_fs/layout.rs:424-431 | one step of the indirect loop |
| InodeGrowth.StepLeafNode | components/src/micro_fs/layout.rs:449-452 | taking a new leaf of the double-indirect tree |
| InodeGrowth.StepLeaf | components/src/micro_fs/layout.rs:453-457 | one entry in the current leaf |
| FileData.WriteStep | components/src/micro_fs/layout.rs:761-782 | one pass of the write loop changes exactly the bytes of its range |
| FileData.WrittenKeepsTree | components/src/micro_fs/layout.rs:748-784 | writing data changes neither the index tree nor any block outside the file |
| FileData.WrittenMeans | components/src/micro_fs/layout.rs:748-784 | the contents are the old ones with the buffer laid over them |
| DiskInodeOps.DiskInode.LookupBlock | components/src/micro_fs/layout.rs:265-286 | the walk through the cache finds the block the tree names |
| DiskInodeOps.DiskInode.IncreaseSize | components/src/micro_fs/layout.rs:399-474 | consumes exactly the ids supplied, in order; old block ids stay; no data block and no foreign block is written |
| DiskInodeOps.DiskInode.ClearSize | components/src/micro_fs/layout.rs:534-603 | returns every block of the file, data and index, once, as many as `total_blocks` says; the inode is empty |
| DiskInodeOps.DiskInode.ReadAt | components/src/micro_fs/layout.rs:687-724 | fills the buffer with exactly the bytes of the range that exist, leaves the rest of it alone |
| DiskInodeOps.DiskInode.WriteAt | components/src/micro_fs/layout.rs:748-784 | writes exactly the bytes of the range inside the file and returns how many |
| Mfs.InodeBytes | components/src/micro_fs/layout.rs:154-161 | where each byte of an inode lies on the disk |
| Mfs.LoadStore | components/src/micro_fs/vfs.rs:190-194 | an inode stored in its slot is loaded back unchanged |
| Mfs.LoadOther | components/src/micro_fs/vfs.rs:190-194 | storing an inode leaves the other three of its block alone |
| Mfs.RegionsCover | components/src/micro_fs/mfs.rs:112-135 | the five regions follow one another without gap or overlap and end at the last block; every data block has a bit, which it would not with fewer bitmap blocks, every inode bit a slot |
| Mfs.InodePositions | components/src/micro_fs/mfs.rs:228-236 | inode i starts at byte 128 * i of the inode area; positions of different inodes do not overlap |
| Mfs.Open | components/src/micro_fs/mfs.rs:192-211 | rebuilds the layout from the superblock; refuses another magic number |
| Mfs.OpenAfterCreate | components/src/micro_fs/mfs.rs:145-211 | opening what `create` initialised gives the layout it was created with |
| Mfs.SuperBlockBytes | components/src/micro_fs/layout.rs:116-123 | where each byte of the superblock lies |
| Mfs.AllocInode | components/src/micro_fs/mfs.rs:267-269 | the lowest free inode, or none |
| Mfs.AllocData | components/src/micro_fs/mfs.rs:286-288 | a free block, not past the start of the area plus the number in use |
| Mfs.DeallocData | components/src/micro_fs/mfs.rs:344-356 | the block is zero and free, nothing else changes |
| FsState.OwnershipUpdate | components/src/micro_fs/vfs.rs:457-510 | an inode that trades its blocks for free ones keeps ownership disjoint and complete |
| FsState.FileFrame | components/src/micro_fs/vfs.rs:547-602 | a file depends on its own blocks only |
| FsState.OthersUntouched | components/src/micro_fs/vfs.rs:593-602 | work on one file leaves every other file's inode, blocks and bytes as they were |
| FsState.Commit | components/src/micro_fs/vfs.rs:190-194 | storing the changed inode restores the volume invariant and changes one file of the map |
| Vfs.HandleUnique | components/src/micro_fs/vfs.rs:118-131 | a handle stands for one inode |
| Vfs.AllocBlocks | components/src/micro_fs/vfs.rs:466-470 | the calls of `alloc_data` all find a block of the data area exactly when the blocks in use and the blocks asked for fit into it together; then the blocks are distinct, were free, and only their bits change |
| Vfs.TakenFits | components/src/micro_fs/mfs.rs:286-288 | distinct free blocks of the data area, together with those in use, are never more than the area has |
| Vfs.InLastBlock | components/src/micro_fs/layout.rs:754-769 | the first block the write loop addresses belongs to the file exactly when the buffer is not empty, or starts before the end of the file, or inside a block |
| Vfs.GrewBytes | components/src/micro_fs/vfs.rs:457-472 | new bytes of a grown file are zero, old ones keep their value |
| Vfs.GrewPending | components/src/micro_fs/vfs.rs:457-472 | growing keeps ownership, with the old bytes followed by zeros |
| Vfs.IncreaseSize | components/src/micro_fs/vfs.rs:457-472 | the file reaches the larger of the two sizes, padded with zeros; other files untouched |
| Vfs.WriteAt | components/src/micro_fs/vfs.rs:593-602 | the map of files changes at one inode, to the old bytes overwritten at the offset, with zeros in a gap; the invariant holds and the device is in step |
| Vfs.ReadAt | components/src/micro_fs/vfs.rs:547-550 | returns exactly the slice of the abstract bytes |
| Vfs.WriteBytes | components/src/micro_fs/vfs.rs:593-602 | byte by byte: the buffer where it was written, the old bytes elsewhere, zeros in a gap |
| Vfs.Clear | components/src/micro_fs/vfs.rs:498-510 | the file is empty, exactly its blocks are free again and zero, other files untouched; the length assertion holds |
| Vfs.WriteThenClear | components/src/micro_fs/vfs.rs:498-602 | writing to an empty file and clearing it restores the data bitmap and all files |
| Vfs.OwnersDetermineUsed | components/src/micro_fs/vfs.rs:457-510 | the data bitmap is a function of what the inodes own |
| Format.AddInode | components/src/micro_fs/vfs.rs:397-403 | a new inode is an empty file and nothing else changes |
| Format.NewInode | components/src/micro_fs/mfs.rs:157-163 | takes the lowest free inode and initialises it |
| Format.BlankInv | components/src/micro_fs/mfs.rs:136-144 | a zeroed device satisfies the volume invariant with no files |
| Format.Create | components/src/micro_fs/mfs.rs:112-166 | formatting yields a volume with the invariant, whose only file is the empty root directory |
| FsLimits.FullVolume | components/src/micro_fs/mfs.rs:286-288 | on a volume whose data area is full the next block handed out is the one just past the end |
| FsLimits.FirstBlockEscapes | components/src/micro_fs/mfs.rs:112-135 | a volume of 1027 blocks with one inode bitmap block has no data area: after formatting, the first data block handed out is number 1027 |
| FsLimits.EmptyWriteAddresses | components/src/micro_fs/layout.rs:754-769 | when an empty write addresses a block of the file |
| FsLimits.EmptyWriteEscapes | components/src/micro_fs/layout.rs:265-286 | an empty write at the end of any file of exactly 27 blocks takes the magic number of the superblock for a block id |
| Directory.DirentLayout | components/src/micro_fs/layout.rs:810-813 | where each byte of an entry lies |
| Directory.DirentRoundTrip | components/src/micro_fs/layout.rs:840-896 | an entry decodes to the name and inode it was made of |
| Directory.DirentSurvives | components/src/micro_fs/layout.rs:840-887 | of the names that fit the 28-byte field, exactly those of at most 27 bytes without NUL can be read back |
| Directory.EntriesAppend | components/src/micro_fs/vfs.rs:404-414 | appending an entry's bytes appends that entry |
| Directory.Lookup | components/src/micro_fs/vfs.rs:282-296 | nothing found exactly when no entry has the name |
| Directory.LookupFirst | components/src/micro_fs/vfs.rs:282-296 | what is found is the inode of the first entry with the name |
| Directory.TreeAfterWrite | components/src/micro_fs/vfs.rs:593-602 | writing a file leaves the directory tree intact |
| Directory.TreeAfterCreate | components/src/micro_fs/vfs.rs:387-424 | creation keeps names distinct, entries naming distinct existing inodes, and every inode named once |
| Directory.ResolveAfterCreate | components/src/micro_fs/vfs.rs:387-424 | every path that led somewhere still does, and the new name leads to the new inode |
| Directory.Reachable | components/src/micro_fs/vfs.rs:231-255 | every inode has a list of names leading to it from the root |
| Directory.PathUnique | components/src/micro_fs/vfs.rs:231-255 | and only one |
| Directory.SplitJoin | components/src/micro_fs/vfs.rs:235 | splitting a joined path gives its components |
| Directory.ResolveJoin | components/src/micro_fs/vfs.rs:231-255 | `find` of a joined path follows its components |
| Paths.ComponentsJoin | components/src/micro_fs/vfs.rs:235 | splitting undoes joining for names that are not empty and have no slash |
| Paths.FoundIff | components/src/micro_fs/vfs.rs:231-255 | some path finds an inode exactly when every name on the one way to it is not empty and has no slash |
| Paths.Lost | components/src/micro_fs/vfs.rs:231-255 | a file called "a/b", or by the empty name, is stored and found by no path |
| DirOps.FindInodeId | components/src/micro_fs/vfs.rs:282-296 | the loop over the entries is the lookup in the abstract directory |
| DirOps.Ls | components/src/micro_fs/vfs.rs:328-346 | the names in order; nothing for a file |
| DirOps.FindPath | components/src/micro_fs/vfs.rs:231-255 | follows the tree component by component, fails at a file or a missing name |
| DirOps.CreateInode | components/src/micro_fs/vfs.rs:387-424 | refuses exactly an existing name, changing nothing, also on a full volume; else the tree gains one empty node and one name at the end of `ls`; the superblock stays |
| FsRuns.SpaceInUse | components/src/micro_fs/vfs.rs:457-510 | the data bitmap has exactly as many bits set as `total_blocks` of all file sizes add up to |
| FsRuns.NextInode | components/src/micro_fs/mfs.rs:267-269 | inodes are handed out in order, without gaps |
| FsRuns.ReadBack | components/src/micro_fs/vfs.rs:547-602 | in the abstract map, which every run refines, a read returns what was written there, and no other file has changed |
| FsRuns.ReadMeans | components/src/micro_fs/vfs.rs:547-550 | a read gives the bytes from its offset on, as many as asked for and as there are |
| FsRuns.TruncateMeans | components/src/micro_fs/vfs.rs:498-510 | after clearing every read of the file gives nothing |
| FsRuns.MakeMeans | components/src/micro_fs/vfs.rs:387-424 | one empty node of the kind asked for, one entry more at the end of the directory, nothing else |
| FsRuns.RunVolume | components/src/micro_fs/vfs.rs:387-602 | every run of create, write, read and clear does to the blocks what it does to the abstract map, reads return the abstract bytes, the superblock stays and the device stays in step |
| FsRuns.FormatThenRun | components/src/micro_fs/mfs.rs:112-166 | the same from a freshly formatted device; afterwards the device is in step and its superblock gives the layout |
| FsRuns.Remount | components/src/micro_fs/mfs.rs:192-211 | a new cache on the device, opened from the superblock alone, shows the same layout and the same files |
| PhysMemory.PhysMem.constructor | os/src/mm/frame_allocator.rs:209-212 | nothing is handed out, the whole range is free |
| PhysMemory.PhysMem.FrameAlloc | os/src/mm/frame_allocator.rs:251-263 | the frame given back last, else the next fresh one; it is not live and is zeroed; no other page changes; fails exactly when none is left |
| PhysMemory.PhysMem.ZeroFill | os/src/mm/frame_allocator.rs:443-449 | the page is all zeros, other pages unchanged |
| PhysMemory.PhysMem.FrameDealloc | os/src/mm/frame_allocator.rs:287-293 | the panic cannot happen for a live frame; exactly it becomes free |
| PhysMemory.Conservation | os/src/mm/frame_allocator.rs:209-293 | live and recycled frames are disjoint and together exactly the frames ever taken; live plus free is constant |
| Sv39.PteRoundTrip | os/src/mm/page_table.rs:223-293 | the page number starts at bit 10 of an entry, above the flags; both survive, validity is the lowest flag |
| Sv39.Indexes | os/src/mm/address.rs:486-494 | the loop yields the three nine-bit indexes, highest first, and no other page number of 27 bits has them |
| Sv39.IndexInjective | os/src/mm/address.rs:486-494 | different 27-bit page numbers have different indexes |
| Sv39.FrameLemma | os/src/mm/page_table.rs:547-563 | a table depends on its own frames only |
| Sv39.WriteLeaf | os/src/mm/page_table.rs:601-647 | writing a leaf entry changes the meaning at one page number only |
| Sv39.NewTable1 | os/src/mm/page_table.rs:501-521 | hanging a zeroed frame under the root changes no translation |
| Sv39.NewTable2 | os/src/mm/page_table.rs:501-521 | nor does hanging one as a leaf table |
| Sv39.TokenRoundTrip | os/src/mm/page_table.rs:681-768 | `satp` has mode 8 in its highest four bits, no address space identifier, the root in its lowest 44; `from_token` gives it back |
| Sv39.PlainWrite | os/src/mm/page_table.rs:501-605 | entries of the two upper levels keep having no flag but V, and reserved bits stay clear |
| Sv39.HardwareSees | os/src/mm/page_table.rs:547-563 | the walk of the standard, from `satp` on and with its own reading of entries and page numbers, finds the leaf the kernel's walk finds exactly when it has R or X, and not W without R; all else faults |
| Sv39.MappedButFaults | os/src/mm/memory_set.rs:1059-1070 | a page with U alone is mapped for the kernel and faults in the hardware |
| Sv39.PageTable.constructor | os/src/mm/page_table.rs:463-469 | a new table maps nothing and owns one new frame |
| Sv39.PageTable.FindPte | os/src/mm/page_table.rs:547-563 | the leaf table of a page number, none if a table on the way is missing |
| Sv39.PageTable.FindPteCreate | os/src/mm/page_table.rs:501-521 | creates exactly the missing tables from fresh frames and changes no translation |
| Sv39.PageTable.Map | os/src/mm/page_table.rs:601-605 | the map gains one leaf and nothing else; the entry is the page number from bit 10 on and the flags with V; only tables and fresh frames are written |
| Sv39.PageTable.Unmap | os/src/mm/page_table.rs:643-647 | the map loses one leaf and nothing else |
| Sv39.PageTable.TranslateVpn | os/src/mm/page_table.rs:723-725 | a valid entry exactly for mapped pages, with their frame and flags |
| Sv39.RunTable | os/src/mm/page_table.rs:601-647 | after every sequence of map and unmap the kernel's walk finds exactly the abstract map, and the hardware's walk exactly its usable leaves |
| AddressSpace.ExtendArea | os/src/mm/memory_set.rs:486-500 | giving an area a page at its end keeps areas disjoint and leaves pointing at owned frames |
| AddressSpace.TrimArea | os/src/mm/memory_set.rs:532-541 | so does taking its first page |
| AddressSpace.SplitArea | os/src/mm/memory_set.rs:577-582 | cutting an area in two changes no page |
| AddressSpace.DropEmptyArea | os/src/mm/memory_set.rs:1342-1352 | nor does dropping an empty area |
| AddressSpace.MapOne | os/src/mm/memory_set.rs:486-500 | maps one page to a fresh zeroed frame; fails exactly for want of frames |
| AddressSpace.UnmapOne | os/src/mm/memory_set.rs:532-541 | unmaps one page and frees exactly its frame |
| AddressSpace.MemorySet.constructor | os/src/mm/memory_set.rs:726-731 | an empty space owns one table frame |
| AddressSpace.MemorySet.GrowArea | os/src/mm/memory_set.rs:361-365 | every page of the added range is mapped to a fresh zeroed frame with the area's permissions, nothing else changes (also `append_to`) |
| AddressSpace.MemorySet.Push | os/src/mm/memory_set.rs:759-765 | one area more, its pages mapped to fresh zeroed frames |
| AddressSpace.MemorySet.MapTrampoline | os/src/mm/memory_set.rs:839-845 | one page at the top that no area owns |
| AddressSpace.MemorySet.TrimLoop | os/src/mm/memory_set.rs:386-390 | unmaps a range and frees exactly its frames; memory outside the tables keeps its contents |
| AddressSpace.MemorySet.RemoveArea | os/src/mm/memory_set.rs:1342-1352 | the first area with that start goes with exactly its frames; without one nothing changes; memory outside the tables keeps its contents |
| AddressSpace.MemorySet.ShrinkArea | os/src/mm/memory_set.rs:577-582 | the pages from the new end on go with exactly their frames; memory outside the tables keeps its contents |
| SpaceRuns.FramesAccounted | os/src/mm/memory_set.rs:486-541 | an address space holds exactly one frame per page of its areas, no other page is mapped but the trampoline, and every leaf points at the frame held for it |
| SpaceRuns.ApplyMeans | os/src/mm/memory_set.rs:577-624 | which pages there are after inserting, extending, shrinking or removing an area |
| SpaceRuns.RunSpace | os/src/mm/memory_set.rs:577-624 | under every run of inserting, extending, shrinking and removing areas the areas are as the requests say, every page holds what it held or zeros, frames held are the pages covered, and the frames of others stay live with their contents; it goes through with three frames per page added, less those given back before |
| ForkSpace.CopyPage | os/src/mm/memory_set.rs:1506-1510 | the child's page has the bytes of the parent's |
| ForkSpace.CopyArea | os/src/mm/memory_set.rs:1506-1510 | all pages of an area are copied, nothing of the parent is touched |
| ForkSpace.FromExistedUser | os/src/mm/memory_set.rs:1500-1513 | same pages, same permissions, same bytes, all frames new; the parent is as before; three frames, and three per page, are enough |
| ForkSpace.WriteIsInvisible | os/src/mm/memory_set.rs:1500-1513 | a write through one of two spaces with disjoint frames changes neither translations nor bytes of the other |
| Spaces.Undisturbed | os/src/mm/memory_set.rs:1500-1513 | a space whose frames are still live and unwritten is valid and holds the same bytes |
| Spaces.NoneChanged | os/src/mm/mod.rs:105-109 | frames the kernel takes, gives back or writes outside all user spaces disturb no space |
| Spaces.Create | os/src/mm/memory_set.rs:726-731 | a new space shares no frame with the others or the kernel and leaves all as they were; three free frames are enough |
| Spaces.Change | os/src/mm/memory_set.rs:577-624 | an area operation on one space changes that space alone; the frames of the kernel keep their contents; how many frames are enough |
| Spaces.Store | os/src/mm/page_table.rs:723-725 | overwriting a page through one space changes that page of that space alone |
| Spaces.ReadPage | os/src/mm/page_table.rs:723-725 | reading through the table gives the page the process sees |
| Spaces.Fork | os/src/mm/memory_set.rs:1500-1513 | the child has the image of its parent, all others keep theirs; how many frames are enough |
| Spaces.DropSpace | os/src/mm/frame_allocator.rs:547-549 | dropping a space gives back exactly its frames, each once: one per page and those of its tables |
| Spaces.Drop | os/src/mm/frame_allocator.rs:547-549 | a space among others is dropped, the others stay as they were |
| Spaces.Recycle | os/src/mm/memory_set.rs:1538-1540 | exactly the frames of the pages are free, the tables stay held, other spaces are as they were |
| Spaces.Replace | os/src/process/process.rs:1439-1470 | the new space takes the place of the old one, all of whose frames are free |
| Spaces.Take | os/src/process/pid.rs:485-494 | frames for the kernel are new and zero, no space changes; it fails exactly when there are too few |
| Spaces.Give | os/src/process/pid.rs:687-695 | exactly the given frames are free, no space changes |
| Spaces.Write | os/src/process/pid.rs:563-573 | the kernel's write to a frame of its own changes no space |
| SystemRuns.RunSystem | os/src/mm/memory_set.rs:486-624 | over every run of creating, changing, writing, forking, replacing, ending and dropping any number of spaces, and of the kernel taking, writing and giving back frames, each space stays valid, every live frame is held once, by one space or for one owner, each space and owner finds what its own steps say, and the run goes through with the stated number of frames |
| SystemRuns.EffectElsewhere | os/src/mm/memory_set.rs:486-624 | a step changes no space and no owner but those it names |
| SystemRuns.RunFromStart | os/src/mm/mod.rs:105-109 | the same from an allocator that has handed out nothing |
| SystemRuns.ExitOne | os/src/process/mod.rs:188 | at exit exactly the frames of the pages become free and those of the tables stay held |
| SystemRuns.CollectOne | os/src/syscall/process.rs:296-302 | at collection exactly the frames of the kernel stack and of the tables become free |
| UserBuffers.TranslatedByteBuffer | os/src/mm/page_table.rs:871-891 | for every range for which the loop ends: nonempty slices that are the user's bytes in order, place by place; they have the requested length exactly when the range stays in one half, else they stop where the loop does; pages past it need not be mapped |
| UserBuffers.VirtIsHardware | os/src/mm/page_table.rs:871-891 | the byte a buffer has for an address is the byte the hardware accesses there |
| UserBuffers.EndsIff | os/src/mm/page_table.rs:876-889 | the loop ends exactly when the end of the range is below 2^39 or its low 39 bits are an address of the upper half |
| UserBuffers.NeverEnds | os/src/mm/page_table.rs:876-889 | otherwise every pass starts in the lower half, before the end |
| UserBuffers.StandsStill | os/src/mm/page_table.rs:876-889 | a length of 2^39 from 0x10000 on: every pass starts at 0x10000 |
| UserBuffers.CutShort | os/src/mm/page_table.rs:871-891 | two bytes asked for at the last address of the lower half, with only its last page mapped, give one |
| UserBuffers.OnePage | os/src/mm/page_table.rs:876-889 | each pass adds exactly the bytes up to the end of the page or of the range |
| UserBuffers.BufferLen | os/src/mm/page_table.rs:1069-1075 | the sum of the slice lengths |
| UserBuffers.UserBufferIterator.constructor | os/src/mm/page_table.rs:1126-1132 | everything is still to be visited |
| UserBuffers.UserBufferIterator.Next | os/src/mm/page_table.rs:1170-1183 | the first place not visited; none skipped, none repeated; ends exactly when all are visited |
| UserBuffers.PlacesAreBytes | os/src/mm/page_table.rs:1135-1183 | the places in order hold the bytes of the buffer |
| UserBuffers.CollectAll | os/src/mm/page_table.rs:1135-1183 | iterating to the end visits every byte once, in order, and terminates |
| PipeRing.PipeRingBuffer.constructor | os/src/fs/pipe.rs:65-73 | an empty ring |
| PipeRing.PipeRingBuffer.ReadByte | os/src/fs/pipe.rs:81-89 | takes the oldest byte |
| PipeRing.PipeRingBuffer.WriteByte | os/src/fs/pipe.rs:92-99 | appends a byte |
| PipeRing.PipeRingBuffer.AvailableRead | os/src/fs/pipe.rs:102-110 | the number of bytes in the ring, from status, head and tail |
| PipeRing.PipeRingBuffer.AvailableWrite | os/src/fs/pipe.rs:113-119 | the free places |
| PipeRing.PipeRingBuffer.Read | os/src/fs/pipe.rs:173-203 | one turn of the loop moves what is there or wanted, and returns or yields as the queue semantics says |
| PipeRing.PipeRingBuffer.Write | os/src/fs/pipe.rs:208-232 | one turn moves what fits, and returns or yields likewise |
| PipeRing.ReadTurn | os/src/fs/pipe.rs:173-203 | nothing is lost between queue and reader; a short return means an empty queue and no writer; a yield means an empty queue and a writer |
| PipeRing.WriteTurn | os/src/fs/pipe.rs:208-232 | the bytes written are appended in order; a return means all of them, a yield means a full queue |
| PipeRuns.RunKeepsInv | os/src/fs/pipe.rs:173-233 | under every interleaving consumed bytes plus ring are the written bytes and each call agrees with the history |
| PipeRuns.Delivery | os/src/fs/pipe.rs:81-233 | the i-th byte consumed is the i-th written, the ring holds exactly those in flight, each call's bytes keep their order |
| PipeRuns.Returned | os/src/fs/pipe.rs:173-233 | in every reachable state a returned write wrote all, and a returned read has all, or the stream has ended and every byte was consumed |
| PipeRuns.EndOfStream | os/src/fs/pipe.rs:122-124 | once every write end is gone no byte is ever added |
| PipeRuns.NoDeadlock | os/src/fs/pipe.rs:173-233 | an unfinished reader and an unfinished writer cannot wait for each other |
| PipeRuns.BlocksIff | os/src/fs/pipe.rs:178-203 | exactly when a resumed read returns, also one of no bytes |
| PipeRuns.ReaderReleased | os/src/fs/pipe.rs:122-124 | when every write has returned and every write end is closed, the next turn of a read returns |
| PipeRuns.ReaderWaits | os/src/fs/pipe.rs:122-124 | at an empty ring a read waits while a write end is open, however often it was duplicated and closed |
| PipeRuns.RunPipe | os/src/fs/pipe.rs:150-233 | the real ring under every run holds and returns what the queue semantics gives |
| PipeMemory.PutGet | os/src/fs/pipe.rs:189-197 | bytes stored from an address on read back, and no other byte changes |
| PipeMemory.StepSame | os/src/fs/pipe.rs:173-233 | every event on pipe and memory is the same event on the pipe alone |
| PipeMemory.Refined | os/src/fs/pipe.rs:173-233 | so is every run, whatever other processes do to their memory in between |
| PipeMemory.Delivered | os/src/fs/pipe.rs:81-233 | from `make_pipe` on bytes arrive first in, first out, and what is written is what the writers' ranges held when their calls started |
| PipeMemory.Arrives | os/src/fs/pipe.rs:173-203 | after every turn of a read the bytes it consumed stand in its range in order; no other byte of its process and nothing of any other changed; short only at the end of the stream |
| PipeMemory.OneToOne | os/src/fs/pipe.rs:173-233 | with one write and one read, the read has a prefix of what was to be written |
| PipeMemory.Transfer | os/src/fs/pipe.rs:173-233 | then the reader's range holds the first bytes of what the writer's range held, and a returned read has as many as it wants or as there are |
| PipeUser.OpenBuffer | os/src/syscall/fs.rs:118 | the iterator over a translated buffer visits the places of the range in order |
| PipeUser.FillPuts | os/src/fs/pipe.rs:189-194 | filling the places of a range stores the bytes from its first address on |
| PipeUser.ReadPlaces | os/src/fs/pipe.rs:173-203 | one turn of the read loop moves bytes from the ring to the places of the iterator as the queue semantics says, and writes nothing else |
| PipeUser.WritePlaces | os/src/fs/pipe.rs:208-232 | one turn of the write loop moves bytes from the places of the iterator to the ring likewise |
| PipeUser.ResumeRead | os/src/fs/pipe.rs:173-203 | on memory with many spaces a turn of a read is the step of `PipeMemory`: the caller's image changes in its range and no other image does |
| PipeUser.ResumeWrite | os/src/fs/pipe.rs:208-232 | and a turn of a write is |
| LogMessages.New | components/src/log/message.rs:71-92 | a message with the given fields exactly when both parts are short enough |
| LogMessages.Serialize | components/src/log/message.rs:95-113 | the byte form, with lengths truncated to their fields |
| LogMessages.SerializedAt | components/src/log/message.rs:95-113 | where each byte of the byte form comes from |
| LogMessages.Deserialize | components/src/log/message.rs:116-183 | the walk with an offset and two length tests is the parse |
| LogMessages.ParseIff | components/src/log/message.rs:116-183 | parsing finds a message exactly when the data begin with its byte form and its lengths fit |
| LogMessages.RoundTrip | components/src/log/message.rs:95-183 | the round trip holds exactly when the lengths fit their fields |
| LogTransport.ShortRead | components/src/log/transport.rs:114-129 | a read that came back short met the end of the stream between two writes |
| LogTransport.FullRead | components/src/log/transport.rs:114-129 | a read served in full has exactly the next buffer the sender wrote |
| LogTransport.PrefixDecodes | components/src/log/transport.rs:100-129 | the length prefix announces the body, and the body parses to the message |
| LogTransport.PlayAllKeeps | components/src/log/transport.rs:100-129 | sender and receiver stay in step under every schedule |
| LogTransport.InOrder | components/src/log/transport.rs:100-129 | the messages received are a prefix of those sent; `receive` fails only after the sender is gone and every message it sent whole was received |
| LogTransport.ChunkAt | components/src/log/transport.rs:100-112 | what goes over the pipe for a message: its length in four bytes, then its byte form |
| LogTransport.AllReceived | components/src/log/transport.rs:100-129 | when all is written and read and the receiver waits for a length, all messages are received |
| LogTransport.StuckIsDone | components/src/log/transport.rs:100-129 | sender and receiver can both do nothing only when all messages are received |
| LogTransport.Delivers | components/src/log/transport.rs:100-129 | from every reachable state with the write end open, every schedule with enough turns for both sides delivers all messages |
| LogTransport.CanDeliver | components/src/log/transport.rs:100-129 | and there is such a schedule |
| LogTransport.EndReported | components/src/log/transport.rs:114-129 | once the sender is gone between two writes `receive` comes to fail, with every message sent whole received |
| ProcessState.StacksApart | os/src/process/pid.rs:784-788 | a guard page lies between any two kernel stacks and all lie below the trampoline |
| ProcessState.StackPosition | os/src/process/pid.rs:784-788 | the first kernel stack ends at the trampoline, each has two pages, the next ends a page below |
| ProcessState.FirstReady | os/src/process/manager.rs:401-408 | the first queue that is not empty |
| ProcessState.LowestFree | os/src/process/process.rs:741-748 | the lowest free descriptor, or the end of the table |
| ProcessState.FirstEnded | os/src/syscall/process.rs:293-295 | the first child that has ended and has the identifier, any identifier for -1 |
| ProcessInvariant.BootInv | os/src/process/mod.rs:110-112 | the invariant holds once the initial process is queued |
| ProcessInvariant.ScheduleKeeps | os/src/process/processor.rs:895-911 | scheduling keeps the invariant |
| ProcessInvariant.SuspendKeeps | os/src/process/mod.rs:124-132 | suspending keeps the invariant |
| ProcessInvariant.ForkKeeps | os/src/process/process.rs:1221-1272 | forking keeps the invariant |
| ProcessInvariant.ExitKeeps | os/src/process/mod.rs:159-193 | exiting, with its adoption of orphans, keeps the invariant |
| ProcessInvariant.WaitKeeps | os/src/syscall/process.rs:283-306 | waiting keeps the invariant |
| ProcessInvariant.RunKeeps | os/src/process/processor.rs:895-911 | so does every run |
| ProcessInvariant.NewPid | os/src/process/pid.rs:207-214 | a new identifier is held by nobody |
| ProcessSteps.ScheduleMeans | os/src/process/processor.rs:895-911 | the head of the first queue that is not empty runs, nothing else changes |
| ProcessSteps.SuspendMeans | os/src/process/mod.rs:124-132 | the running process is ready behind everybody in the first queue, nothing else changes |
| ProcessSteps.ForkMeans | os/src/process/process.rs:1221-1272 | a ready child of the running process with a new identifier and the same open files, last in the first queue, nothing else |
| ProcessSteps.ExitMeans | os/src/process/mod.rs:159-193 | the process has ended with the code given and hands its children over, nothing else; the initial process stops the machine |
| ProcessSteps.OpenMeans | os/src/syscall/fs.rs:162-163 | the lowest free descriptor names the file, every other is unchanged, the table grows by at most one |
| ProcessSteps.WaitMeans | os/src/syscall/process.rs:283-306 | by identifiers: no child exactly when none has the identifier, collected exactly when one that has it has ended, and that one |
| ProcessSteps.CollectMeans | os/src/syscall/process.rs:296-302 | the first ended child named goes with its identifier and kernel stack; its identifier and its code are the answer |
| KernelProcesses.Kernel.constructor | os/src/process/mod.rs:110-112 | the state after start-up: one ready process with identifier 0 and three open files |
| KernelProcesses.Kernel.Fetch | os/src/process/manager.rs:401-408 | takes the head of the first queue that is not empty |
| KernelProcesses.Kernel.AddProcess | os/src/process/manager.rs:522-538 | the process waits once more than before, behind everybody in the first queue; its identifier finds it, all others find whom they found |
| KernelProcesses.Kernel.Schedule | os/src/process/processor.rs:895-911 | always finds a process, the head of the first queue that is not empty, which runs |
| KernelProcesses.Kernel.Suspend | os/src/process/mod.rs:124-132 | the current process is ready again at the end of the first queue |
| KernelProcesses.Kernel.AllocPid | os/src/process/pid.rs:207-214 | an identifier nobody holds, the one freed last if there is one; the pool stays a pool whoever gets it |
| KernelProcesses.Kernel.DeallocPid | os/src/process/pid.rs:257-265 | for a held identifier the two assertions hold, the pool stays a pool without its holder, and the next allocation hands the same one out and restores the allocator |
| ProcessInvariant.AllocKeepsPool | os/src/process/pid.rs:207-214 | identifiers held and identifiers to be used again keep sharing out all that were ever handed out |
| KernelProcesses.Kernel.NewChild | os/src/process/process.rs:1221-1272 | the child is linked under a new identifier with a kernel stack and a copy of the descriptors, not queued yet |
| KernelProcesses.Kernel.Fork | os/src/syscall/process.rs:176-184 | the child is queued and known by the identifier returned, which nobody had, is in its parent's list and has the descriptors of its parent |
| KernelProcesses.CopyTable | os/src/process/process.rs:1231-1238 | the copy of the descriptor table is equal |
| KernelProcesses.Kernel.Exit | os/src/process/mod.rs:159-193 | the process is a zombie with the code given and without children, out of the lookup table, its children belong to the initial process |
| KernelProcesses.Kernel.AdoptAll | os/src/process/mod.rs:182-185 | the loop hands over all children, in order |
| KernelProcesses.Kernel.Waitpid | os/src/syscall/process.rs:283-306 | the three answers by identifiers, and the collected child is gone with its identifier and kernel stack; the assertions on the way hold |
| KernelProcesses.Kernel.Collect | os/src/syscall/process.rs:296-302 | taking the child from the list leaves no other reference, and gives everything back |
| KernelProcesses.Kernel.Open | os/src/process/process.rs:741-748 | the file is at the lowest free descriptor, which is returned; every other descriptor is as before |
| KernelProcesses.OneParent | os/src/process/mod.rs:182-185 | a process is at one place of one children list, that of the process its parent link names |
| KernelProcesses.References | os/src/syscall/process.rs:298 | an ended process has one strong reference, any other three |
| KernelProcesses.StrongCountIsOne | os/src/syscall/process.rs:297-298 | the assertion of waitpid holds for every child it can collect |
| KernelProcesses.SomeoneReady | os/src/process/processor.rs:895-911 | when nobody runs somebody is ready |
| ProcessRuns.Reachable | os/src/process/processor.rs:895-911 | the invariant holds in every reachable state |
| ProcessRuns.Whereabouts | os/src/process/manager.rs:401-408 | each process that has not ended is current or at exactly one place of one queue, an ended one is nowhere |
| ProcessRuns.Descends | os/src/process/process.rs:1221-1272 | parent links lead to the initial process from everywhere |
| ProcessRuns.Orphans | os/src/process/mod.rs:182-187 | every child of an exiting process belongs to the initial process and is otherwise unchanged |
| ProcessRuns.Lookup | os/src/process/manager.rs:548-568 | the table finds exactly the processes that have not ended |
| ProcessRuns.Apart | os/src/process/pid.rs:485-494 | two processes have different identifiers and kernel stacks a page apart |
| ProcessRuns.PidsConserved | os/src/process/pid.rs:207-265 | every identifier ever handed out is held by one process or can be used again, never both |
| ProcessRuns.Records | os/src/process/mod.rs:178-179 | exit codes are never overwritten and what was collected stays collected |
| ProcessRuns.CollectedOnce | os/src/syscall/process.rs:296-302 | a successful wait delivers the exit code of a child nobody collected before or can collect later |
| ProcessRuns.CodeDelivered | os/src/process/mod.rs:178-179 | the code a process exits with is the code its collector gets, whatever happens in between |
| ProcessRuns.WaitAnswers | os/src/syscall/process.rs:283-306 | -1 exactly when no child has the identifier, -2 exactly while one has and none of those has ended; -1 stands for any |
| ProcessRuns.RoundRobin | os/src/process/mod.rs:124-132 | whoever waits at place k moves up one place with each dispatch and is dispatched after k others |
| ProcessRuns.OneQueueAlways | os/src/process/manager.rs:536-538 | only the first ready queue is ever used |
| ProcessRuns.RunKernel | os/src/process/processor.rs:895-911 | the kernel's code does under every run of calls what the steps say |
| Machine.ForkJoined | os/src/process/process.rs:1221-1272 | the memory fork needs is there: the child gets the image of its parent but for its trap context, and a zeroed kernel stack of two pages |
| Machine.ForkedTrapWords | os/src/syscall/process.rs:180-181 | the child's trap context differs from its parent's in register a0, which is zero, and in the top of the kernel stack, and in no other word |
| Machine.ExitJoined | os/src/process/mod.rs:159-193 | exit gives up the pages of the process and leaves its page table |
| Machine.CollectJoined | os/src/syscall/process.rs:296-302 | collecting finds kernel stack and page table of the child, and both go |
| Machine.ExitCodeStored | os/src/syscall/process.rs:300-301 | the exit code is in the four bytes at the address the caller gave, every other byte of its memory as before |
| Machine.MineJoined | os/src/mm/memory_set.rs:577-624 | what the running process does to its areas and pages happens there and nowhere else |
| Machine.ExecJoined | os/src/process/process.rs:1439-1470 | exec leaves the process with the areas of the new program and nothing of the old one |
| Machine.StepJoined | os/src/process/mod.rs:124-193 | every step keeps it so that exactly the processes that have not ended have an address space, exactly the ended ones a page table left, and all a kernel stack |
| Machine.StepIsolated | os/src/process/processor.rs:895-911 | no step changes the memory of a process that is not running |
| Machine.MemoryKept | os/src/process/processor.rs:895-911 | over every run a process finds areas and bytes as it left them when it runs again |
| Machine.ChildSeesFork | os/src/process/process.rs:1221-1272 | a child that has not run yet has the memory its parent had at the fork, whatever the parent did since |
| MachineRuns.StepMachine | os/src/process/process.rs:1221-1272 | one call on the kernel's variables and on memory does both steps; an exit frees exactly the frames of the pages, a collection exactly those of the child's page table and kernel stack |
| MachineRuns.RunMachine | os/src/process/processor.rs:895-911 | under every run of calls processes follow their steps, memory follows the processes and every live frame is held once; the run goes through with the stated number of frames |
| MachineRuns.BootJoined | os/src/process/process.rs:863-871 | loading the initial process gives it an address space and a kernel stack |
| MachineRuns.BootAndRun | os/src/process/mod.rs:110-112 | the same from power-on, with the kernel's own frames |
| MachineRuns.NoLeak | os/src/process/pid.rs:687-695 | a live frame belongs to a process that has not ended, to the page table of one that has, to one of their kernel stacks, or to the kernel |

## Left out

- Files larger than 16539 blocks: the double-indirect loop is not bounded there (layout.rs:449), the triple-indirect carry compares with the wrong constant (layout.rs:511) and `clear_size` asserts (layout.rs:569), so sizes are bounded by a precondition.
- More than one device: the cache finds entries by block number only (block_cache.rs:399).
- Vfs.WriteAt: asks for free space, because bitmap bits past the data area are not reserved and the source does not notice; `Vfs.AllocBlocks` says exactly when the blocks handed out stay in the area, and `FsLimits` has the volume where they do not. It also leaves out an empty buffer at a block border at or past the end of the file, which addresses a block the file does not have (`Vfs.InLastBlock` has the exact condition, `FsLimits.EmptyWriteEscapes` an input).
- Vfs.IncreaseSize: asks for free space likewise.
- DiskInodeOps.DiskInode.WriteAt: leaves out the same empty buffer.
- DirOps.CreateInode: for a name that does not exist yet, asks for a free inode, for free space and for at most 27 bytes without NUL, where the source panics or stores an entry it cannot read back.
- Sv39.RunTable: asks for two free frames per operation, enough for any run; `FindPteCreate` states the exact number for one.
- AddressSpace.MemorySet.Push: success is promised for three free frames per page, which is sufficient but not necessary; `MapOne` has the exact condition for one page.
- AddressSpace.MemorySet.ShrinkArea: cuts the area first and then unmaps the upper part, so the states in between are not those of the source.
- PipeRing.PipeRingBuffer.Read: collects the bytes in a sequence; on the pages of the caller the loop is `PipeUser.ReadPlaces`.
- SystemRuns.RunSystem: the stated number of frames is enough but not always needed. The kernel's own page table is among the frames it may write as it likes; its mappings are not modelled.
- MachineRuns.RunMachine: page-table frames for the mapping of a kernel stack are taken in steps of their own. A process keeps its trap context mapped. The address for an exit code is a multiple of four in a page of the process, where the source would panic, write across the border or overwrite the trampoline. A step that finds no frame left ends the run, as the panic of the source does.
- Machine.ExecJoined: the bytes of the program and its arguments are writes that follow.
- PipeUser.OpenBuffer: for ranges in the lower half.
- Sv39.HardwareWalk: ends before the check of access rights and of the A and D bits.
- KernelProcesses.Kernel.Waitpid: returns the exit code; its store through the user's address is `Machine.ExitCodeStored`.
- KernelProcesses.Kernel.Exit: the initial process's exit stops the machine; the state at that moment is kept as it is.
- Identically mapped areas, `copy_data`, `new_kernel`, `from_elf`, `satp` writes and the trap assembly.
- The page table of an ended process still names the frames it has given back; nobody reads it, and only its frames are counted.
- The branch of the timer interrupt for an exhausted time slice (trap/mod.rs:226-247): it queues the current process and then suspends a current process that is no longer there.
- Signals, priorities above the first queue, time slices, and what the kernel writes to trap contexts and kernel stacks beside the two words of a fork.
- KernelProcesses.References: counts the references held by the kernel's variables; a process suspended inside a system call may hold one more to itself, dropped when the call ends and so before the process can exit.
- Locks and borrow checks; the file system is serialised by its mutex, the kernel has one processor.
- UTF-8 validity: names and messages are byte sequences.
- Standard input and output, the log client and server objects, `try_receive`, drivers and the heap.
