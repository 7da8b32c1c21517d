# A verified model of rCore-secure-ipc

This project models the parts of the rCore-secure-ipc kernel and of its easy-fs library that are hardest to get right, and proves what they promise for all inputs, all runs and all interleavings.

**easy-fs.** A 16-entry write-back block cache, bitmaps, the on-disk layout, inodes with direct, indirect and double-indirect blocks, and the name directory. `Layout` numbers the blocks of a file, index blocks included, as one sequence of slots, so growing a file appends to that sequence and clearing it returns the sequence. `FsState` holds the whole-disk invariant: the data bitmap is exactly the disjoint union of the blocks of all files, and free blocks and bytes past the end of a file are zero. `Vfs.EasyFileSystem.Execute` is the main result: every run behaves like `FsSpec`, a list of names and byte sequences, and `Vfs.Remount` says what every result is from the calls alone, across a second mount.

**Address spaces.** A recycling frame allocator, the Sv39 radix table (section 4.4 of the RISC-V Instruction Set Manual, Volume II: Privileged Architecture, version 1.12), the user-range check and copy functions, and areas with the copy made by fork. The table refines a partial map from page numbers to entries; fork gives an equal space on frames nobody used, from then on parent and child never see each other's writes, and dropping the child gives back exactly the frames the fork took.

**Audit log.** A ring of 256 events that refines an unbounded history, the two system calls that copy its records and counters into user memory in their 80-byte layouts, and the paging reader `auditctl`, proved for every kernel and every growing log, and on this ring with its buffers in its own memory.

**Pipes and the security ledger.** The 32-byte ring and every interleaving of blocking readers and writers; quota counters, pipe bitmap, reservations and descriptor tables, which together refine `SecuritySpec`, a description that has none of them and only counts table slots; one audit event per completed request. `SecurityLaws` says what each call of that description amounts to, on return values, descriptors and event fields.

**Process lifecycle.** fork, suspend, dispatch, exit and waitpid over the ready queue, pid map, children lists and pid allocator, with an invariant over every run.

Classes follow the source's objects (`BlockCacheManager`, `DiskInode`, `EasyFileSystem`, `Machine`, `PageTable`, `MemorySet`, `AuditRing`, `PipeRingBuffer`, `QuotaState`, `Process`, `PidAllocator`, `Kernel`); loops of the source are loops here. `dafny verify dfyconfig.toml` checks everything.

Outcomes of what lies outside a component are inputs: clock readings, path lookup, the result of user-memory checks in the descriptor calls, the byte count a transfer moved. Running out of frames panics in the source and returns false here. The blocks of a device are a sequence of 512-byte blocks and memory is a sequence of 4096-byte frames.

The pipe write loop waits for room and for nothing else; it never asks whether a reader is left. The model therefore has no count of read ends: what it says is about schedules in which no reader takes a turn, and `Pipes.WriteReturnsUnread` gives the exact condition under which a write can still return in one of them.

## Model

| member | source | states |
|---|---|---|
| BlockCache.BlockCacheManager.GetBlockCache | easy-fs/src/block_cache.rs:139-169 | a lookup, with whatever load and eviction it causes, leaves the view (cached contents where present, device contents elsewhere) unchanged and hands out the block; it fails exactly when the queue is full of pinned entries and the block is absent |
| BlockCache.BlockCacheManager.Evict | easy-fs/src/block_cache.rs:147-159 | drops exactly the first unpinned entry from the front, keeps the view, and fails exactly when every entry is pinned |
| BlockCache.BlockCacheManager.Drop | easy-fs/src/block_cache.rs:120-124 | dropping an entry writes it back: the view is unchanged without it |
| BlockCache.BlockCacheManager.SyncEntry | easy-fs/src/block_cache.rs:111-117 | after a sync the device holds the cached block and no other device block changed |
| BlockCache.BlockCacheManager.Load | easy-fs/src/block_cache.rs:62-72 | a freshly loaded block equals the device and ids in the queue stay unique and at most 16 |
| BlockCache.BlockCacheManager.Modify | easy-fs/src/block_cache.rs:92-109 | changes the view at its own block only |
| BlockCache.BlockCacheManager.Read | easy-fs/src/block_cache.rs:103-105 | reading through a handle gives the view |
| BlockCache.BlockCacheManager.SyncAll | easy-fs/src/block_cache.rs:186-191 | afterwards the device equals the view |
| BlockCache.BlockCacheManager.HeldBound | easy-fs/src/block_cache.rs:147-159 | with fewer than 16 handles out the panic cannot be reached |
| Bitmaps.ComposeDecompose | easy-fs/src/bitmap.rs:14-18 | splitting a bit number into block, word and bit is a bijection |
| Bitmaps.FirstFreeWord | easy-fs/src/bitmap.rs:36-41 | finds the first word that is not all ones |
| Bitmaps.Alloc | easy-fs/src/bitmap.rs:28-54 | sets and returns the lowest clear bit of the whole bitmap and changes no other bit; None exactly when all are set |
| Bitmaps.Dealloc | easy-fs/src/bitmap.rs:56-64 | clears exactly the given bit |
| Bitmaps.SetBitChanges | easy-fs/src/bitmap.rs:42-44 | a word with one bit changed changes one bit of the bitmap, for every position |
| Bitmaps.BitPlace | easy-fs/src/bitmap.rs:13-18 | where on the disk each bit stands |
| Layout.DataSlotBlock | easy-fs/src/layout.rs:123-146 | the slot numbering used here agrees, level by level, with the direct, indirect and double-indirect lookup |
| Layout.ByteOfFile | easy-fs/src/layout.rs:123-145 | where on the disk each byte of a file stands, level by level |
| Layout.DataSlotFacts | easy-fs/src/layout.rs:103-122 | data block i of a file of n blocks occupies a slot below total_blocks(n) that is not an index slot |
| Layout.DataSlotInjective | easy-fs/src/layout.rs:123-146 | different file blocks never share a slot |
| Layout.FileFrame | easy-fs/src/layout.rs:294-332 | contents of a file depend on its inode and its own blocks only |
| DiskInodes.SlotsTotal | easy-fs/src/layout.rs:103-118 | the block count formula, split at the double-indirect boundary |
| DiskInodes.DiskInode.GetBlockId | easy-fs/src/layout.rs:123-146 | returns the block owned at the slot of that file block, without changing the disk |
| DiskInodes.DiskInode.IncreaseSize | easy-fs/src/layout.rs:147-218 | for every old and new size up to 16540 blocks: the blocks owned afterwards are the old ones in place followed by all supplied blocks in order, so none is lost or used twice, and only index blocks are written |
| DiskInodes.DiskInode.FillDirect | easy-fs/src/layout.rs:157-161 | the direct loop fills the next slots from the supplied blocks |
| DiskInodes.DiskInode.FillIndirect1 | easy-fs/src/layout.rs:172-180 | the indirect loop fills the next slots from the supplied blocks |
| DiskInodes.DiskInode.FillIndirect | easy-fs/src/layout.rs:162-217 | growth past the direct blocks fills every remaining slot, and leaves indirect2 alone when it is not needed |
| DiskInodes.DiskInode.FillDouble | easy-fs/src/layout.rs:181-217 | growth past the indirect block fills every remaining slot |
| DiskInodes.DiskInode.FillOne | easy-fs/src/layout.rs:201-215 | one round of the double-indirect loop fills the next data slot and, at a boundary, the next index slot |
| DiskInodes.DiskInode.FillIndirect2 | easy-fs/src/layout.rs:191-217 | the double-indirect loop uses up the supplied blocks exactly |
| DiskInodes.DiskInode.ClearSize | easy-fs/src/layout.rs:223-293 | returns every block the file owns once, in order, and leaves the inode freshly initialised |
| DiskInodes.DiskInode.ClearDirect | easy-fs/src/layout.rs:227-233 | collects the direct blocks and zeroes their slots |
| DiskInodes.DiskInode.ClearIndirect | easy-fs/src/layout.rs:234-291 | collects the indirect part, index blocks included |
| DiskInodes.DiskInode.ClearIndirect2 | easy-fs/src/layout.rs:260-290 | collects full second-level index blocks and then the partial one |
| DiskInodes.DiskInode.ReadAt | easy-fs/src/layout.rs:294-332 | the buffer receives exactly the file bytes at the offset, up to the end of either; the rest of it is untouched |
| DiskInodes.DiskInode.WriteAt | easy-fs/src/layout.rs:334-370 | file bytes in the range become the data, every other byte of the file and every block it does not own is unchanged; an empty write changes nothing |
| DiskInodes.DiskInode.WriteBlock | easy-fs/src/layout.rs:345-361 | splicing one block changes exactly those bytes of the file |
| Efs.GeoFacts | easy-fs/src/efs.rs:26-44 | for every valid size the five regions tile the disk and the data bitmap covers the data area, with at most one block of spare bits |
| Efs.LayoutExact | easy-fs/src/efs.rs:26-44 | in the 32-bit arithmetic of the source, for every 32-bit size and every number of inode bitmap blocks but zero: the computed regions tile the disk and the data bitmap covers the data area exactly for the valid sizes |
| Efs.LargestDisk | easy-fs/src/efs.rs:32-33 | the largest 32-bit disk is not a valid size: its rounding sum wraps around and no data bitmap block is set aside |
| Efs.InodePosIn | easy-fs/src/efs.rs:111-119 | every inode lies inside the inode area and inside one block |
| Efs.InodePosApart | easy-fs/src/efs.rs:111-119 | two inodes never overlap |
| Efs.StoreInodeAt | easy-fs/src/vfs.rs:33-43 | a stored inode is read back and every other inode is unchanged |
| Efs.InodeRoundTrip | easy-fs/src/layout.rs:71-90 | 128-byte encoding of an inode loses nothing |
| Efs.InodeOffsets | easy-fs/src/layout.rs:70-77 | where each field of an inode stands in its 128 bytes |
| Efs.SuperRoundTrip | easy-fs/src/efs.rs:81-101 | open recovers the geometry create wrote |
| Efs.SuperOffsets | easy-fs/src/layout.rs:16-24 | where each field of the super block stands |
| Efs.DirentRoundTrip | easy-fs/src/layout.rs:381-408 | name and inode number survive the 32-byte entry, for every name of at most 27 bytes without NUL |
| Efs.DirentOffsets | easy-fs/src/layout.rs:372-394 | the name stands first, filled up to 28 bytes, then the inode number |
| Efs.DirEntryAt | easy-fs/src/vfs.rs:50-59 | entry i of a directory file stands at its own 32 bytes |
| FsState.LowestIsFree | easy-fs/src/efs.rs:130-132 | while fewer bits are set than there are data blocks, the lowest clear bit belongs to a free block inside the data area, spare bits notwithstanding |
| FsState.LowestExact | easy-fs/src/efs.rs:130-132 | the lowest clear bit lies inside the data area exactly while fewer blocks are taken than there are data blocks; on a full disk the source hands out a block past the end |
| FsState.AllocStep | easy-fs/src/efs.rs:130-132 | taking a block keeps ownership exact and every file unchanged, and the block is zero |
| FsState.DeallocStep | easy-fs/src/efs.rs:134-146 | zeroing and freeing a block keeps ownership exact and every file unchanged |
| FsState.GrowContents | easy-fs/src/vfs.rs:77-92 | growing by zeroed blocks appends zero bytes to the contents |
| FsState.GrowStep | easy-fs/src/vfs.rs:77-92 | growth keeps the whole-disk invariant and every other file |
| FsState.ClearStep | easy-fs/src/vfs.rs:174-185 | clearing keeps the whole-disk invariant with the blocks pending |
| FsState.WriteStep | easy-fs/src/vfs.rs:164-172 | overwriting keeps the whole-disk invariant and splices the contents |
| FsState.AddInode | easy-fs/src/vfs.rs:105-114 | a new inode is the next one and disturbs no file |
| FsState.ReplaceFile | easy-fs/src/vfs.rs:77-92 | any regrouping of one file's own and pending blocks keeps bitmap, ownership and free-blocks-are-zero |
| FsState.EmptyDisk | easy-fs/src/efs.rs:46-64 | a zeroed disk with a super block satisfies the invariant |
| FsSpec.DirectoryIsCreationOrder | easy-fs/src/vfs.rs:94-157 | over any run names stay unique, the directory is the order of first creations and older entries keep their position |
| FsSpec.UntouchedFile | easy-fs/src/vfs.rs:159-185 | over any run a file changes only by writes and clears of it |
| FsSpec.WriteBytes | easy-fs/src/vfs.rs:164-172 | what a write leaves: its bytes in its range, zeros in a gap, old bytes elsewhere |
| FsSpec.ReadBack | easy-fs/src/vfs.rs:159-172 | reading what was just written returns it |
| FsSpec.ReadBytes | easy-fs/src/layout.rs:294-332 | a read returns the bytes of the file from its offset, as many as asked for and as there are |
| FsSpec.FilesFromCalls | easy-fs/src/vfs.rs:94-185 | after every run from the empty file system each file holds, byte by byte, the last write over that byte since the last clear, else zero, and is as long as the furthest write; new and cleared files are empty |
| FsSpec.LastWriteStays | easy-fs/src/vfs.rs:164-172 | the last write over a byte is what it holds, and the file reaches that far, as long as nobody clears it |
| FsSpec.UnwrittenIsZero | easy-fs/src/vfs.rs:174-185 | a byte nobody wrote since the last clear is zero, and a file nobody wrote is empty |
| FsSpec.SeenFromCalls | easy-fs/src/vfs.rs:62-185 | every result of every run is determined by the calls made before it, without any state |
| Vfs.EasyFileSystem.Format | easy-fs/src/efs.rs:20-79 | a formatted device is an empty file system with the computed geometry |
| Vfs.EasyFileSystem.Open | easy-fs/src/efs.rs:81-101 | mounting reads the geometry back and keeps the files that were there |
| Vfs.Remount | easy-fs/src/efs.rs:20-101 | format, any run, then the device alone mounted through an empty cache, then any further run: every result is what the calls of both runs, one after the other, call for |
| Vfs.EasyFileSystem.AllocData | easy-fs/src/efs.rs:130-132 | returns a zeroed free data block and marks it |
| Vfs.EasyFileSystem.DeallocData | easy-fs/src/efs.rs:134-146 | frees a block; the assertion in Bitmap::dealloc cannot fail |
| Vfs.EasyFileSystem.IncreaseSize | easy-fs/src/vfs.rs:77-92 | pads the file with zeros to the new size, other files unchanged |
| Vfs.EasyFileSystem.WriteAt | easy-fs/src/vfs.rs:164-172 | the named file becomes the abstract write result, everything else is unchanged, the full length is returned |
| Vfs.EasyFileSystem.ReadAt | easy-fs/src/vfs.rs:159-162 | returns the bytes of the abstract file |
| Vfs.EasyFileSystem.Clear | easy-fs/src/vfs.rs:174-185 | the file becomes empty and its blocks are free |
| Vfs.EasyFileSystem.FindInodeId | easy-fs/src/vfs.rs:45-60 | finds the entry of a name, and None exactly for unknown names |
| Vfs.EasyFileSystem.Find | easy-fs/src/vfs.rs:62-75 | the inode allocated when the name was created; None exactly for unknown names |
| Vfs.EasyFileSystem.Create | easy-fs/src/vfs.rs:94-140 | a new name gets the next inode and an empty file; an existing name returns None and changes nothing |
| Vfs.EasyFileSystem.CreateNew | easy-fs/src/vfs.rs:105-138 | inode, directory entry and empty contents of a new name, everything else unchanged |
| Vfs.EasyFileSystem.Ls | easy-fs/src/vfs.rs:142-157 | the names in creation order |
| Vfs.EasyFileSystem.AppendDirent | easy-fs/src/vfs.rs:115-128 | the directory file grows by one entry, older entries kept across block boundaries |
| Vfs.EasyFileSystem.Execute | easy-fs/src/vfs.rs:62-185 | every run of create, find, list, write, read and clear shows and leaves what the abstract run does on a sequence of names and byte sequences, with block ownership conserved and the device holding all of it |
| Vfs.UsedIsOwned | easy-fs/src/layout.rs:103-122 | blocks in use are exactly those the file sizes call for |
| Sv39.PteRoundTrip | os/src/mm/page_table.rs:43-69 | packing a frame number and flags loses nothing |
| Sv39.EntryBits | os/src/mm/page_table.rs:24-70 | in an entry made from permissions, readable, writable and user are bits 1, 2 and 4 of those permissions, and it is valid |
| Sv39.FlagBits | os/src/mm/page_table.rs:24-36 | V, R, W and U are bits 0, 1, 2 and 4 |
| Sv39.Indexes | os/src/mm/address.rs:158-168 | the shrinking-number loop yields the three 9-bit indexes, root first |
| Sv39.IndexInjective | os/src/mm/address.rs:158-168 | 27-bit page numbers are told apart by their indexes |
| Frames.Machine.constructor | os/src/mm/frame_allocator.rs:48-60 | the initial allocator owns the range and nothing is live |
| Frames.Machine.Alloc | os/src/mm/frame_allocator.rs:62-71 | hands out a frame that was not live, zeroed; None exactly when none is left |
| Frames.Machine.Dealloc | os/src/mm/frame_allocator.rs:72-81 | exactly that frame stops being live |
| Frames.Machine.Execute | os/src/mm/frame_allocator.rs:12-81 | over any run of taking frames and dropping held ones: the frames in use are exactly the held ones, each once; every frame of the range is in use, recycled or untouched and in only one of these; none is lost, and taking fails only when the whole range is held |
| PageTables.WalkIsLookup | os/src/mm/page_table.rs:112-128 | the three-level walk finds exactly what the tree of table frames holds |
| PageTables.WalkMeans | os/src/mm/page_table.rs:112-128 | the walk stated on the bytes of memory: which entry of which table is read at each level, and when it ends |
| PageTables.PageTable.constructor | os/src/mm/page_table.rs:79-85 | a new table maps nothing and owns one fresh frame |
| PageTables.PageTable.FindPteCreate | os/src/mm/page_table.rs:93-111 | creates only missing tables, from fresh frames, and changes no mapping |
| PageTables.PageTable.Map | os/src/mm/page_table.rs:130-134 | the partial map changes at one page only, whatever tables had to be created; table frames stay distinct and no other frame is written |
| PageTables.PageTable.Unmap | os/src/mm/page_table.rs:136-140 | the partial map loses one page, nothing else changes |
| PageTables.PageTable.TranslateVpn | os/src/mm/page_table.rs:141-143 | a valid entry is returned exactly for mapped pages and is the mapped one; an unmapped page may give an empty entry |
| PageTables.PageTable.Execute | os/src/mm/page_table.rs:93-143 | over any run of legal map and unmap calls the radix tree represents the partial map those calls describe |
| PageTables.AddMid | os/src/mm/page_table.rs:93-111 | linking a zeroed second-level table changes no lookup and keeps the tables a tree |
| PageTables.AddLeaf | os/src/mm/page_table.rs:93-111 | linking a zeroed third-level table changes no lookup and keeps the tables a tree |
| PageTables.SetLeaf | os/src/mm/page_table.rs:130-140 | storing a last-level entry changes the lookup of exactly one page |
| UserAccess.CheckUserRange | os/src/mm/page_table.rs:167-200 | accepts exactly the ranges below the user limit whose every page has U and the needed R or W |
| MemorySets.CheckRange | os/src/mm/page_table.rs:167-200 | the same check on any space, in terms of its areas alone: a range is accepted exactly if it is empty, or lies below 2^38 and every page is in an area that grants the access |
| MemorySets.GrantedBits | os/src/mm/memory_set.rs:313-327 | on a page of an area, writing is granted exactly with permission bits 4 and 2, reading exactly with bits 4 and 1 |
| MemorySets.AreaAccess | os/src/mm/page_table.rs:167-200 | every range inside an area is accepted for writing exactly with bits 4 and 2 of its permissions, for reading exactly with bits 4 and 1 |
| UserAccess.PageOkIsMapped | os/src/mm/page_table.rs:180-194 | on tables built by map and unmap an accepted page is a valid mapping, although V is not looked at |
| UserAccess.TryTranslatedByteBuffer | os/src/mm/page_table.rs:207-236 | segments are returned exactly for accepted ranges, are non-empty and concatenate to the bytes of the range in order |
| UserAccess.TryTranslatedStr | os/src/mm/page_table.rs:243-280 | returns the NUL-terminated string that is there, and None exactly when there is none within the limits |
| UserAccess.CopyToUser | os/src/mm/user_access.rs:34-51 | stores the value at the translated bytes in order; on any error nothing is written |
| UserAccess.CopyFromUser | os/src/mm/user_access.rs:12-31 | returns the bytes at the translated places in order, with the same error conditions |
| UserAccess.ShortRangeDistinct | os/src/mm/page_table.rs:207-236 | ranges of at most a page never alias themselves, even on a table where two pages share a frame |
| UserAccess.UserBufferIterator.Next | os/src/mm/page_table.rs:352-386 | yields the bytes of the buffers one by one in order and then ends |
| MemorySets.MemorySet.MapOne | os/src/mm/memory_set.rs:313-327 | maps one page to a fresh frame and that frame is zero |
| MemorySets.MemorySet.UnmapOne | os/src/mm/memory_set.rs:328-333 | gives the frame back and unmaps the page; no other page or frame is affected |
| MemorySets.MemorySet.Push | os/src/mm/memory_set.rs:74-80 | adds an area of fresh zeroed frames disjoint from every live frame; other mappings and bytes are unchanged |
| MemorySets.MemorySet.RemoveArea | os/src/mm/memory_set.rs:63-73 | removes the first area with that start, returns exactly its frames and leaves every other mapping; no area, no change |
| MemorySets.MemorySet.PushAndRemove | os/src/mm/memory_set.rs:52-80 | adding an area and removing the one that starts there restores areas, pages, frames and mappings, unless an older empty area starts there too |
| MemorySets.MemorySet.MapTrampoline | os/src/mm/memory_set.rs:82-88 | maps the last page without the user flag |
| MemorySets.MemorySet.FromExistedUser | os/src/mm/memory_set.rs:247-265 | the copy has the parent's pages, permissions and bytes on frames none of which was live, nothing that was live has changed, and no other frame became live |
| MemorySets.MemorySet.CopyPages | os/src/mm/memory_set.rs:255-262 | the copied pages hold the parent's bytes; only frames of the copy are written |
| MemorySets.CopyAccess | os/src/mm/memory_set.rs:247-265 | a full copy lets its process access exactly the ranges the original lets its own |
| MemorySets.SpaceIsBacked | os/src/mm/page_table.rs:243-280 | every user page of a space is backed by existing memory |
| MemorySets.UserRangeIsData | os/src/mm/page_table.rs:167-200 | an accepted range is backed by data frames of its own space, never by table frames |
| MemorySets.RangeDistinct | os/src/mm/page_table.rs:207-236 | no two bytes of an accepted range of a space share a place, however many pages it spans |
| MemorySets.CopyOut | os/src/mm/user_access.rs:34-51 | through any space the whole value is stored or nothing is, errors exactly as the range check says, only data frames of that space are written and translations are as before |
| MemorySets.CopyIn | os/src/mm/user_access.rs:12-31 | through any space the bytes of the range in order, with the same error conditions |
| MemorySets.CopyOutAndIn | os/src/mm/user_access.rs:12-51 | what is copied out through a space is copied back in, over any number of pages, whenever the range may be written and read |
| MemorySets.StringOutAndIn | os/src/mm/page_table.rs:243-280 | a string and its terminator, copied out through a space, are read back as that string |
| MemorySets.Interleave | os/src/mm/memory_set.rs:247-265 | under any interleaving of writes by two processes that share no frame both spaces stay valid and each sees exactly what it would see without the other's writes |
| MemorySets.ForkAndWrite | os/src/mm/memory_set.rs:247-265 | at a fork the child's pages hold the parent's bytes and the parent is untouched; whatever the two write afterwards, each sees its own writes only |
| PageTables.PageTable.Drop | os/src/mm/page_table.rs:72-75 | dropping a table returns exactly its frames |
| MemorySets.MemorySet.RecycleDataPages | os/src/mm/memory_set.rs:276-279 | returns exactly the data frames of the space; the tables stay valid |
| MemorySets.MemorySet.Drop | os/src/mm/memory_set.rs:36-39 | dropping a space returns exactly the frames it owns |
| MemorySets.ForkAndDrop | os/src/mm/memory_set.rs:247-279 | a fork whose child is dropped again leaves the frames in use exactly as before, none lost and none returned twice, with the parent intact |
| Audit.AuditRing.Push | os/src/security/audit.rs:327-350 | the ring holds exactly the last min(n,256) events of the history extended by the event with the next sequence number; nothing is accepted once numbers are exhausted |
| Audit.AuditRing.PushAll | os/src/security/audit.rs:327-350 | the same for any number of events |
| Audit.AuditRing.FirstSequence | os/src/security/audit.rs:353-359 | the sequence number of the oldest event kept |
| Audit.AuditRing.Snapshot | os/src/security/audit.rs:362-389 | the first min(capacity,32) kept events past the cursor, flagged exactly when the next wanted event was overwritten |
| Audit.VisibleMeans | os/src/security/audit.rs:362-389 | a batch is a row of the history: the first events past the cursor among the latest 256, as many as there are up to the capacity and 32, flagged exactly when wanted events are gone |
| Audit.AuditRing.Stats | os/src/security/audit.rs:392-403 | total = successful + failed = retained + overwritten = next sequence - 1 |
| Audit.AppendAllExtends | os/src/security/audit.rs:327-350 | a history only grows and stays numbered from 1 without gaps |
| AuditSyscalls.FinishControlCall | os/src/syscall/security.rs:52-66 | a failed control call leaves one event whose error number is the negated return value, with the caller, the operation and the amount each in its field; a successful one leaves none |
| AuditSyscalls.OutputRange | os/src/syscall/security.rs:39-49 | an output range is accepted exactly if it does not overflow and is not null unless empty |
| AuditLayout.RecordRoundTrip | os/src/security/audit.rs:34-53 | the 80-byte layout of a record loses nothing |
| AuditLayout.RecordOffsets | os/src/security/audit.rs:34-53 | where each field of a record stands in its 80 bytes |
| AuditLayout.FlatRoundTrip | user/src/audit.rs:129-131 | in an array of records the i-th 80 bytes decode to record i, for any number of records |
| AuditLayout.StatsRoundTrip | os/src/security/audit.rs:56-71 | the 80-byte layout of the counters loses nothing and carries version 1 and size 80 |
| AuditLayout.StatsOffsets | os/src/security/audit.rs:56-71 | where each counter stands in its 80 bytes |
| AuditLayout.RecordedFits | os/src/security/audit.rs:145-203 | every event a request or a failed audit call leaves fits the layout, with a non-negative error number, zero exactly for a success |
| AuditLayout.ShownFits | os/src/security/audit.rs:362-389 | every record shown from a log of such events fits its 80 bytes, sequence number included |
| AuditSyscalls.CopyRecords | os/src/syscall/security.rs:112-118 | records are copied through the caller's space up to the first place that cannot be written; the memory is exactly the encoded prefix and only data frames of the caller change |
| AuditSyscalls.ReadRecords | os/src/syscall/security.rs:87-122 | on success the caller's array holds exactly the encoded visible records; each error exactly when the source says |
| AuditSyscalls.SysAuditRead | os/src/syscall/security.rs:72-85 | the whole call on ring and user memory: the records and no event, or one error and one event; succeeds exactly when permitted and writable, and no memory of another process is touched |
| AuditSyscalls.ReadStats | os/src/syscall/security.rs:133-152 | the caller's 80 bytes hold the counters the whole history calls for, or an error: permission before arguments before address, each exactly when the source says |
| AuditSyscalls.SysIpcStat | os/src/syscall/security.rs:127-131 | the whole call on ring and user memory: the counters and no event, or one error and one event |
| AuditPaging.ReadIsHonest | user/src/bin/auditctl.rs:137-153 | what the program decodes from its array after a read is what the log shows at its cursor |
| AuditPaging.StatIsHonest | user/src/bin/auditctl.rs:52-79 | what it decodes after the statistics call passes its own checks and gives the end of the log |
| AuditPaging.ServeStat | user/src/bin/auditctl.rs:52-79 | the statistics call into its memory is honest, and succeeds exactly when permitted and writable |
| AuditPaging.ServeRead | user/src/bin/auditctl.rs:137-153 | after any events of others, the read call into its memory is honest for the log at that moment, and a successful call adds nothing to the log |
| AuditPaging.ReadFromRing | user/src/bin/auditctl.rs:126-194 | the reader on the ring of this kernel and with its buffers in its own memory, any events recorded between its calls: strictly increasing originals, on exit 0 everything up to the initial end shown or in a really lost reported gap, no event of its own; exit 0 whenever it may audit and its buffers can be written; no memory of another process touched |
| AuditReader.Validate | user/src/bin/auditctl.rs:154-170 | accepts a batch exactly when every record has the right layout and a non-negative error number, sequence numbers increase past the cursor and only the first may carry the gap flag |
| AuditReader.ShowBatch | user/src/bin/auditctl.rs:172-186 | shows a prefix of the batch inside the interval, reports its gap, and stops at the first record past the end |
| AuditReader.Consume | user/src/bin/auditctl.rs:137-188 | one round of the loop: whatever the answer, the cursor only advances and records stay increasing; for an answer of the log nothing of it is missed or invented, and only a failed call fails |
| AuditReader.HonestBatch | os/src/security/audit.rs:362-389 | a batch from the log is a run of consecutive originals, right after the cursor or flagged |
| AuditReader.Advance | user/src/bin/auditctl.rs:137-188 | one more batch leaves no event of the interval unaccounted for |
| AuditReader.ReadRecords | user/src/bin/auditctl.rs:126-194 | with arbitrary events arriving between calls the reader terminates and shows strictly increasing original records in (cursor, through]; on exit 0 every sequence in that interval was shown or lies in a reported gap whose events are really lost |
| Pipes.PipeRingBuffer.constructor | os/src/fs/pipe.rs:60-68 | a new ring is empty |
| Pipes.PipeRingBuffer.WriteByte | os/src/fs/pipe.rs:72-79 | appends one byte to the queue the ring stands for |
| Pipes.PipeRingBuffer.ReadByte | os/src/fs/pipe.rs:80-88 | removes the oldest byte of that queue |
| Pipes.PipeRingBuffer.AvailableRead | os/src/fs/pipe.rs:89-97 | the length of the queue, whichever of head and tail is larger |
| Pipes.PipeRingBuffer.AvailableWrite | os/src/fs/pipe.rs:98-104 | 32 minus the length of the queue |
| Pipes.ReadTurn | os/src/fs/pipe.rs:145-175 | a blocking read from one suspension to the next: it takes as many bytes as are wanted and available, in order, and returns exactly when it has all it wants from a ring that held something, or every write end is closed |
| Pipes.WriteTurn | os/src/fs/pipe.rs:176-202 | a blocking write from one suspension to the next: as many bytes as fit, returning exactly when all are in and the ring was not full |
| Pipes.EveryScheduleKeepsStream | os/src/fs/pipe.rs:145-202 | under every interleaving of any number of readers, writers, duplications and closes: delivered bytes followed by buffered bytes equal accepted bytes, each call's share is in its own order, a returned write was accepted whole and a short read means end of file |
| Pipes.ShortReadIsEndOfFile | os/src/fs/pipe.rs:145-175 | a short read means as many closes of write ends as one plus the duplications in the schedule, every write of the schedule completed and every byte delivered |
| Pipes.WriteEndsCounted | os/src/fs/pipe.rs:105-107 | after every schedule the write ends are those at the start plus the duplications minus the closes |
| Pipes.CallsAsStarted | os/src/fs/pipe.rs:145-200 | after every schedule the calls are the ones started, each with the length or data it was started with |
| Pipes.ReadGoesOn | os/src/fs/pipe.rs:145-175 | a read goes on until it returns or the ring is empty, returns only with data in the ring or at end of file, and touches nothing else |
| Pipes.WriteGoesOn | os/src/fs/pipe.rs:176-200 | a write goes on until it returns or the ring is full, and touches nothing else |
| Pipes.WriteReturnsUnread | os/src/fs/pipe.rs:176-202 | a write can return although nobody reads, by some schedule of everything else, if and only if what is left of it fits in the ring and the ring is not full |
| Pipes.LongWriteWaits | os/src/fs/pipe.rs:176-202 | a first write of 33 bytes never returns as long as nobody reads |
| Pipes.Execute | os/src/fs/pipe.rs:59-202 | running a schedule on the real ring ends in the state of the interleaving machine |
| Quota.FirstFree | os/src/task/task.rs:61-68 | the lowest empty slot |
| Quota.QuotaState.ReservePipeFds | os/src/security/quota.rs:91-114 | charges both counters or neither, file limit first |
| Quota.QuotaState.ReserveDupFd | os/src/security/quota.rs:151-161 | charges as the source descriptor's kind demands and reports the kind |
| Quota.QuotaState.ReleaseFd | os/src/security/quota.rs:178-192 | releases one descriptor and, for a pipe end, its pipe charge and mark |
| Quota.InstallBalanced | os/src/security/quota.rs:64-136 | installing a charged file in the lowest slot keeps counters, bitmap, limits and table in agreement, with a descriptor below 32 |
| Quota.RemoveBalanced | os/src/security/quota.rs:178-192 | removing an open file keeps the agreement |
| Quota.UndoInstall | os/src/syscall/fs.rs:256-266 | taking back two installed ends restores every slot |
| Quota.MaskCount | os/src/security/quota.rs:125-145 | the number of set bits of the bitmap is the number of pipe slots |
| Ledger.Reserve | os/src/security/quota.rs:218-235 | a pipe creation is charged two ends or refused unchanged; other requests charge nothing |
| Ledger.Finish | os/src/security/quota.rs:241-252 | success keeps the charge, failure restores the counters |
| Ledger.Preflight | os/src/security/mod.rs:48-66 | a refusal leaves the quota as it was and exactly one event with its error; a permit leaves none |
| Ledger.Complete | os/src/security/mod.rs:69-77 | exactly one event with the outcome; a failure restores the quota |
| Ledger.Process.AllocFd | os/src/task/task.rs:61-68 | the lowest free descriptor, growing the table only when there is none |
| Ledger.Process.ForkFrom | os/src/task/task.rs:198-222 | the child has the parent's files, credentials and usage |
| Ledger.Process.SysOpen | os/src/syscall/fs.rs:142-166 | decided by counting occupied slots; success installs in the lowest slot, every failure leaves table and usage |
| Ledger.Process.SysClose | os/src/syscall/fs.rs:168-184 | empties an open slot, else -1 and no change |
| Ledger.Process.SysDup | os/src/syscall/fs.rs:276-303 | decided by counting slots of the right kind; success installs the same file in the lowest slot |
| Ledger.Process.SysPipe | os/src/syscall/fs.rs:186-274 | on every path one event agreeing with the returned code; both ends installed, or the quota exactly restored and every slot as before |
| Ledger.Process.SysTransfer | os/src/syscall/fs.rs:8-128 | a read or write up to blocking: no event without a pipe request, one event when a pipe request ends at once |
| Ledger.Process.FinishTransfer | os/src/syscall/fs.rs:61-66 | the one event of a transfer that blocked: no error, the byte count returned as its result, and the caller, the pipe, its owner and the amount asked for each in its field |
| Ledger.Process.SysKill | os/src/syscall/process.rs:137-197 | no event for a bad signal or unknown process; otherwise one event agreeing with the returned code, and the signal is added exactly on success |
| Ledger.LedgerAgrees | os/src/security/quota.rs:18-35 | between calls: open_files is the number of occupied slots, open_pipes the number of set bits, the bits are exactly the pipe slots, and both limits hold |
| Ledger.System.Execute | os/src/syscall/fs.rs:8-303 | any run of calls by any processes, forks included, returns what the description without counters, bitmaps and reservations says and ends exactly where it says |
| SecuritySpec.RequestDecides | os/src/security/mod.rs:48-83 | the event's outcome is what the call returns, and a failed request leaves every open file in place |
| SecurityLaws.EventLaw | os/src/security/audit.rs:145-175 | after every call: an event exactly when a request completed, with the next number and the time; its error number and result agree with the returned value, and caller, object, owner, operation and amount each stand in their field |
| SecurityLaws.HeldCounts | os/src/security/quota.rs:18-35 | the count the limits are checked against is the size of the set of open descriptors |
| SecurityLaws.OpenLaw | os/src/syscall/fs.rs:142-166 | which of -14, -22, -1 and -24 when; else the lowest closed descriptor, and no other changes |
| SecurityLaws.CloseLaw | os/src/syscall/fs.rs:168-184 | closes exactly an open descriptor, else -1 |
| SecurityLaws.DupLaw | os/src/syscall/fs.rs:276-303 | which of -1, -24 and -28 when; else the lowest closed descriptor refers to the same file |
| SecurityLaws.MakePipeLaw | os/src/syscall/fs.rs:186-274 | which of -24, -28 and -14 when; else the two lowest closed descriptors are the read end and the write end of a new pipe of the caller; after a failure every descriptor is as it was |
| SecurityLaws.TransferLaw | os/src/syscall/fs.rs:8-128 | which of -1, -14, 0 and the byte count when; a pipe blocks with the request it will report |
| SecurityLaws.FinishLaw | os/src/syscall/fs.rs:61-66 | a blocked transfer returns its byte count and unblocks its process, nothing else |
| SecurityLaws.KillLaw | os/src/syscall/process.rs:137-197 | which of -22, -3, -1, -11 and 0 when, on pids, user ids and capabilities; the signal becomes pending exactly on 0 |
| SecurityLaws.TakeSignalLaw | os/src/task/mod.rs:136-185 | taking up a signal removes it from the pending ones of that process alone |
| SecurityLaws.SetUidLaw | os/src/syscall/process.rs:288-308 | only root changes its user id; who stops being root keeps no capability |
| SecurityLaws.ForkLaw | os/src/task/task.rs:198-222 | the child has the parent's files and identity under its own pid, and no signals |
| SecurityLaws.ExitLaw | os/src/task/mod.rs:71-97 | an exit removes that process alone |
| SecurityLaws.InitialLaw | os/src/task/task.rs:86-117 | the first process: root with every capability, a console to read from and two to write to, no pipe made and nothing logged |
| SecurityLaws.OthersLaw | os/src/syscall/fs.rs:8-303 | a call leaves every other process alone but for the target of a signal and the child of a fork |
| SecuritySpec.StepKeeps | os/src/security/mod.rs:48-83 | every call appends one event if it completes a request and none otherwise, until numbers are exhausted |
| SecuritySpec.EveryRunKeeps | os/src/security/mod.rs:48-83 | over every run: as many events as completed requests; only allowed signals are reported delivered; a process that left root has no capability; pipe identifiers in tables were all handed out before |
| SecuritySpec.SignalsBalance | os/src/task/mod.rs:136-185 | over every run in which a process does not exit, each signal was delivered to it as often as it was taken up, and once more if it is still pending |
| Ledger.Process.TakeSignal | os/src/task/mod.rs:136-185 | taking up a signal removes it from the pending ones and changes nothing else |
| Lifecycle.StacksApart | os/src/task/pid.rs:57-61 | kernel stacks of different pids are disjoint with a guard page between |
| Lifecycle.StackInMemory | os/src/task/pid.rs:57-61 | no stack address wraps around exactly for pids up to 1501199875790164 |
| Lifecycle.VirtRoundTrip | os/src/mm/address.rs:64-92 | cutting an address to 39 bits and extending it again loses nothing exactly for the lowest and highest 2^38 addresses |
| Lifecycle.StackCanonical | os/src/task/pid.rs:57-61 | all addresses of a stack are of that kind exactly for pids up to 22369620 |
| Lifecycle.OwnPagesExact | os/src/task/pid.rs:57-61 | in 39-bit addresses every pid up to n has a stack of its own below the trampoline exactly for n up to 44739241; the next stack would start on the page of the trampoline |
| Lifecycle.Kernel.constructor | os/src/task/mod.rs:104-114 | the first process, pid 1, ready to run |
| Lifecycle.Kernel.Fork | os/src/task/task.rs:185-243 | a child under a pid no process has and a stack that meets no mapped one, listed by its parent and ready |
| Lifecycle.Kernel.Suspend | os/src/task/mod.rs:29-45 | the running process goes to the back of the ready queue; the pid map is unchanged |
| Lifecycle.Kernel.Dispatch | os/src/task/processor.rs:36-55 | the oldest ready process runs; there always is one |
| Lifecycle.Kernel.Exit | os/src/task/mod.rs:51-102 | the first process shuts the machine down; any other becomes a zombie and its children move, in order, under the first |
| Lifecycle.Kernel.AdoptChildren | os/src/task/mod.rs:81-87 | the reparenting loop |
| Lifecycle.Kernel.Waitpid | os/src/syscall/process.rs:98-135 | with a pid: that child or -1 exactly when no child has it; with -1: -1 exactly without children and -2 exactly when none has exited; -14 exactly when the copy fails; a returned pid is of an exited child, with its exit code, and the child is gone |
| Lifecycle.MatchMeans | os/src/syscall/process.rs:104-116 | which children an argument matches, for every 64-bit argument |
| Lifecycle.WaitReportsExit | os/src/task/mod.rs:71-78 | over every run, an exit code waitpid reports was given to an earlier exit of the process with the reported pid |
| Lifecycle.Kernel.Execute | os/src/task/mod.rs:29-102 | every run of fork, suspend, dispatch, exit and waitpid returns and leaves what those operations describe, with the whole invariant |
| Lifecycle.TaskPlaces | os/src/task/manager.rs:33-54 | a process that has not exited is in the pid map and in exactly one of ready queue and processor; every process but the first is in exactly one children list, its parent's, once; an exited one has one strong reference |
| Lifecycle.ZombieHasOneOwner | os/src/syscall/process.rs:127-129 | the reference count asserted in waitpid is 1 in every reachable state |
| Lifecycle.TasksApart | os/src/task/pid.rs:57-61 | unreaped processes have different pids and disjoint kernel stacks |
| Lifecycle.NeverIdle | os/src/task/processor.rs:36-55 | with no process running the ready queue is not empty |
| Lifecycle.Ancestor | os/src/task/mod.rs:80-90 | following parent links from any process up to one without a parent always ends at the first process |
| Lifecycle.ExitFamily | os/src/task/mod.rs:80-90 | reparenting keeps children lists and parent links in agreement |
| Lifecycle.ForkPids | os/src/task/pid.rs:19-26 | pids in use and recycled pids keep partitioning the pids handed out so far |
| Lifecycle.ReapPids | os/src/task/pid.rs:27-35 | returning a pid keeps that partition and meets the allocator's assertions |

## Left out

- DiskInodes.DiskInode.WriteAt: an empty write whose offset is not in a block of the file is excluded; the source then indexes a block that is not allocated, and no system call issues it.
- Vfs.EasyFileSystem.WriteAt: the same exclusion, after the growth the write causes.
- Vfs.EasyFileSystem.Execute: writes are within 16540 blocks, u32 sizes, valid names and the free space of the disk, the limits the source panics or truncates beyond; the root directory is written through create only.
- Vfs.EasyFileSystem.Format: valid sizes only; `Efs.LayoutExact` shows that for every other size the computed regions are no layout, in a debug build because the arithmetic panics.
- FsState.LowestExact: what happens after a block past the end was handed out is not modelled.
- Vfs.EasyFileSystem.Find: handles are inode numbers instead of shared objects.
- DiskInodes.DiskInode.ClearSize: read-only closures that still set the modified flag are modelled as reads, so an extra write-back of unchanged data is not modelled.
- BlockCache.BlockCacheManager.GetBlockCache: one device only, as lookup is by block id alone.
- UserAccess.CopyToUser: the frames behind an accepted range are required to exist in memory; `MemorySets.CopyOut` is the same call on any space, without that condition.
- UserAccess.CopyFromUser: the same condition, dropped in `MemorySets.CopyIn`.
- UserAccess.TryTranslatedStr: user pages are required to be backed by memory, which `MemorySets.SpaceIsBacked` shows for every space; the string is its bytes.
- AuditPaging.ReadFromRing: the events of others are any that fit the layout, which `AuditLayout.RecordedFits` shows of every event the kernel records; while the reader runs, its own address space is changed by its calls only.
- PageTables.PageTable.FindPteCreate: the walk loop over three levels is unrolled.
- MemorySets.MemorySet.Push: framed areas only, and an area is a value inside the space's list; identity mapping, `copy_data`, `new_kernel` and `from_elf` are not modelled.
- Lifecycle.Kernel.Fork: task control blocks are entries of an arena and a reference is an index that is never reused; contents of address spaces and trap contexts are not part of this component.
- Lifecycle.Kernel.Exit: shutting down is a flag after which nothing happens.
- Lifecycle.StacksApart: addresses are integers; `Lifecycle.StackInMemory`, `Lifecycle.StackCanonical` and `Lifecycle.OwnPagesExact` say for which pids 64-bit and 39-bit addresses behave like them.
- Ledger.Process.SysTransfer: reads and writes differ only in the flag and the right they check; the transfer itself is the pipe component's.
- AuditReader.ReadRecords: output lines are the returned records and gaps; argument parsing and error-name printing are not modelled.
- Ledger.Process.TakeSignal: which pending signal is taken up, and when, is part of the run; masks, handlers, sigreturn, frozen and killed processes are not modelled.
- exec and ELF loading, the kernel address space, trap handling and context switching.
- Devices, SBI, timer, console, heap allocator and raw memory access.
- User programs other than `auditctl`, the shell and test binaries.
- Multi-core execution: steps of processes interleave only where the source suspends.
