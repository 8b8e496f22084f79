# Oops-OS kernel cores, modelled and proved in Dafny

This project models the parts of the Oops-OS kernel (a descendant of xv6 for RISC-V) whose
correctness is not visible from any one function, and two of its user programs, and proves what
they are for. `dafny verify dfyconfig.toml` checks everything.

## What is modelled

- **Copy-on-write files.** `Layout` gives blocks as words and as bytes. `BlockMap` describes the
  three-level block map of an inode, what the slots point at, and how allocation, copying,
  sharing and cutting change pointers, contents and reference counts. `FileSystem` has the
  operations of `fs.c` as methods on the disk, the bitmap, the counts, the allocation hint and
  the in-core and on-disk inodes. `FileArrays` proves that any run of them behaves like files
  that are independent byte arrays. Running out of blocks, a panic in the source, is the result
  `None`; the panics over reference counts and the bitmap are preconditions that every caller
  meets; the log is taken to have room for what an operation logs.
- **Redo log and buffer cache.** `CrashLog` lets power fail between any two disk writes of commit
  and of recovery. `Transactions` has the reservation of log space by `begin_op`, `LogDemand` what a
  whole-file clone asks of it. `BufferCache` has the hashed clock cache with pinning and proves it,
  with the log on top, to be a plain block store, and one that recovery after a power failure at any
  disk write gives back as it was after some of the operations.
- **Copy-on-write fork and page tables.** `PageTable` proves the Sv39 radix tree (section 4.4 of
  the RISC-V Privileged Architecture, version 20211203) to be a flat map from page number to
  entry. On such maps `CowFork` proves that sharing pages on fork cannot be told from copying
  them, and needs no more memory.
- **Banker's algorithm, monitors, scheduling.** `Banker` proves the greedy check exact and safety
  an invariant of all runs. `Monitors` proves deadlock detection exact, and over all runs the
  wait-for graph acyclic and no wake-up lost. `Mlfq` proves bounded waiting.
- **User programs.** `Umalloc` is the storage allocator of section 8.7 of Kernighan and Ritchie's
  book, over header-sized units. `Grep` is the pattern matcher against a declarative reading of
  patterns.

Locked sections are atomic steps, user-memory copies succeed, and the outcome of things outside
the model (a failing `sbrk`, a missing page-table page, power failing) is a parameter.

## What the code does not keep

Some properties one would expect turn out to hold only under a condition, which is proved exact:

- `begin_op` admits an operation when MAXOPBLOCKS more blocks for each one under way would fit, and
  commits only when none is. Operations that log up to m different blocks can so bring the list to
  `MAXOPBLOCKS + 2m` blocks, and `log_write` panics at a full list even for a block that is in it.
  All runs go through if and only if that peak is below LOGSIZE and below the area less its header
  (`Transactions.ReservationSound`): with the area mkfs lays out, up to nine blocks
  (`Transactions.MkfsArea`); with the full share of ten, in no area
  (`Transactions.NoAreaForFullShare`). A larger area is no remedy by itself: with more than NBUF
  blocks the pinned buffers can use up the cache (`BufferCache.FullLogStops`).
- `iclone` runs as one operation but logs a block for each address block of the source, the bitmap
  blocks with their bits, and last the inode's block. Its `log_write` calls go through if and only
  if what is in the list already, with those blocks and bitmap blocks, is below the log's capacity
  (`LogDemand.CloneFits`); alone in the log, if and only if the number of address blocks plus that
  of bitmap blocks is (`LogDemand.CloneFitsAlone`). Which blocks `balloc` takes follows from the
  bitmap and the hint before the call. A caller that knows only the number k of address blocks: k
  plus the smaller of k and the size of the bitmap below the capacity is enough, k + 1 at the
  capacity, about 7 MB, is too much (`LogDemand.CloneForesight`). `LogDemand.TooLargeToClone` is a
  file that cannot be cloned whatever the log area.
- `malloc` passes the number of bytes to `sbrk` as an int, and the kernel returns the old break as
  one. A request that is answered keeps the heap in order if and only if neither conversion changes
  the value, that is for less than 2^31 bytes and a break below 2^31 (`Umalloc.Heap.Malloc`,
  `Umalloc.AstrayMeans`). So a run goes through when all gaps and grants together leave the break
  below 2^31 (`Umalloc.Run`); `Umalloc.HugeRequest` is an input that hands out one block inside another.
- `banker_set_max` by a process that already holds resources can make a safe state unsafe. An
  accepted claim keeps safety if and only if other processes can finish first and free enough for
  it (`Banker.ClaimSafe`, `Banker.ClaimCanLoseSafety`); a process that holds nothing is always in
  that case (`Banker.FirstClaimYields`).
- `mon_enter` checks for deadlock and goes to sleep under the monitor's own lock only. Blocking
  keeps the wait-for graph acyclic if and only if the check would answer no at the moment of
  blocking (`Monitors.BlockKeeps`); acting on an answer that another processor has made stale can
  close a cycle (`Monitors.StaleCheckClosesCycle`). The runs of `Monitors.Run` take check and
  sleep as one step, as on one processor.

Also as the code has it: bytes past the end of the last kept block are not cleared by a shrinking
truncation; `iclone_range` that returns -1 half way leaves the in-core inode ahead of the one on
disk, so consistency with the disk is claimed on success only.

## Model

| member | source | states |
|---|---|---|
| FileArrays.Run | kernel/filesystem/fs.c:806-1401 | Every run of creates, reads, writes, whole-file and range clones, dedups, punches, both truncations and removals leaves each file with exactly the bytes, size, type and mode that independent byte arrays would have; every read delivers the array's bytes and every caller is told the right result, -1 exactly when the operation has no effect for want of a condition. Given room in the log, it stops early only when every block of the data area is in some file, and then only the file of the operation that could not be finished may differ |
| FileArrays.Step | kernel/filesystem/fs.c:806-1401 | One operation on the shared-block structure is the corresponding operation on independent byte arrays, refused exactly where that is, and the file system is consistent again; one that runs out of blocks leaves every other file as it was |
| FileArrays.StepWrite | kernel/filesystem/fs.c:1058-1090 | A write changes the target's bytes in the written range and its size to the maximum, and no other file, however blocks are shared |
| FileArrays.StepCloneNew | kernel/filesystem/fs.c:1207-1272 | Creating an inode and cloning into it, given room in the log, makes a file with the source's bytes, size and mode, independent of the source from then on |
| FileArrays.StepCloneRange | kernel/filesystem/fs.c:1276-1341 | A range clone copies the byte range, in whole blocks, and touches no other byte of any file |
| FileArrays.StepDedup | kernel/filesystem/fs.c:1348-1401 | Dedup changes no byte of any file |
| FileArrays.StepPunch | kernel/filesystem/fs.c:1116-1203 | Punching zeroes exactly the punched blocks' bytes and keeps the size |
| FileArrays.StepTruncateTo | kernel/filesystem/fs.c:885-1003 | Truncation zeroes exactly the bytes from the first dropped block on, so bytes between the new end and its block's end survive |
| FileArrays.StepTruncate | kernel/filesystem/fs.c:806-856 | Truncating to nothing, as open with O_TRUNC does, leaves an array of zeros and size 0 |
| FileArrays.StepRead | kernel/filesystem/fs.c:1022-1052 | A read delivers the array's bytes from the offset on, clipped at the size |
| FileArrays.StepRemove | kernel/filesystem/fs.c:536-564 | Dropping the last link empties the file and frees the inode; other files keep their bytes |
| FileArrays.WriteMeans | kernel/filesystem/fs.c:1058-1090 | On the arrays: a write has an effect exactly on an inode in use, from an offset not past the end, up to the largest file; then the bytes of the range are the data, the size is the maximum, and nothing else changes |
| FileArrays.ReadAfterWrite | kernel/filesystem/fs.c:1022-1090 | What was written is read back |
| FileArrays.ReadAfterClone | kernel/sysfile.c:337-378 | A clone succeeds exactly for a regular file with an inode free; it is the first free one and reads like its source, and every other file reads as before |
| FileArrays.CreateMeans | kernel/filesystem/fs.c:394-415 | A new file is the first free inode, of the type asked for, and all zeros |
| FileArrays.CloneRangeMeans | kernel/sysfile.c:381-465 | A range clone has an effect exactly between two different regular files, in whole blocks, within the largest file; then each byte of the range is the source's and no other changes |
| FileArrays.CutMeans | kernel/filesystem/fs.c:806-1203 | Punching, both truncations and removal: exactly for which files they have an effect, the size and type they leave, and exactly which bytes they clear |
| FileArrays.BytesOverlay | kernel/filesystem/fs.c:1276-1341 | Sharing blocks [start, start + k) of one map as blocks from `at` on of another copies that byte range |
| FileArrays.BytesCut | kernel/filesystem/fs.c:885-1003 | Cutting blocks [lo, hi) out of a file's map is zeroing that byte range |
| FileArrays.BytesDedup | kernel/filesystem/fs.c:1348-1401 | Redirecting blocks of equal contents leaves the byte array as it is |
| FileSystem.FileSys.BrefInc | kernel/filesystem/fs.c:130-138 | The count of the block goes up by one and nothing else changes |
| FileSystem.FileSys.BrefDec | kernel/filesystem/fs.c:140-154 | The count goes down by one; the underflow panic is a precondition every caller meets |
| FileSystem.FileSys.FindFree | kernel/filesystem/fs.c:236-283 | The bits tested, noted one by one as they are tested, are exactly the first of the rotation from the hint: none twice, all of them when it fails, and the last one clear when it succeeds |
| FileSystem.FileSys.ScanRange | kernel/filesystem/fs.c:239-258 | One phase tests the bits of its range upward, bitmap block by bitmap block, up to the first clear one |
| FileSystem.RotationOnce | kernel/filesystem/fs.c:236-283 | The rotation names every block number, and none twice |
| FileSystem.FileSys.Balloc | kernel/filesystem/fs.c:225-285 | It returns the first free block in rotation from the hint, now marked, zeroed, counted once and logged with its bit; it fails, changing nothing, exactly when no bit is clear |
| FileSystem.FileSys.Bfree | kernel/filesystem/fs.c:288-304 | One reference less, and the bit cleared exactly when it was the last; the freeing-free-block panic cannot be reached |
| FileSystem.FileSys.Bmap | kernel/filesystem/fs.c:583-660 | The block of file block bn, allocated on demand at all three levels; for a write the block returned is referenced once, with the contents it had, so a shared one has been copied; for a read a mapped block is returned as it is; for a write the block stays where it is exactly when it is counted once |
| FileSystem.FileSys.Cow | kernel/filesystem/fs.c:583-660 | A shared data block is replaced by a private copy: this slot's contents stay, everybody else's pointer and contents stay, and the counts stay exact |
| FileSystem.FileSys.BmapNalloc | kernel/filesystem/fs.c:664-708 | The pointer for block bn through direct, single- and double-indirect slots, 0 for a hole at any level and past the largest file |
| FileSystem.FileSys.BmapSetExisting | kernel/filesystem/fs.c:712-760 | Stores the pointer in its slot, or reports -1 exactly when an address block on the way is missing or bn is past the largest file |
| FileSystem.FileSys.BmapEnsure | kernel/filesystem/fs.c:764-802 | Makes the address blocks on the way to bn exist without changing any data pointer or contents |
| FileSystem.FileSys.Readi | kernel/filesystem/fs.c:1022-1052 | Delivers exactly the file's bytes in the range clipped at the size, zeros for holes, and nothing for an offset past the end or a wrapping range |
| FileSystem.FileSys.Writei | kernel/filesystem/fs.c:1058-1090 | Refuses exactly an offset past the end, a wrapping range or one past the largest file; otherwise splices the data in, extends the size to the maximum, and leaves every other inode's blocks and metadata |
| FileSystem.FileSys.CloneBlock | kernel/filesystem/fs.c:1294-1332 | One block of a range clone: the target maps what the source maps, holes included |
| FileSystem.FileSys.IcloneRange | kernel/filesystem/fs.c:1276-1341 | Fails exactly on a type mismatch or when a mapped source block would land past the largest file; otherwise the target's block map is the old one overlaid with the source range, and no block outside it changes |
| FileSystem.FileSys.Idedup | kernel/filesystem/fs.c:1348-1401 | Redirects exactly the blocks both files map, in two places, with equal contents, and returns how many; no file's bytes change |
| FileSystem.FileSys.Iclone | kernel/filesystem/fs.c:1207-1272 | A fresh inode gets the source's mode, size and whole block map, every data block shared, and an address block of its own exactly where the source has one; nobody else's pointers change. What is logged is the blocks taken, their bitmap blocks and last the inode's block; out of blocks, every block is in some file |
| FileSystem.FileSys.CloneAddrBlock | kernel/filesystem/fs.c:1224-1238 | A new address block with the same entries, every entry's count raised by one |
| FileSystem.FileSys.Itrunc | kernel/filesystem/fs.c:806-856 | The file loses every block at all three levels and its size; no other block changes |
| FileSystem.FileSys.FreeIndirectBlock | kernel/filesystem/fs.c:868-881 | An address block and everything it points at lose one reference each |
| FileSystem.FileSys.TrimBlock | kernel/filesystem/fs.c:910-930 | Entries from `keep` on are released; a block left without entries is not logged, and everything claimed holds whichever of its two versions a later read finds |
| FileSystem.FileSys.ItruncTo | kernel/filesystem/fs.c:885-1003 | Growing only sets the size; shrinking keeps exactly the first ceil(newsize / BSIZE) blocks, addresses and bytes, across all three levels |
| FileSystem.FileSys.Ipunch | kernel/filesystem/fs.c:1116-1203 | Blocks [startb, endb) become holes and nothing else changes: not the size, not another block's address or bytes |
| FileSystem.FileSys.BrefInit | kernel/filesystem/fs.c:169-222 | The counts recomputed from the disk are the number of pointers to each block, so on a consistent file system they are the counts the operations kept |
| FileSystem.FileSys.Ialloc | kernel/filesystem/fs.c:394-414 | The first free inode gets the type and maps nothing; none is free exactly when it fails |
| FileSystem.FileSys.Ifree | kernel/filesystem/fs.c:536-564 | The inode of an unlinked file is emptied and freed |
| FileSystem.FileSys.Iupdate | kernel/filesystem/fs.c:420-437 | The inode on disk becomes the one in core, and no other does; its block is logged |
| FileSystem.DedupedBytes | kernel/filesystem/fs.c:1348-1401 | A deduplicated block has the contents it had |
| BlockMap.DataSlotBijection | kernel/filesystem/fs.c:583-660 | Block numbers below MAXFILE and data slots of a file correspond one to one |
| BlockMap.CountOneUnique | kernel/filesystem/fs.c:130-167 | A block counted once is pointed at from one slot only |
| BlockMap.FreeUnreferenced | kernel/filesystem/fs.c:288-304 | A block whose bit is clear is pointed at from nowhere |
| BlockMap.AllocEffect | kernel/filesystem/fs.c:225-285 | Taking a free block changes no pointer and no contents anybody can see |
| BlockMap.CowEffect | kernel/filesystem/fs.c:583-660 | Copying a shared block and switching one slot to the copy preserves the tree, all contents and exact counts |
| BlockMap.Redirect | kernel/filesystem/fs.c:712-760 | Switching a data slot to another data block moves one reference and leaves all other pointers and contents |
| BlockMap.UnmapEffect | kernel/filesystem/fs.c:1298-1306 | Clearing a data slot and dropping its reference keeps counts exact and all else unchanged |
| BlockMap.CutEffect | kernel/filesystem/fs.c:868-881 | Clearing an address slot whose whole subtree has been released removes exactly that subtree's blocks |
| BlockMap.CopyBlockEffect | kernel/filesystem/fs.c:1224-1238 | Copying an address block for another file makes each of its slots map what the original's slot maps, with the counts owed for it |
| BlockMap.TallySlot | kernel/filesystem/fs.c:169-222 | Visiting one slot and counting its target keeps the tally equal to the pointers visited |
| CrashLog.CommitCrashRecover | kernel/filesystem/log.c:68-122 | If power fails after any number of disk writes of a commit, and recovery is itself cut short any number of times before it finishes, all home blocks hold their old contents or all hold their new ones, the latter exactly when the header write happened |
| CrashLog.LogDisk.Commit | kernel/filesystem/log.c:192-202 | However many writes get through, the recoverable contents are the old ones before the header write and the new ones after it |
| CrashLog.LogDisk.WriteLog | kernel/filesystem/log.c:177-190 | Copies the cached blocks into the log area and nothing else |
| CrashLog.LogDisk.WriteHead | kernel/filesystem/log.c:101-113 | One disk write puts the block list into the header |
| CrashLog.LogDisk.InstallTrans | kernel/filesystem/log.c:68-82 | Copies logged blocks home; wherever it stops, the recoverable contents are the same |
| CrashLog.LogDisk.ReadHead | kernel/filesystem/log.c:85-96 | Loads the list the header on disk holds |
| CrashLog.LogDisk.Recover | kernel/filesystem/log.c:115-122 | Installs and erases the log; cut short, it changes no recoverable contents; run to the end, every home block holds them and the log is empty |
| CrashLog.InstallKeepsLogical | kernel/filesystem/log.c:68-82 | Writing one logged block home leaves every block's recoverable contents |
| CrashLog.CommitPoint | kernel/filesystem/log.c:192-202 | The single header write switches every logged block from old to new |
| Transactions.ReservationSound | kernel/filesystem/log.c:124-172 | For operations that log at most m different blocks, as often as they like: no run of begin_op, log_write, end_op and commit panics if and only if the peak that admission allows, MAXOPBLOCKS + 2m for m up to MAXOPBLOCKS, is below both LOGSIZE and the log area less its header |
| Transactions.ShareCondition | kernel/include/param.h:9-13 | The same condition for shares of one to MAXOPBLOCKS blocks, in the source's constants |
| Transactions.NeverTooBig | kernel/filesystem/log.c:124-172 | Below that bound every run goes through |
| Transactions.PeakReached | kernel/filesystem/log.c:124-141 | Above it: a run of admitted operations, each within its share, that brings the list to the peak with one of its operations still under way |
| Transactions.RelogPanics | kernel/filesystem/log.c:213-223 | Three operations of ten blocks fill the list; logging a block that is in it once more panics, in a log area of any size, because the test comes before the search |
| Transactions.NoAreaForFullShare | kernel/include/param.h:9-13 | No log area is large enough for operations that use their whole share of MAXOPBLOCKS blocks |
| Transactions.MkfsArea | mkfs/mkfs.c:35 | The area mkfs lays out is large enough exactly for operations of up to nine blocks |
| Transactions.OperationTooLarge | kernel/filesystem/log.c:213-218 | Every run in which some operation logs more different blocks than the log's capacity panics |
| Transactions.CallsCalm | kernel/filesystem/log.c:213-234 | The log_write calls of one operation, with nothing in between, go through exactly when the list with all their blocks, but for what only the last call adds, is below the capacity |
| Transactions.ApplyKeeps | kernel/filesystem/log.c:124-172 | Every step keeps the blocks logged plus the shares still open within the peak, counts outstanding operations, and lets none be outstanding during a commit |
| Transactions.Log.BeginOp | kernel/filesystem/log.c:124-141 | Admits an operation exactly when no commit runs and the space for all admitted ones is there |
| Transactions.Log.LogWrite | kernel/filesystem/log.c:213-234 | Panics exactly when the list is at a limit, also for a block in it; otherwise the block is in the list once |
| Transactions.Log.EndOp | kernel/filesystem/log.c:144-172 | The committing panic cannot fire; a commit starts exactly with the last outstanding operation |
| Transactions.Log.Committed | kernel/filesystem/log.c:162-171 | After a commit the list is empty and operations are admitted again |
| LogDemand.CloneTakes | kernel/filesystem/fs.c:1207-1272 | A whole-file clone takes exactly one block for each address block of its source |
| LogDemand.CloneCounted | kernel/filesystem/fs.c:1207-1272 | iclone into a fresh inode, with the number of blocks it takes and what it logs; out of blocks, it has taken no more than a block map can have |
| LogDemand.CloneLogged | kernel/filesystem/fs.c:1207-1272 | The blocks a clone takes are the ones balloc's state before the call gives, as many as the source has address blocks; logged are exactly these, their bitmap blocks, and last the inode's block |
| LogDemand.CloneFits | kernel/sysfile.c:337-378 | The log_write calls of iclone go through if and only if the list it finds, with those blocks and bitmap blocks, is below the log's capacity |
| LogDemand.CloneFitsAlone | kernel/sysfile.c:337-378 | Alone in the log: if and only if the number of address blocks plus that of the bitmap blocks is below the capacity |
| LogDemand.CloneForesight | kernel/sysfile.c:337-378 | From the number k of address blocks alone: k plus the smaller of k and the bitmap's blocks below the capacity is enough, k + 1 at the capacity is too much |
| LogDemand.TooLargeToClone | kernel/sysfile.c:337-378 | A consistent file system with room on the disk and a file of 30 address blocks: iclone copies its map, and one of its log_write calls panics, whatever the log area |
| LogDemand.CloneTooLarge | kernel/sysfile.c:337-378 | In any run, whatever else goes on: an operation that logs what the clone logs, with as many address blocks and bitmap blocks as the log's capacity, makes the log panic |
| BufferCache.Run | kernel/filesystem/bio.c:62-286 | Any sequence of reads, logged writes and commits, each holding one buffer at a time (a commit two), returns what a plain block store would; with a log area no larger than the cache it never stops for want of a buffer. The power may fail after any disk write of the run: recovery gives the plain store as it is after some of the operations, and after a commit all of those before it |
| BufferCache.FullLogStops | kernel/filesystem/bio.c:119-124 | With a log area larger than the cache, LOGSIZE writes of different blocks pin every buffer and the commit panics: the condition of Run is exact |
| BufferCache.Bcache.BufferLeft | kernel/filesystem/bio.c:97-124 | No buffer is free exactly when the held buffers and the pinned blocks together are as many as there are buffers |
| BufferCache.Bcache.constructor | kernel/filesystem/bio.c:193-227 | After binit the chains hold every buffer once and nothing is cached |
| BufferCache.Bcache.Lookup | kernel/filesystem/bio.c:68-79 | Finds the buffer of a (device, block) exactly when it is cached |
| BufferCache.Bcache.ClockScan | kernel/filesystem/bio.c:97-118 | The victim is the first buffer from the hand on that is neither referenced nor has its bit set, and if there is none the first that is not referenced; none exactly when all are referenced |
| BufferCache.Bcache.Bget | kernel/filesystem/bio.c:62-141 | The block's one buffer, locked; it fails exactly when the block is not cached and every buffer is referenced; no stored contents change |
| BufferCache.Bcache.Recycle | kernel/filesystem/bio.c:104-139 | Renaming an unreferenced buffer keeps names unique and the chains exact, and loses no contents |
| BufferCache.Bcache.Bread | kernel/filesystem/bio.c:230-243 | The buffer returned holds the last contents written, read-ahead notwithstanding; it fails exactly when the block is not pinned and held buffers and pinned blocks together are as many as there are buffers. The next block is fetched too, if a buffer is free, after a read of the block before, and no other block otherwise |
| BufferCache.Bcache.Readahead | kernel/filesystem/bio.c:159-191 | Reading ahead changes nothing a reader can see and keeps no buffer locked |
| BufferCache.Bcache.Bwrite | kernel/filesystem/bio.c:246-252 | The buffer's contents reach the disk; what readers see is unchanged |
| BufferCache.Bcache.Brelse | kernel/filesystem/bio.c:255-268 | One reference less and the buffer unlocked; stored contents unchanged |
| BufferCache.Bcache.Bpin | kernel/filesystem/bio.c:270-277 | A pinned block's buffer carries one more reference, so it cannot be recycled |
| BufferCache.Bcache.Bunpin | kernel/filesystem/bio.c:279-286 | The reference is given back, of a block whose contents have reached the disk |
| BufferCache.Bcache.LogWrite | kernel/filesystem/log.c:213-234 | Refuses exactly at the limits, changing nothing; otherwise the block is in the header's list once and pinned once; the list's length is the number of pinned blocks |
| BufferCache.Bcache.WriteLog | kernel/filesystem/log.c:177-190 | Every logged block's contents are in the log area, and no home block changed |
| BufferCache.Bcache.InstallTrans | kernel/filesystem/log.c:68-82 | Every logged block reaches its home on disk and is unpinned |
| BufferCache.Bcache.Commit | kernel/filesystem/log.c:192-202 | No block outside the log area reads differently, nothing stays pinned, the disk holds what readers see and its header says nothing is logged. The disks it goes through are recovered to the old contents up to some write and to the new ones from then on |
| BufferCache.Bcache.WriteHead | kernel/filesystem/log.c:101-113 | One block write, after which the header on disk has exactly the count and the list in memory |
| BufferCache.Bcache.InstallingGives | kernel/filesystem/log.c:68-82 | From the header write on, and however far installing has got, recovery of the disk gives what readers see |
| BufferCache.RecycleStore | kernel/filesystem/bio.c:104-139 | Recycling a clean buffer leaves the store every reader sees unchanged |
| CowFork.Run | kernel/mm/vm.c:335-376 | Every run of forks, stores, loads, page growth, exits and pages taken by the kernel itself, each on any CPU, reads what full copying would read, with exact page counts. For want of a page an operation fails only when the pages of all processes and the kernel's, each counted as a private copy, are at least as many as the machine has; a store to a shared page, only when they are more |
| CowFork.Step | kernel/mm/vm.c:335-376 | One operation on shared pages is the operation on private copies, with an outcome these allow |
| CowFork.LoadAfterStore | kernel/mm/vm.c:468-530 | On private copies: a load after a store gets the byte stored, and every other load what it got before |
| CowFork.LoadAfterFork | kernel/mm/vm.c:335-376 | On private copies: after a fork the child loads what the parent does in its first pages, and everybody else what they did |
| CowFork.LoadAfterGrow | kernel/mm/vm.c:250-276 | On private copies: a new page reads as zeros, everything else as before |
| CowFork.LoadAfterExit | kernel/mm/vm.c:189-217 | On private copies: the process's first pages are gone, everything else reads as before |
| CowFork.Vm.Fork | kernel/mm/vm.c:335-376 | The child gets the parent's pages as they read and may be written; on failure the child has none and the parent reads as before; it fails exactly when a mapped page is reached without a page-table page for it |
| CowFork.Vm.SharePage | kernel/mm/vm.c:356-373 | Sharing one page adds a reader and changes nobody's view |
| CowFork.Vm.Cowalloc | kernel/mm/kalloc.c:228-273 | The page becomes this process's own and writable, copied only if somebody else maps it; no process sees a difference; it fails exactly when the page is counted more than once and no page is free |
| CowFork.Vm.Store | kernel/mm/vm.c:468-500 | A store that goes through makes one byte of the process's page the byte stored, and every other byte and every other page read as before; it fails exactly when the process may not write there, or the page is shared and no page is free |
| CowFork.Vm.Load | kernel/mm/vm.c:505-530 | A load sees the process's own page |
| CowFork.Vm.Kfree | kernel/mm/kalloc.c:63-91 | One reference less; exactly with the last one the page is filled with junk and put at the head of this CPU's free list |
| CowFork.Vm.KallocTry | kernel/mm/kalloc.c:97-139 | The head of this CPU's free list, or of the first other list that has pages, filled with junk; none exactly when every page is in use |
| CowFork.Vm.KernelTake | kernel/mm/kalloc.c:97-139 | A page for the kernel itself comes from the same pool and changes nobody's memory |
| CowFork.Vm.Uvmunmap | kernel/mm/vm.c:189-217 | The process loses exactly those pages, and shared ones survive for the others |
| CowFork.CountOneAlone | kernel/mm/kalloc.c:210-273 | A page counted once is mapped by one entry only |
| CowFork.FullShared | kernel/mm/kalloc.c:97-139 | With no page free and one page shared, the pages mapped and the kernel's together are more than the machine has |
| PageTable.PageTables.Walk | kernel/mm/vm.c:76-97 | Returns the leaf table holding the page's entry, adding zeroed tables on demand, and changes no page's entry; without allocation it fails exactly where a table is missing |
| PageTable.PageTables.Mappages | kernel/mm/vm.c:164-184 | Maps exactly the pages of the range, in order, to consecutive frames; stops only for want of a table page or at a page already mapped; no other page's entry changes |
| PageTable.PageTables.Uvmunmap | kernel/mm/vm.c:189-217 | Clears exactly those entries |
| PageTable.LeafSlotsDistinct | kernel/mm/vm.c:76-97 | Distinct pages below MAXVA never reach the same leaf slot |
| PageTable.IndicesDetermine | kernel/mm/vm.c:76-97 | The three 9-bit indices determine the page number |
| PageTable.SetLeaf | kernel/mm/vm.c:164-184 | Writing one leaf entry changes the flat map at one page and keeps the tree |
| PageTable.Grow | kernel/mm/vm.c:76-97 | Hanging a zeroed table into an empty entry changes no page's entry and keeps the tree |
| PageTable.PteRoundTrip | kernel/include/riscv.h:340-344 | Frame number and all flags are recovered from an entry |
| PageTable.PteParts | kernel/include/riscv.h:340-344 | An entry is nothing but its frame number and flags |
| Banker.Run | kernel/proc/proc.c:770-950 | Every run of the resource calls, process creation and exit keeps each resource's available plus allocated equal to its total and 0 <= alloc <= max <= total; it ends in a safe state if every claim set_max accepted on the way could be served by the others |
| Banker.ApplyBooked | kernel/proc/proc.c:770-950 | Every call keeps conservation and the bounds, whatever the claims |
| Banker.ApplyKeeps | kernel/proc/proc.c:770-950 | Every call keeps safety too, except a claim that the others cannot serve |
| Banker.Bank.IsSafe | kernel/proc/proc.c:694-738 | True exactly when some order lets every active process finish; the loop terminates |
| Banker.GreedyComplete | kernel/proc/proc.c:694-738 | When the greedy pass is stuck, no order finishes a process it left out |
| Banker.Bank.NeedFits | kernel/proc/proc.c:682-692 | Whether the remaining claim fits in the pool, for every resource |
| Banker.Bank.Init | kernel/proc/proc.c:770-814 | Accepted exactly for a valid vector while nobody holds anything; then everybody starts afresh in a safe state |
| Banker.Bank.SetMax | kernel/proc/proc.c:816-855 | Accepted exactly for a claim within the totals and not below what is held; otherwise nothing changes |
| Banker.Bank.Request | kernel/proc/proc.c:857-899 | Granted exactly when within the claim, available and leaving a safe state; a refused request leaves the state exactly as it was |
| Banker.Bank.Release | kernel/proc/proc.c:901-931 | Accepted exactly for what is held, which goes back to the pool |
| Banker.RequestGuard | kernel/proc/proc.c:857-899 | A request passes the checks exactly when it is well formed, asks for nothing negative, and granting it keeps conservation and bounds |
| Banker.ReleaseGuard | kernel/proc/proc.c:901-931 | A release, exactly when nothing negative comes back and conservation and bounds are kept |
| Banker.ClaimGuard | kernel/proc/proc.c:816-855 | A claim, exactly when it is well formed and conservation and bounds are kept |
| Banker.Bank.FreeProc | kernel/proc/proc.c:933-950 | The process's holdings go back to the pool and its slot leaves the party |
| Banker.ClaimSafe | kernel/proc/proc.c:816-855 | An accepted claim leaves the state safe if and only if some of the other processes can finish first and free enough for it |
| Banker.FirstClaimYields | kernel/proc/proc.c:816-855 | A process holding nothing can always state a claim safely |
| Banker.ClaimCanLoseSafety | kernel/proc/proc.c:816-855 | From a concrete safe state a holder raises its claim, set_max accepts, and the state is unsafe |
| Banker.HandBackKeeps | kernel/proc/proc.c:901-931 | Handing resources back keeps the state safe, by the same order |
| Banker.RetireKeeps | kernel/proc/proc.c:933-950 | A process leaving keeps the state safe and the resources conserved |
| Banker.HandRoundTrip | kernel/proc/proc.c:857-899 | The rollback undoes the tentative grant exactly |
| Monitors.Run | kernel/sysproc.c:1061-1132 | Whatever monitor calls, wake-ups, kills, forks, exits and sleeps on objects without an owner happen, in whatever order: each has exactly its effect, no process ever waits for itself through owners, locks have live owners, waiters are counted, no wake-up is lost, and no killed process stays asleep on a monitor |
| Monitors.MonitorTable.DeadlockDetect | kernel/proc/proc.c:486-515 | 1 exactly when following owners through sleeping processes from the channel reaches the caller; the step limit loses no answer |
| Monitors.MonitorTable.OwnerOfChan | kernel/proc/proc.c:454-484 | The owner of what the channel is the address of, 0 for none |
| Monitors.ShortHop | kernel/proc/proc.c:486-515 | Whoever is reached at all is reached in fewer steps than the process table has slots |
| Monitors.NewEdge | kernel/sysproc.c:1061-1106 | A process that starts waiting closes a cycle exactly when the walk from the owner leads back to it |
| Monitors.BlockKeeps | kernel/sysproc.c:1061-1106 | Blocking on a monitor keeps the graph acyclic exactly when the check, made at that moment, answers no |
| Monitors.StaleCheckClosesCycle | kernel/sysproc.c:1061-1106 | A concrete state in which two processes both get the answer no and then both sleep, which closes a cycle: the check and the sleep must not be interleaved with another process's |
| Monitors.WalkEnds | kernel/proc/proc.c:486-515 | In an acyclic graph every chain of waiting ends, within the table's size, at a process that waits for nobody |
| Monitors.EffectHeard | kernel/sysproc.c:1061-1132 | No event loses a wake-up: when a monitor is free and a process sleeps on it, some process parked on it is awake |
| Monitors.NotStuck | kernel/sysproc.c:1061-1132 | While a process sleeps on a monitor, some process is neither gone nor asleep on one |
| Monitors.EffectStrands | kernel/sysproc.c:1061-1106 | A kill takes its victim off the monitor, and a killed process does not go to sleep on one |
| Monitors.LockKeeps | kernel/sysproc.c:1061-1106 | Acquiring keeps the graph acyclic, because the new owner runs |
| Monitors.KeepAcyclic | kernel/proc/proc.c:454-515 | Dropping edges, or redirecting some to a process that waits for nobody, closes no cycle |
| Monitors.MonitorTable.Enter | kernel/sysproc.c:1061-1106 | Fails, enters or blocks exactly in the stated cases, with the whole new state |
| Monitors.MonitorTable.EnterLoop | kernel/sysproc.c:1075-1105 | Enters exactly when unlocked, blocks exactly when locked, not killed and no cycle would close |
| Monitors.MonitorTable.Resume | kernel/sysproc.c:1075-1105 | A woken waiter is counted out and goes through the loop again |
| Monitors.MonitorTable.Exit | kernel/sysproc.c:1108-1132 | Only the owner may leave; the monitor is free and the first sleeper, if any, is woken |
| Monitors.MonitorTable.ExitProcess | kernel/proc/proc.c:1160-1178 | A process that exits gives up exactly the monitors it holds |
| Monitors.MonitorTable.WakeupOne | kernel/proc/proc.c:2076-2102 | Exactly the first sleeper on the channel is woken |
| Monitors.MonitorTable.Kill | kernel/proc/proc.c:2126-2179 | Exactly the first slot with the pid is marked killed; asleep, it becomes runnable, any other state stays, and so do pid and channel; -1 exactly when no slot has the pid |
| Monitors.MonitorTable.Create | kernel/sysproc.c:1006-1030 | The first free monitor is taken, unlocked and without waiters; -1 exactly when none is free |
| Monitors.MonitorTable.Free | kernel/sysproc.c:1032-1059 | Frees exactly a taken, unlocked monitor without counted waiters, and then nobody is parked on it |
| Mlfq.BoundedWaiting | kernel/proc/proc.c:1913-1936 | A process that stays ready at a level, with none ready at a better one, is dispatched after fewer than NPROC others, all from its level and none twice, whatever the others do in between |
| Mlfq.Scheduler.Pick | kernel/proc/proc.c:1913-1936 | Picks nobody exactly when nobody is ready; otherwise the first of the best level in rotation, and advances that level's start index past it |
| Mlfq.Scheduler.Scan | kernel/proc/proc.c:1915-1931 | One level's scan finds the ready process at the least circular distance |
| Mlfq.TurnMovesCloser | kernel/proc/proc.c:1913-1936 | Each dispatch of another process strictly decreases the waiting one's circular distance and leaves those already served behind it |
| Umalloc.Run | user/program/umalloc.c:26-99 | Under any sequence of calls by a client that frees only what it holds, the free list stays an address-ordered ring of non-adjacent blocks, and free and held blocks partition exactly the core sbrk granted, each held block with room for the bytes asked for; malloc refuses only where sbrk fails or the size does not fit an int. The run goes through when the first break with all gaps and grants stays below 2^31 bytes, and stops only at a request that reaches that far |
| Umalloc.Heap.Malloc | user/program/umalloc.c:68-99 | Returns a block that was not allocated, with room for the bytes asked for behind its header and less than a unit to spare; null exactly when no block on the list fits and sbrk fails; other allocations are untouched. A call that sbrk answers leaves the heap valid if and only if the bytes fit an int and the break comes back through one unchanged |
| Umalloc.Heap.Search | user/program/umalloc.c:80-98 | After more core the second round cannot fail, so the loop ends |
| Umalloc.Heap.FirstFit | user/program/umalloc.c:80-98 | Finds a block exactly when one on the list is large enough, within one round of the ring |
| Umalloc.Heap.Take | user/program/umalloc.c:82-93 | An exact fit is unlinked, a larger block gives up its tail; the rest of the heap is unchanged |
| Umalloc.Heap.MoreCore | user/program/umalloc.c:51-66 | At least 4096 units join the list, merged with their neighbours; they are core exactly when neither of sbrk's int conversions changed a value |
| Umalloc.Heap.Sbrk | kernel/sysproc.c:202-230 | The break moves by the int it is given, up or down, but not below zero, and the old break comes back through an int |
| Umalloc.HugeRequest | user/program/umalloc.c:51-66 | The largest request on a fresh heap: the block handed out has one unit of core, and the core for the next request lies inside it |
| Umalloc.AstrayMeans | kernel/sysproc.c:205-229 | A break goes astray on the way through an int exactly from 2^31 bytes on |
| Umalloc.AddrOfMeans | kernel/sysproc.c:205-229 | The address sbrk returns agrees with the old break in its low 32 bits and extends bit 31 |
| Umalloc.Heap.Free | user/program/umalloc.c:26-49 | The block goes back on the list in address order, merged with adjacent neighbours; every other allocation keeps its size and place |
| Umalloc.Heap.Find | user/program/umalloc.c:31-33 | The search for the block's place ends within one round of the ring, wherever freep is |
| Umalloc.FreeWell | user/program/umalloc.c:34-48 | All four cases of merging give a well-formed ring and partition |
| Umalloc.MergeUnits | user/program/umalloc.c:34-48 | Joining two adjacent blocks keeps the partition of the arena |
| Umalloc.SplitUnits | user/program/umalloc.c:82-93 | Splitting a block keeps the partition of the arena |
| Umalloc.UnitsAddUp | user/program/umalloc.c:26-99 | The sizes of all blocks, free and allocated, add up to the units granted |
| Grep.Match | user/program/grep.c:86-96 | True exactly when some substring of the text is in the language of the pattern, with '^' at the start only and '$' at the end only |
| Grep.MatchHere | user/program/grep.c:99-110 | True exactly when a prefix of the text is in the language of the pattern |
| Grep.MatchStar | user/program/grep.c:113-121 | True exactly when some number of c's followed by a match of the rest starts the text |
| Grep.HereHead | user/program/grep.c:99-121 | A pattern with a first item matches exactly when a piece for the item is followed by a match of the rest |
| Grep.OccursAt | user/program/grep.c:86-96 | Matching at a position is matching at the start of what follows |
| Grep.ParseSpells | user/program/grep.c:99-110 | The items a pattern is read as spell it; only a final '$' is the end mark, and a star always belongs to the character before it |

## Left out

- falloc, which changes an inode's block pointers without writing the inode.
- Directories, paths, rename, link counts beyond "last link gone", extended attributes, the FAT driver and the mount table.
- FileSystem.FileSys.Iclone: only into a fresh inode, as its one caller uses it; blocks the target already had would be lost by the code.
- FileSystem.FileSys.IcloneRange: source and target are different inodes, as its one caller makes sure; after a return of -1 only the block map's invariant is claimed, not equality of the in-core inode with the one on disk.
- The log's capacity in FileSystem and FileArrays: an operation that logs more than the log holds panics in the source and goes through there. LogDemand says exactly when iclone does; how many blocks idedup, itrunc_to and the directory operations log is not modelled, so for the whole of fclone the blocks that creating the target logs are the list iclone finds.
- FileArrays.Run: takes the log to have room, like FileArrays.Step and FileArrays.StepCloneNew.
- Running out of inodes: a panic in the source, a refusal in FileArrays.
- FileArrays.StepCloneNew: takes the log to have room; a clone that overflows it panics in the source.
- BufferCache.Run: sequential, one buffer at a time, where idedup holds two and iclone four; with a log area larger than the cache, a panic for want of a buffer ends the run.
- Recovery inside the buffer cache: install_trans unpins buffers it never pinned when called from recovery, so the cache starts from a boot with an empty log and recovery is proved on the disk in CrashLog.
- Swap, shared memory, threads sharing an address space (uvmshare), and stack or heap growth on a page fault.
- TLB flushes, memory order and interleavings below a locked section.
- Mappings of read-only pages through copyout, which does not look at the write bit; a store is one to a writable page or to a copy-on-write page after cowalloc.
- PageTable.PageTables.Uvmunmap: the freeing of the unmapped pages is in CowFork.Vm.Uvmunmap instead.
- Condition variables, whose wait re-acquires the monitor without a deadlock check, semaphores, and the mid-term suspender.
- Sleep locks in the runs of Monitors: they have owners and are taken without a deadlock check; DeadlockDetect itself is proved for any owners.
- Monitors.MonitorTable.Free: the tests that no condition variable is in use.
- CowFork.Vm.Fork: which page-table pages it takes; `room` says where they run out, and the kernel takes and gives back pages of the pool in steps of its own.
- Umalloc.Heap.Malloc: what happens after sbrk has answered with an address that is not the new core.
- Priority donation of mon_enter, which changes no lock.
- Real-time scheduling, time-slice accounting and level changes of the feedback queue; the pick is proved for any of them, as the table is arbitrary between dispatches.
- Threads reaped by freethread, which does not hand banker resources back.
- The reading of lines in grep, and all drivers, the network stack, message queues, the spooler and the shell.
