# A model of the xv6 kernel and its shell

This project models the parts of a teaching Unix kernel (xv6, with a custom scheduler, counting
semaphores, a resize call and a dining-philosophers program) whose correctness is not visible in
any one function, and proves what they are for. `dafny verify dfyconfig.toml` checks all of it.

- **Write-ahead log** (`LogDisk`, `Log`, `GroupCommit`). The disk is a sequence of blocks and a
  block write is atomic. A crash may come between any two writes of a commit or of a recovery, any
  number of times. `GroupCommit` runs any number of concurrent operations over it.
- **File system** (`FsLayout`, `Ownership`, `FileBytes`, `Fs`, `FileCalls`, `CrashedWrites`, `Inodes`,
  `InodeCalls`, `MkfsImage`, `Mkfs`).
  Bitmap, inodes and indirect blocks are bytes in 512-byte blocks. Above them stand the ownership of
  blocks by inode slots, and the byte string that each inode means. `bread` reads the disk as the buffer
  cache shows it. `Mkfs` makes the first image. `Inodes` runs any number of processes over it, each
  with inodes of its own locked, and `InodeCalls` says in which order the calls take the steps.
  `CrashedWrites` puts the transactions of `filewrite` through the log.
- **Buffer cache** (`BufferRing`, `BufferCache`, `CommitBuffers`). The doubly linked ring of buffers, in
  front of the in-memory disk, and what the log asks of it.
- **User heap** (`FreeList`, `Heap`). The circular, address-ordered, coalescing free list of section
  8.7 of *The C Programming Language*, 2nd edition.
- **Pages** (`Kmem`, `PageTable`, `Vm`, `UserVm`). The free list through the free pages, two-level
  page tables in physical memory, and the address spaces built from them.
- **Processes** (`ExitWait`, `ProcTable`, `Scheduler`, `Semaphore`, `Permits`, `Philosophers`,
  `PrimeFactor`). Steps under `ptable.lock` interleave freely.
- **Pipe** (`Pipe`, `PipeSleepers`) and **shell parser** (`Shell`, `ShellGrammar`, `ShellPrint`,
  `ShellRedirs`, `ShellParser`).

`Basics` holds what several of them share.

Code that changes state step by step is a method of a class, or a method over one, proved against a
relation or function on values. The properties over whole runs are lemmas about those relations. A
`panic` is a result of its own, and a sleeping call is split at the sleep.

Where the code does not do what its comments or its users take it to do, the model follows the code
and a lemma says exactly when the promise holds:

- `mkfs` gives the log one block fewer than `begin_op` reserves, so an operation within its budget can
  panic (`GroupCommit.ReservationExact`). `log_write` tests for a full list before it takes the lock, so
  two operations can pass for the last block and the list outgrows the log region
  (`GroupCommit.ListFitsExactly`). The test also comes before absorption (`GroupCommit.PanicExactly`,
  `GroupCommit.AgainPanics`). `begin_op` does not count what the active operations have spent, so it can
  refuse although there is room (`GroupCommit.BeginExactly`, `GroupCommit.RefusedWithRoom`).
- There are as many buffers as the list of a transaction has places. A list of that many blocks pins them
  all, and the commit panics for want of a buffer before it has written anything. In the log of `mkfs` this
  is what becomes of a list that has outgrown the region, and a larger log comes to it without that
  (`BufferCache.NoBufferExactly`, `CommitBuffers.StuckCommit`).
- `mkfs` gives the root directory a size that speaks of a block that is not there if the entries fill
  their last block. A process that reads the directory to its end then makes `bmap` take a block that
  is lost when the inode is forgotten (`Mkfs.AlwaysOwnedExactly`, `InodeCalls.OwnedExactly`,
  `Mkfs.ThirtyFiles`).
- `sem_acquire` does not look at the value again after its sleep, so the value can become negative and
  two neighbours can eat with the same fork (`Permits.NonNegativeExactly`, `Philosophers.OneHandExactly`,
  `Philosophers.OneHandForOneRound`, `Philosophers.NeighboursEatTogether`).
- A process that is killed in `sem_acquire` leaves its entry in the queue, and the wakeup that the entry
  draws is lost for the next sleeper (`Semaphore.OrderlyExactly`, `Semaphore.StrandedByKill`).
- `malloc` computes its unit count in 32 bits and passes `sbrk` a signed byte count
  (`Heap.NUnitsExact`, `Heap.SbrkArgumentExact`).
- `change_file_size` beyond the largest file sets a size that the inode cannot map, and its type check
  reads an inode that may not have been filled (`FileCalls.ChangeFileSize`).
- A killed writer that finds the pipe full returns without waking the readers of what it has put in
  (`PipeSleepers.StepKeepsExactly`, `PipeSleepers.StrandedReader`).
- The shell opens the file of `>>` as it opens that of `>` (`ShellRedirs.AppendIsOverwrite`,
  `ShellRedirs.ModesDecided`).

## Model

| member | source | states |
|---|---|---|
| `LogDisk.RecoveredMeaning` | xv6/log.c:115-122 | recovery leaves every home block that the header lists as its log copy, every other as it was, and an empty header |
| `LogDisk.RecoveryInterrupted` | xv6/log.c:69-122 | if recovery is cut off after any number of its block writes, a later recovery ends with the same home blocks |
| `LogDisk.Interrupted` | xv6/log.c:69-122 | the same for any number of interrupted recoveries in a row |
| `LogDisk.InstallPrefix` | xv6/log.c:69-82 | after any number of the writes of install_trans the blocks that they name hold their log copies, the i-th block that behind the header, and nothing else has changed |
| `LogDisk.CopiesPlaced` | xv6/log.c:177-190 | write_log puts the i-th block of the list into the i-th block behind the header and changes nothing else |
| `LogDisk.CommitPrefix` | xv6/log.c:177-202 | after any number of the block writes of a commit: which log copies are made, which of the three headers stands, and which homes have their new contents |
| `LogDisk.CommitStateMeaning` | xv6/log.c:69-122 | what recovery makes of each such disk: the old home blocks up to the last log copy, all the new ones from the header on |
| `LogDisk.CommitPhases` | xv6/log.c:192-202 | the writes of write_log, write_head, install_trans and write_head, one after the other, are the writes of the commit |
| `LogDisk.CommitCompletes` | xv6/log.c:192-202 | a commit that is not cut off installs every logged block at home and clears the header |
| `LogDisk.CommitCrashAtomic` | xv6/log.c:192-202 | a crash after any number of block writes of a commit, then recovery: the home blocks are all old or all new, and all new exactly if the header had been written |
| `LogDisk.CommitCrashTheorem` | xv6/log.c:69-202 | the same when the recovery is itself interrupted any number of times |
| `Log.Log.WriteHead` | xv6/log.c:101-113 | one block write, which puts the count and the list in memory into the header on disk and leaves its other words |
| `Log.Log.InstallTrans` | xv6/log.c:69-82 | the block writes are the log copies to their homes, in order |
| `Log.Log.ReadHead` | xv6/log.c:85-96 | the list in memory is the one on disk |
| `Log.Log.RecoverFromLog` | xv6/log.c:115-122 | its block writes are the recovery writes, so the disk ends as the recovered one |
| `Log.Log.BeginOp` | xv6/log.c:125-141 | an operation is let in exactly if no commit runs and its reservation fits; otherwise nothing changes |
| `Log.Log.LogWriteTest` | xv6/log.c:218-221 | panics exactly on a full log or outside a transaction |
| `Log.Log.LogWriteAppend` | xv6/log.c:223-232 | the block is listed once and pinned, and a block listed already keeps its place |
| `Log.Log.WriteLog` | xv6/log.c:177-190 | the block writes are the cached contents of the listed blocks into the log, in order |
| `Log.Log.Commit` | xv6/log.c:192-202 | its block writes are those of the commit, in order, and none for an empty list; afterwards the list is empty and every logged block is at home |
| `Log.Log.EndOp` | xv6/log.c:145-163 | the last operation to end starts a commit; any other only leaves |
| `Log.Log.FinishCommit` | xv6/log.c:165-173 | ends the commit and lets operations in again |
| `GroupCommit.StepKeepsExactly` | xv6/log.c:125-233 | every step of concurrent operations, commits and crashes keeps: committing only with no operation active, distinct logged blocks that fit the log, log space for all unspent budgets, and a cache that is the durable disk with the pending writes on it; except exactly an append of a new block to a list that fills the log region |
| `GroupCommit.NeverOverruns` | xv6/log.c:131-132 | with at least LOGSIZE + 1 log blocks that append cannot happen, whoever comes between test and append |
| `GroupCommit.RunSafe` | xv6/log.c:125-233 | the invariant in every state of every run, for at least LOGSIZE + 1 log blocks; in a smaller log until an append goes past the end of the region |
| `GroupCommit.AllDurable` | xv6/log.c:145-173 | in every run, with no operation active and no commit under way, nothing is pending: all that was ever written is durable |
| `GroupCommit.CrashTheorem` | xv6/log.c:53-233 | in the same runs, after a crash at any block write the home blocks are the durable ones, or, if the header was written, those with all pending writes, every one by an operation that had ended |
| `GroupCommit.PanicExactly` | xv6/log.c:218-219 | with enough log blocks a block that is new to the operation never panics, and logging one again panics exactly if the list is full |
| `GroupCommit.AgainPanics` | xv6/log.c:218-228 | a run, in a log of any size, in which an operation within its budget logs its own block again and panics |
| `GroupCommit.ListFitsExactly` | xv6/log.c:218-229 | in every interleaving the list fits the log region if and only if the region has at least LOGSIZE + 1 blocks, or one; otherwise two operations pass the test for the last block |
| `GroupCommit.ReservationExact` | xv6/mkfs.c:25 | the reservation of begin_op rules out "too big a transaction" for operations within their budgets if and only if the log has at least LOGSIZE + 1 blocks |
| `GroupCommit.BeginExactly` | xv6/log.c:125-141 | begin_op lets an operation in if and only if no commit runs and, whatever the active operations have logged within their budgets, what is left of those and the new budget fits LOGSIZE |
| `GroupCommit.RefusedWithRoom` | xv6/log.c:131-132 | with 20 blocks listed and one operation that has spent its budget, it refuses although the new budget fits |
| `FreeList.FreeKeeps` | xv6/umalloc.c:24-44 | putting a used block back keeps one sorted ring with no two touching free blocks, and the used and free blocks partition the heap |
| `FreeList.TakeKeeps` | xv6/umalloc.c:76-77 | the same for taking a whole free block |
| `FreeList.SplitKeeps` | xv6/umalloc.c:78-82 | the same for cutting the tail off a free block |
| `FreeList.ExtendKeeps` | xv6/umalloc.c:46-61 | the same for a new region from sbrk, which enters as a used block |
| `FreeList.RunInOneBlock` | xv6/umalloc.c:33-42 | a run of units that nobody uses lies inside one free block: coalescing is complete |
| `FreeList.HistoryIndependent` | xv6/umalloc.c:24-90 | the free list with its sizes depends only on the heap and the blocks in use, not on the calls that led there |
| `FreeList.RoomAfterExtend` | xv6/umalloc.c:86-88 | after a new region is freed there is a block large enough, so malloc asks for more memory at most once |
| `Heap.NUnitsExact` | xv6/umalloc.c:69 | the unit count in 32-bit arithmetic covers the bytes asked for if and only if nbytes is at most 2^32 - 8; then no smaller count does, and beyond that it is 1 |
| `Heap.SbrkArgumentExact` | xv6/umalloc.c:54 | the byte count reaches sbrk as a positive int if and only if there are fewer than 2^28 units |
| `Heap.Heap.FindSlot` | xv6/umalloc.c:30-32 | the search of free ends, at the node after which the block belongs in address order |
| `Heap.Heap.Relink` | xv6/umalloc.c:33-42 | both borders of the block are coalesced |
| `Heap.Heap.Free` | xv6/umalloc.c:24-44 | exactly the freed block leaves the used ones, the list stays valid, and the next search starts from the last free block below it |
| `Heap.Heap.Morecore` | xv6/umalloc.c:46-61 | at least 4096 units are added and freed, or 0 is returned and nothing changes |
| `Heap.Heap.Carve` | xv6/umalloc.c:75-84 | exactly the wanted units at the end of a fitting block are taken and enter the used blocks |
| `Heap.Heap.Search` | xv6/umalloc.c:74-89 | one turn around the ring finds the first fitting block behind freep or shows that there is none |
| `Heap.Heap.Malloc` | xv6/umalloc.c:63-90 | a block of the right size becomes used, the others stay; if any free block fits, it is the end of the first one behind freep; 0 only if nothing fits and sbrk fails, and sbrk is called at most once |
| `BufferRing.Unlink` | xv6/bio.c:132-133 | taking a buffer out of the links leaves a ring of the others in their order |
| `BufferRing.PushFront` | xv6/bio.c:134-137 | linking a buffer in behind head gives a ring with it in front |
| `BufferCache.StepKeeps` | xv6/bio.c:61-141 | every step keeps: one ring of all buffers in order of last release, at most one buffer per block with dev not 0, counts equal to the processes that wait for a buffer, hold it or are giving it up, and cached data that agree with the stored ones |
| `BufferCache.RunSafe` | xv6/bio.c:38-141 | the invariant in every state of every run |
| `BufferCache.ViewIsLastStored` | xv6/bio.c:96-116 | what a block reads as is what was last stored for it |
| `BufferCache.Transparent` | xv6/bio.c:96-106 | every bread in every run returns the last value stored for its block, as if there were no cache |
| `BufferCache.RekeyedOnlyWhenFree` | xv6/bio.c:78-91 | a buffer changes its block only while it has no reference and is not dirty |
| `BufferCache.ReleaseKeepsLru` | xv6/bio.c:120-141 | moving a released buffer to the front keeps the ring in order of last release |
| `BufferCache.NoBufferExactly` | xv6/bio.c:78-92 | with the blocks of a list pinned and nobody else in the cache, a buffer for another block is found if and only if the list has fewer than NBUF blocks |
| `BufferCache.PinAll` | xv6/log.c:177-190 | a run from the empty cache that reads, pins and releases the blocks of any list of up to NBUF; bread of a log block then panics if and only if there are NBUF of them |
| `CommitBuffers.FullList` | xv6/log.c:213-233 | in a log of at least LOGSIZE blocks, that of mkfs among them, operations within their budgets fill the list with any LOGSIZE home blocks |
| `CommitBuffers.CommitFindsBuffer` | xv6/param.h:11-12 | a list with its blocks pinned has at most LOGSIZE blocks, and a commit of it finds a buffer for its first log block if and only if it has fewer |
| `CommitBuffers.StuckCommit` | xv6/log.c:177-202 | for every log of at least LOGSIZE blocks a run that fills the list and a run of the cache that pins its blocks, after which the first bread of write_log panics |
| `BufferCache.Bcache.constructor` | xv6/bio.c:38-56 | a ring of all buffers |
| `BufferCache.Bcache.Lookup` | xv6/bio.c:69-76 | finds the buffer of a block, or shows that none holds it |
| `BufferCache.Bcache.Victim` | xv6/bio.c:81-91 | finds the free, clean buffer whose last release is oldest, or shows that there is none |
| `BufferCache.Bcache.Bget` | xv6/bio.c:61-93 | a reference to the one buffer of the block, recycling the oldest free one if need be; a panic only if none is free |
| `BufferCache.Bcache.Iderw` | xv6/memide.c:38-60 | a dirty buffer is stored, an invalid one is filled; the panics of the disk are results |
| `BufferCache.Bcache.BreadLocked` | xv6/bio.c:96-106 | the buffer holds the stored value |
| `BufferCache.Bcache.Bwrite` | xv6/bio.c:109-116 | the value is stored and the buffer is clean |
| `BufferCache.Bcache.MarkDirty` | xv6/log.c:231 | the buffer is pinned |
| `BufferCache.Bcache.LockBuffer` | xv6/bio.c:73-88 | who has waited for the buffer holds it |
| `BufferCache.Bcache.BrelseLock` | xv6/bio.c:123-126 | the lock is given up and the reference kept; panics exactly if the buffer is not locked |
| `BufferCache.Bcache.Brelse` | xv6/bio.c:128-141 | the reference is dropped, and the last one moves the buffer to the front of the ring |
| `FsLayout.EntryPut` | xv6/fs.c:390-394 | writing one entry of an indirect block, in bytes, changes that entry only |
| `FsLayout.DecodeEncode` | xv6/fs.h:29-38 | an inode written in the disk format reads back as itself |
| `FsLayout.InodeFormat` | xv6/fs.h:29-41 | which bytes of the disk hold the fields of an inode, low byte first |
| `FsLayout.InodePut` | xv6/fs.c:226-234 | writing an inode into its block changes that inode only |
| `FsLayout.BitSwitched` | xv6/fs.c:66-68 | setting or clearing the bit of a mask changes that bit only and stays within the byte |
| `FsLayout.MarkPut` | xv6/fs.c:62-94 | setting or clearing a bit of the bitmap changes the mark of that block only |
| `FsLayout.BitmapFormat` | xv6/fs.c:62-68 | which bit of which byte of which block is the mark of a block |
| `Ownership.OwnedOnce` | xv6/fs.c:56-95 | a block in a slot of an inode is a marked data block and in no other slot, and every marked data block is in a slot or just handed out; with any number of inodes locked and ahead of the disk |
| `Ownership.AllocKeeps` | xv6/fs.c:56-78 | balloc hands out a data block that nobody owns and moves no slot |
| `Ownership.AttachDirect` | xv6/fs.c:378-388 | storing a new block in the inode keeps ownership exact |
| `Ownership.AttachEntry` | xv6/fs.c:389-396 | storing a new block in the indirect block keeps ownership exact and changes one slot |
| `Ownership.StoreKeeps` | xv6/fs.c:498-504 | writing a data block changes no slot of any inode |
| `Ownership.UpdateKeeps` | xv6/fs.c:220-236 | iupdate makes the inode on disk the one in memory and changes no other |
| `Ownership.LockKeeps` | xv6/fs.c:287-312 | locking another inode keeps ownership |
| `Ownership.NextIsMarked` | xv6/fs.c:414-431 | each block that itrunc comes to is still marked, so "freeing free block" cannot happen |
| `Ownership.TruncKeeps` | xv6/fs.c:407-435 | clearing exactly the marks of the blocks of the inode keeps ownership exact for the others |
| `Ownership.DetachDirect` | xv6/fs.c:414-419 | freeing one block of addrs keeps ownership exact, also with other inodes locked |
| `Ownership.DetachEntry` | xv6/fs.c:421-428 | the same for one entry of the indirect block, if the entry is cleared with it (the code leaves it in the block, which it frees last) |
| `Inodes.StepKeepsExactly` | xv6/fs.c:56-435 | every step of processes with inodes of their own locked keeps: each block in one slot of one inode, marks that are exactly the owned, the spare and the metadata blocks, and spare blocks that are zero and given to one process; except exactly forgetting an inode that has other blocks in memory than on the disk. An entry of the indirect block is cleared as itrunc frees it |
| `Inodes.RunSafe` | xv6/fs.c:56-435 | the invariant in every state of every interleaving, until an inode is forgotten that has other blocks in memory than on the disk |
| `Inodes.OwnedInEveryRun` | xv6/fs.c:56-435 | in the same states a block number in a slot is that of a marked data block and in no other slot, so "freeing free block" cannot happen, and every marked data block is in a slot or just handed out |
| `InodeCalls.PutMeans` | xv6/fs.c:372-400 | when bmap is done with a block of a file, the file has there the block that balloc gave, and its other blocks where they were |
| `InodeCalls.WriteEnds` | xv6/fs.c:506-510 | writei ends with the larger of the old size and the end of the write, and the inode goes to the disk exactly if the size has grown |
| `InodeCalls.StepTidy` | xv6/fs.c:287-511 | in the order in which readi, writei and itrunc take these steps, no step forgets a block as long as every inode has the addresses that its size needs, and every step keeps it so |
| `InodeCalls.RunTidy` | xv6/fs.c:287-511 | from an image in which every inode has those addresses, that and the invariant of ownership in every state of every run of the calls |
| `InodeCalls.LostInHole` | xv6/fs.c:372-400 | on an image with an inode that lacks an address that its size needs, a run in which a process reads there, after which the block that bmap took is marked and in no slot |
| `InodeCalls.OwnedExactly` | xv6/fs.c:287-511 | every run of the calls over an image with two free blocks keeps each block with its one owner if and only if every inode has the addresses that its size needs |
| `FileBytes.KeptBytes` | xv6/fs.c:469-474 | an inode whose blocks are kept stands for the same bytes |
| `FileBytes.WriteStep` | xv6/fs.c:498-504 | one round of the copy loop puts its bytes in place and leaves every other byte of every file |
| `FileBytes.WriteDone` | xv6/fs.c:481-511 | after the last round the file is overlaid, the other files and inodes are the same, the inode on disk is the one in memory and there are no holes |
| `FileBytes.WroteTwice` | xv6/file.c:136-153 | two writes, the second where the first ended, are one |
| `FileBytes.WroteMeans` | xv6/fs.c:481-511 | after a write the bytes written read back, the rest of the file reads as before, and its length is the larger of the old one and the end of the write |
| `FileBytes.DirectFormat` | xv6/fs.c:372-388 | which byte of the disk is byte x of a file, for the first twelve blocks |
| `FileBytes.IndirectFormat` | xv6/fs.c:389-396 | the same behind them, by the word of the indirect block, low byte first |
| `Fs.FileSystem.Balloc` | xv6/fs.c:56-78 | the lowest unmarked block is marked and zeroed and is never 0 or metadata; a panic only on a full disk |
| `Fs.FileSystem.Bfree` | xv6/fs.c:81-95 | clears the mark of the block only; panics exactly if it is not marked |
| `Fs.FileSystem.Iupdate` | xv6/fs.c:220-236 | the bytes of the inode, field by field, become those of the one in memory |
| `Fs.FileSystem.Ilock` | xv6/fs.c:287-312 | the inode is read from disk and no file changes; panics exactly on a free inode |
| `Fs.FileSystem.Bmap` | xv6/fs.c:372-400 | the block is there, zeroed if new, and no other data block of any file has moved or changed; what it logs; it panics only out of range or on a full disk |
| `Fs.FileSystem.Itrunc` | xv6/fs.c:407-435 | the file is empty, exactly its blocks are free again, and the other files are untouched |
| `Fs.FileSystem.Iput` | xv6/fs.c:332-352 | the last reference to an unlinked file frees its blocks and the inode; otherwise nothing changes |
| `Fs.FileSystem.Readi` | xv6/fs.c:452-476 | the bytes of the file from off on, clipped to its size, and nothing else changes; fails exactly if off is beyond the size or off + n wraps around |
| `Fs.FileSystem.Writei` | xv6/fs.c:481-511 | the file is overlaid with the bytes at off and everything else stays; fails exactly if off is beyond the size or the end is beyond the largest file; only the blocks that it logs change, and a bound on them |
| `Fs.LogBound` | xv6/fs.c:481-511 | the blocks that a write logs are at most the data blocks, a bitmap block for each new one and the indirect block, and the inode |
| `MkfsImage.SuperValid` | xv6/mkfs.c:23-108 | the super block of mkfs is a layout with the inodes at 32, the bitmap at 58 and the data from nmeta, 59, on |
| `MkfsImage.MarkingBlocks` | xv6/mkfs.c:237-251 | with its bitmap written the image has exactly the blocks below freeblock marked, and the same inodes and data |
| `MkfsImage.TakeBlock` | xv6/mkfs.c:275-285 | freeblock++ hands out a zero data block that nobody owns |
| `MkfsImage.TakesNext` | xv6/mkfs.c:268-285 | the blocks that the next round of iappend takes are those by which the need of the file grows |
| `MkfsImage.ExactAddrs` | xv6/mkfs.c:268-285 | a file has exactly the addresses that its bytes need |
| `MkfsImage.RootRounded` | xv6/mkfs.c:158-163 | rounding up the size of the root directory leaves no hole if and only if its bytes do not fill their last block |
| `Mkfs.Bitmap` | xv6/mkfs.c:237-251 | exactly the first used bits of the block are set |
| `Mkfs.Image.constructor` | xv6/mkfs.c:106-115 | an image without files in which no data block is owned |
| `Mkfs.Image.Ialloc` | xv6/mkfs.c:223-235 | a new, empty file with the type and one link, and the other files and inodes as they were |
| `Mkfs.Image.BlockFor` | xv6/mkfs.c:268-286 | the block of the file is there, taken in order if it was not, and no other data block has moved; fails exactly if the image has too few blocks left |
| `Mkfs.Image.Iappend` | xv6/mkfs.c:255-297 | the bytes follow those of the file, no other file and no type or link count changes, and each block has one owner and each file exactly the blocks that it needs; fails exactly if they go beyond the largest file or need more blocks than the image has left |
| `Mkfs.Image.AddBytes` | xv6/mkfs.c:152-153 | the same for a whole file, a buffer at a time |
| `Mkfs.Image.Finish` | xv6/mkfs.c:158-165 | every marked block is metadata or has one owner, and the files are as they were; the root directory has a hole exactly if its bytes fill their last block |
| `Mkfs.Make` | xv6/mkfs.c:106-165 | the image is made if and only if the inodes, the blocks and the largest file are enough for the files and their directory; it holds a directory and every file byte for byte, each with its type and one link, with exact ownership; there is a hole, behind the bytes of the directory, if and only if the number of entries is a multiple of 32 |
| `Mkfs.DirectoryMeans` | xv6/mkfs.c:120-148 | entry k of the directory is the inode number, low byte first, and the name: the root twice, then the files in order |
| `Mkfs.Mount` | xv6/fs.c:287-312 | such an image is one on which the file system calls start |
| `Mkfs.RunsStart` | xv6/fs.c:56-435 | every such image, with or without the hole, is where the runs of processes start |
| `Mkfs.HoleExactly` | xv6/mkfs.c:158-163 | every inode of such an image has the addresses that its size needs if and only if the number of entries is not a multiple of 32 or fills more than NDIRECT blocks |
| `Mkfs.AlwaysOwnedExactly` | xv6/mkfs.c:158-163 | every run of the calls over such an image, with two blocks left, keeps each block with its one owner if and only if the same holds |
| `Mkfs.ThirtyFiles` | xv6/mkfs.c:106-165 | mkfs makes an image of thirty empty files, and over it there is a run that loses a block |
| `FileCalls.ChunkFits` | xv6/file.c:128-134 | a chunk of filewrite logs at most MAXOPBLOCKS blocks, wherever it starts |
| `FileCalls.ChunkLargest` | xv6/file.c:128-134 | a chunk can come to MAXOPBLOCKS by this count, and one a block longer exceeds it wherever it starts |
| `FileCalls.WriteChunk` | xv6/file.c:137-152 | one chunk is one transaction of at most MAXOPBLOCKS blocks |
| `FileCalls.Filewrite` | xv6/file.c:118-157 | all bytes are in the file and the offset has moved past them; or, exactly if the range starts behind the end or ends beyond the largest file, as many whole chunks as fit; after each transaction the file holds a whole number of chunks, and only the blocks that the transaction logs have changed |
| `CrashedWrites.ReplayIsNext` | xv6/log.c:177-202 | the blocks that a transaction logs, written home over the disk before it, give the disk after it |
| `CrashedWrites.WholeTransactions` | xv6/log.c:69-202 | a power failure at any block write while transactions go through the log one after the other, and any number of failed recoveries: the home blocks are those after a whole number of transactions, the committed ones or one more |
| `CrashedWrites.SameFromInodes` | xv6/fs.h:4-27 | two disks that agree from the inode blocks on hold the same files |
| `CrashedWrites.CrashedFilewrite` | xv6/file.c:118-157 | a power failure at any point of filewrite leaves the file with its old contents and a whole number of chunks of the write, and every other file as it was |
| `FileCalls.ChangeFileSize` | xv6/file.c:159-221 | refuses exactly on a negative length, a path that names nothing, or a type in the cache that is not that of a file; up to the largest file exact truncation or padding with zeros; beyond it the inode says a size that it cannot map; no other file or inode changes; a stale type lets directories through, and devices get a size without bytes |
| `FileCalls.FitMeans` | xv6/file.c:183-221 | the resized file has the new length, its old bytes as far as they go, and zeros behind them |
| `Kmem.FreePush` | xv6/kalloc.c:70-74 | a page put in front keeps the links a list of distinct pages |
| `Kmem.FreePop` | xv6/kalloc.c:89-91 | a page taken from the front is not on the list that is left |
| `Kmem.Machine.Kfree` | xv6/kalloc.c:60-77 | the page is filled with junk and becomes the first free one; panics exactly on a misaligned address or one outside the managed memory |
| `Kmem.Machine.Kalloc` | xv6/kalloc.c:83-95 | the first free page, or 0 exactly if there is none |
| `Kmem.Machine.Freerange` | xv6/kalloc.c:46-53 | exactly the whole pages of the range become free |
| `PageTable.SpaceFrame` | xv6/vm.c:35-55 | an address space depends on the pages of its directory and tables only |
| `PageTable.MmuIs` | xv6/vm.c:45-53 | what the processor lets the user and the kernel do at an address, by the flags of both the directory and the table entry, is what the table entry says, in every address space of these modules |
| `PageTable.SetPtes` | xv6/vm.c:69-73 | setting one entry changes the mapping of one virtual page |
| `Vm.Walk` | xv6/vm.c:35-55 | finds the table of a virtual page or adds an empty one from the free list, with all permissions in its directory entry; fails exactly if there is none and none is wanted or no page is left |
| `Vm.WalkedSound` | xv6/vm.c:45-53 | adding a table maps nothing and loses no page |
| `Vm.Mappages` | xv6/vm.c:60-80 | exactly the virtual pages of the range are mapped, to consecutive frames, also up to the top of the 32-bit space; out of memory or an already mapped page stops it there |
| `Vm.ByPageFrees` | xv6/vm.c:265-277 | the page-by-page loop frees exactly the present pages of the range |
| `Vm.UnmapSkip` | xv6/vm.c:266-268 | the jump over a missing table skips only pages that are not there |
| `Vm.Deallocuvm` | xv6/vm.c:255-279 | with its jumps it leaves the free list and the mappings of a page-by-page loop |
| `Vm.UnmappedAccess` | xv6/vm.c:255-279 | afterwards every access to a page from newsz up to oldsz faults, and every one below newsz goes where it went |
| `Vm.Freevm` | xv6/vm.c:283-298 | every page of the space is on the free list, once, and no other page is touched |
| `UserVm.KernelMore` | xv6/vm.c:105-135 | each entry of kmap maps its range and leaves the ranges before it |
| `UserVm.Setupkvm` | xv6/vm.c:118-136 | a space with exactly the kernel's mappings, or the set of free pages as it was |
| `UserVm.KernelAccess` | xv6/vm.c:105-135 | the kernel reaches all physical memory from KERNBASE on and the devices, each at its place, but may not write its text; the user reaches nothing there |
| `UserVm.Copyuvm` | xv6/vm.c:315-345 | a child with equal pages and flags on frames that the parent does not own, and the parent as it was; or the set of free pages as it was; a panic means that a page below sz is missing |
| `UserVm.CopiedAccess` | xv6/vm.c:315-345 | below sz the child may make exactly the accesses that the parent may, and reads the same words |
| `UserVm.Allocuvm` | xv6/vm.c:221-249 | zero pages that the user may write, from the rounded old size to the new one; or none of them, and no page lost |
| `UserVm.GrownAccess` | xv6/vm.c:221-249 | the user may read and write every address below newsz whose page lies behind oldsz, and reads zeros there |
| `UserVm.GrownBelow` | xv6/vm.c:221-249 | every access below oldsz goes where it went |
| `ExitWait.StepKeeps` | xv6/proc.c:141-388 | every step of fork, exit, wait, sleep, wakeup and kill keeps: parents are alive, forks work on slots of their own, and a process asleep in wait has a child and no zombie child |
| `ExitWait.PatientExit` | xv6/proc.c:303-344 | exit wakes everyone whose wait it ends |
| `ExitWait.RunSafe` | xv6/proc.c:141-388 | the invariant in every state of every run |
| `ExitWait.Lifecycle` | xv6/proc.c:141-660 | every step moves every slot along the life of a process: which step leads from each state to which other, and no step any other way; a sleeper wakes exactly by a wakeup on its channel, a kill of it, or the exit that ends its wait |
| `ExitWait.LifeFields` | xv6/proc.c:572-660 | only falling asleep changes a channel, and only kill marks a process, until it is reaped |
| `ExitWait.ForkDone` | xv6/proc.c:257-300 | when fork is done the child is runnable, has the caller for its parent, and a pid that nobody else has |
| `ExitWait.NoOrphans` | xv6/proc.c:331-338 | every live or zombie process but init has a live parent |
| `ExitWait.NoExitMissed` | xv6/proc.c:348-388 | the parent of a zombie is not asleep in wait, and its next pass over the table collects a child |
| `ExitWait.NobodySleepsOn` | xv6/proc.c:621-638 | in every run, right after a wakeup nobody sleeps on its channel |
| `ExitWait.ReapedOnce` | xv6/proc.c:303-388 | no pid is reaped twice or before it exits, and one that has exited is reaped or still a zombie |
| `ProcTable.Table.Wakeup1` | xv6/proc.c:621-628 | for every channel, exactly the sleepers on it become runnable, with their other fields kept, and no other slot changes |
| `ProcTable.Table.Exit` | xv6/proc.c:303-344 | the parent is woken, the children pass to init, which is woken if one is a zombie, and the process is a zombie; panics exactly for init |
| `ProcTable.Table.WaitPass` | xv6/proc.c:356-383 | the first zombie child is reaped; without one, whether to return or to sleep |
| `ProcTable.Table.AllocProc` | xv6/proc.c:141-159 | the first unused slot gets the next pid; none only if all are in use |
| `ProcTable.Table.KillPid` | xv6/proc.c:642-660 | the first slot with the pid is marked and woken; otherwise none has it |
| `Scheduler.FixQueues` | xv6/proc.c:399-409 | exactly the runnable processes that have waited for 8000 ticks move to queue 1 with the present time stamp; all else stays |
| `Scheduler.RoundRobin` | xv6/proc.c:412-431 | the first process that has waited longest in queue 1; none if and only if nobody there has waited at all |
| `Scheduler.Lottery` | xv6/proc.c:461-478 | the process whose range of tickets holds the winning one |
| `Scheduler.EveryTicketWins` | xv6/proc.c:461-478 | each process in the lottery wins for exactly as many tickets as it has |
| `Scheduler.BestJobFirst` | xv6/proc.c:442-459 | the first process of least rank in queue 3; none if and only if all ranks reach the limit |
| `Scheduler.RankLinear` | xv6/proc.c:433-440 | each part of the rank counts with its own ratio |
| `Scheduler.Dispatch` | xv6/proc.c:491-509 | the aged table with the chosen process, which was runnable, running with a fresh time stamp |
| `Scheduler.QueueOrder` | xv6/proc.c:493-503 | queue 1 before queue 2 before queue 3: who is passed over, and when nobody is picked |
| `Scheduler.AheadShrinks` | xv6/proc.c:480-519 | each dispatch of another process takes it out of those ahead of a waiting one |
| `Scheduler.BoundedOvertaking` | xv6/proc.c:399-519 | while a process waits in queue 1, other dispatches are at most as many as the processes that came no later, and fewer than NPROC |
| `Scheduler.TurnComes` | xv6/proc.c:399-519 | a pass of the scheduler picks the waiting process or one ahead of it; with nobody ahead, the waiting process |
| `Scheduler.StarvingRises` | xv6/proc.c:399-519 | a runnable process of any queue that has waited for the threshold is in queue 1 after the next pass, and from the next tick on it waits there as above |
| `Scheduler.StarvingServed` | xv6/proc.c:399-519 | after that tick fewer than NPROC dispatches of others come before its own while it waits |
| `Semaphore.StepKeepsExactly` | xv6/proc.c:29-69 | every acquire, resumption, release and kill keeps the ledger, sleepers in the queue, and while anybody sleeps a value of at most the woken but not resumed ones and the lost wakeups; except exactly an initialisation while somebody sleeps |
| `Semaphore.OrderlyExactly` | xv6/proc.c:642-655 | every step keeps the queue that of the sleepers, each once, and loses no wakeup; except exactly a kill of a sleeper |
| `Semaphore.RunSafe` | xv6/proc.c:29-69 | both in every state of every run that has no such initialisation, and for the second no such kill |
| `Semaphore.FirstUnits` | xv6/proc.c:29-52 | after an initialisation with v units and nobody asleep, the first v processes get in without sleeping and the next one sleeps |
| `Semaphore.NobodyStranded` | xv6/proc.c:54-69 | with everybody who was woken back at work, a sleeper means that at least as many acquires as the initial value are outstanding, but for one per lost wakeup, and none is lost if no sleeper is killed |
| `Semaphore.StrandedByKill` | xv6/proc.c:54-65 | a run with a kill after which a process sleeps although the value is 1 and nobody has been woken |
| `Semaphore.FirstComeFirstServed` | xv6/proc.c:42-65 | in every run releases take processes off the queue in the order in which they fell asleep |
| `Permits.NonNegativeExactly` | xv6/proc.c:42-49 | among n processes that hold at most one unit each and release only what they hold, the value is not negative in any run if and only if it starts at 0 or at n or more |
| `Permits.BelowZero` | xv6/proc.c:42-49 | for more processes than units, a run in which the value is -1 |
| `Permits.RunSafe` | xv6/proc.c:37-69 | in every such run the value is the number of units less the holders, and nobody holds and waits |
| `Semaphore.RingPush` | xv6/proc.c:44-46 | the ring with the new entry reads as the queue with it at the end |
| `Semaphore.RingPop` | xv6/proc.c:61-63 | the ring without its front reads as the rest of the queue |
| `Semaphore.SemEntry.Initialise` | xv6/proc.c:29-34 | the value is the argument and the queue is empty, whoever sleeps; the entry stays valid exactly if nobody does |
| `Semaphore.SemEntry.Acquire` | xv6/proc.c:37-52 | takes the semaphore, or joins the end of the queue exactly if the value is not positive |
| `Semaphore.SemEntry.AcquireAfterSleep` | xv6/proc.c:47-52 | takes the semaphore without another look at the value |
| `Semaphore.SemEntry.ReleaseOne` | xv6/proc.c:54-69 | gives it back and calls the front of the queue exactly if the value is then positive, which wakes it if it sleeps |
| `Philosophers.MoveKeeps` | xv6/phillsofs.c:8-25 | every move keeps the value of each fork at one less its holders, and the sleepers of a fork in the middle of taking it |
| `Philosophers.RunSafe` | xv6/phillsofs.c:8-40 | the invariant in every state of every run, for any number of seats and rounds |
| `Philosophers.InitGame` | xv6/phillsofs.c:27-30 | resetting each fork to 1 with nobody at the forks is where the game starts |
| `Philosophers.RankIncreases` | xv6/phillsofs.c:10-17 | every philosopher takes the forks in increasing rank: odd forks, fork 0, other even forks |
| `Philosophers.NoDeadlock` | xv6/phillsofs.c:8-40 | in every reachable state with an unfinished philosopher somebody can move |
| `Philosophers.GameEnds` | xv6/phillsofs.c:8-25 | no run has more than six moves per philosopher and round |
| `Philosophers.EatsEveryRound` | xv6/phillsofs.c:8-25 | in every run, what a philosopher has eaten and has left to eat make up the rounds, and who is done has eaten in every one |
| `Philosophers.OneHandExactly` | xv6/phillsofs.c:8-25 | a move keeps every fork in one hand, except exactly that of a woken philosopher who finds the value at 0 |
| `Philosophers.OneHandForOneRound` | xv6/phillsofs.c:8-25 | at a table of any size no fork is ever in two hands if and only if the game has one round |
| `Philosophers.NeighboursEatTogether` | xv6/phillsofs.c:8-25 | a run of the five in which two neighbours eat at the same time |
| `PrimeFactor.Euclid` | xv6/proc.c:721-730 | a prime that divides a product and not one factor divides the other |
| `PrimeFactor.DivideOut` | xv6/proc.c:722-729 | dividing by the smallest divisor takes out a prime and keeps every other prime factor |
| `PrimeFactor.CounterFits` | xv6/proc.c:721 | the counter stays below 2^31 in every round, for every argument but 2147483647 |
| `PrimeFactor.LargestPrimeFactor` | xv6/proc.c:707-736 | the largest prime factor of a positive number below 2147483647, or -1 for 1; what a negative number gives |
| `Pipe.Buffer.constructor` | xv6/pipe.c:33-36 | an empty pipe with both ends open |
| `Pipe.Buffer.WriteSome` | xv6/pipe.c:83-98 | as many bytes as there is room for follow those written before, across the wrap-around of the counters; how the call goes on |
| `Pipe.Buffer.ReadSome` | xv6/pipe.c:105-121 | the oldest bytes not read yet, in order, at most n; sleeps exactly on an empty pipe that is open for writing |
| `Pipe.Buffer.Close` | xv6/pipe.c:59-75 | closes one end; the pipe is freed exactly when both are closed |
| `PipeSleepers.StepKeepsExactly` | xv6/pipe.c:59-121 | every step keeps: a sleeping reader means empty and open for writing, a sleeping writer full and open for reading; except exactly a killed writer that gives up after putting bytes in while a reader sleeps |
| `PipeSleepers.RunSafe` | xv6/pipe.c:59-121 | the invariant in every state of every run, until a killed writer gives up after putting bytes in while a reader sleeps |
| `PipeSleepers.NeverBothAsleep` | xv6/pipe.c:84-112 | in the same states readers and writers do not sleep at the same time |
| `PipeSleepers.PrefixGrows` | xv6/pipe.c:93-116 | in every run what is read is a growing prefix of what is written, and that only grows |
| `PipeSleepers.NeverOverfull` | xv6/pipe.c:85-93 | at most PIPESIZE bytes are in flight |
| `PipeSleepers.StrandedReader` | xv6/pipe.c:85-89 | a run in which a reader sleeps on a full pipe |
| `PipeSleepers.PipeWrite` | xv6/pipe.c:83-98 | what pipewrite does to the ring buffer between lock and sleep is the step of a writer in these runs |
| `PipeSleepers.PipeRead` | xv6/pipe.c:105-121 | the same for piperead |
| `Shell.Gettoken` | xv6/sh.c:265-308 | the token lies between the cursor and the new cursor, and a word is a maximal run of word characters |
| `Shell.ParseRedirs` | xv6/sh.c:374-397 | the cursor moves forward and every file name is a word of the line |
| `Shell.ParseArgs` | xv6/sh.c:429-445 | the same for the arguments, of which there are fewer than MAXARGS; what it returns is stated by `ParsesExactly` |
| `Shell.ParseLine` | xv6/sh.c:344-359 | on every line parsing ends, and a parsed command refers to words of the line only |
| `Shell.ParseCmd` | xv6/sh.c:327-342 | a parsed command uses up the whole line |
| `ShellGrammar.TokenMeans` | xv6/sh.c:262-308 | what gettoken finds, in characters: blanks skipped before and behind, and a symbol, >>, or the longest run of other characters |
| `ShellGrammar.LineSound` | xv6/sh.c:344-446 | whatever parseline returns is the meaning of a syntax tree whose tokens are those that it has read |
| `ShellGrammar.LineComplete` | xv6/sh.c:344-446 | every syntax tree whose tokens stand before a closing parenthesis or the end of the line is parsed as its meaning |
| `ShellGrammar.ParsesExactly` | xv6/sh.c:327-446 | a line parses to a command if and only if the command is the meaning of a syntax tree of the grammar with the tokens of the line, so there is at most one and a panic means that there is none; redirections may stand in front of, between and behind the arguments and keep their order |
| `ShellGrammar.EveryWordOnce` | xv6/sh.c:327-446 | the arguments and file names of a parsed command are exactly the words of the line, each once |
| `ShellPrint.SpellLexes` | xv6/sh.c:265-308 | tokens that are written down behind blanks are read back as those tokens |
| `ShellPrint.PrintedParses` | xv6/sh.c:327-446 | every command of legal words has a printed form, and parsing that gives the command back |
| `ShellPrint.ParseUndoesPrint` | xv6/sh.c:327-446 | for every syntax tree of legal words with at most 9 arguments each, the command that it stands for is what parsing its text gives, with nothing left over |
| `ShellRedirs.ModesDecided` | xv6/sh.c:374-397 | in every command that parses, a file is opened for writing if and only if the last character before its name that is not blank is >, and otherwise that character is < |
| `ShellRedirs.AppendIsOverwrite` | xv6/sh.c:288-397 | a line parses as it does with one of its >> made a >: to the same command at the same positions, or to a panic |
| `ShellParser.NextToken` | xv6/sh.c:265-308 | the loops of gettoken compute the token |
| `ShellParser.LookAhead` | xv6/sh.c:310-320 | the loop of peek |
| `ShellParser.Redirections` | xv6/sh.c:374-397 | the loop of parseredirs computes the list of redirections |
| `ShellParser.Arguments` | xv6/sh.c:429-445 | the loop of parseexec computes the command |
| `ShellParser.Line` | xv6/sh.c:344-359 | parseline with its loop computes the command |
| `ShellParser.PipeLine` | xv6/sh.c:361-372 | the same for parsepipe |
| `ShellParser.Command` | xv6/sh.c:415-446 | the same for parseexec |
| `ShellParser.Block` | xv6/sh.c:399-413 | the same for parseblock |
| `ShellParser.Nulterminate` | xv6/sh.c:449-493 | a NUL stands behind every word of the command, and the rest of the buffer is as it was |
| `ShellParser.OnlySeparators` | xv6/sh.c:463-473 | only characters that are not part of a word are overwritten |
| `ShellParser.WordsReadBack` | xv6/sh.c:449-493 | afterwards the C string at each word is its token |
| `ShellParser.ParseCommand` | xv6/sh.c:327-342 | parsecmd in place: the one reading of the line, or a panic with the buffer as it was exactly if there is none; every word reads back, and nothing but separators is overwritten |

## Left out

- Device code and assembly, console line editing and the printing of tables: their effects are on hardware or the screen.
- System-call argument fetching, user utilities and directories with path names: `ChangeFileSize` takes the inode that the path names.
- ChangeFileSize: the page that it takes for its zeros and never gives back, and the references that `namei` takes, are not modelled; what a device does with the zeros is not either.
- Filewrite: other processes that write the same file between two chunks are not modelled; each chunk by itself is `Writei`.
- Make: `mkfs` does not notice when it runs out of blocks or inodes and writes behind the image or the inode blocks; the model stops there.
- StepKeepsExactly: in `Inodes` the entries of an indirect block are cleared as itrunc frees them; the code leaves them in the block, which nobody reads any more and which it frees last. balloc is one step, although it marks and zeroes the block one after the other.
- DetachEntry: the same entry is cleared.
- OwnedExactly: a full disk, on which bmap panics, is outside it; the unlinking of a file is `Iput`.
- CrashedFilewrite: no other operation goes through the log meanwhile; `GroupCommit.CrashTheorem` is about those that do.
- LogWriteAppend: an append past the end of the log region is excluded; `GroupCommit.ListFitsExactly` says when it can come.
- RunSafe: in `Philosophers` nobody is killed and no fork is initialised again; `Semaphore` says what that would do to one semaphore.
- NoDeadlock: the same; a killed philosopher would leave with the forks it holds.
- Acquire: the ring of the queue overflows only if killed processes have left entries behind; that is excluded.
- LargestPrimeFactor: nothing is promised for the argument 2147483647, where the counter of the source overflows, and the argument 0, for which the source does not end, is excluded.
- Bget: a block of device 0 is excluded, because unused buffers carry that device number.
- Malloc: a request whose byte count would reach sbrk as a negative number is excluded; `SbrkArgumentExact` says which those are.
- Kfree: freeing a page that is already free is excluded; the code does not notice it.
- Freerange: the range lies in the managed memory and holds no free page, as at start-up.
- MmuIs: the TLB, which may remember an entry until the next switch of page tables, is not modelled.
- Deallocuvm: the old size is at most KERNBASE, as for every caller; above that the jump would wrap around.
- The order of locks between the scheduler's lottery and the timer, and freedom from deadlock across the kernel.
- The final loop of `start_game`, which waits for a result of 0 that `wait` never gives.
- The random number of the lottery is an input, and ranks are exact numbers rather than floats.
- Time slices, `exec`, `runcmd` and the forks by which the shell runs a parsed command.
- The kernel's `ialloc`, `iget` and the reference counts of cached inodes, beyond the one that `Iput` looks at.
- `loaduvm`, `copyout`, `inituvm` and `clearpteu`: they walk and set entries as the modelled calls do.
