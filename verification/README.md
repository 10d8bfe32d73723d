# Verified models of an xv6 kernel and a log-structured file system

This project models, in Dafny 4.11, the parts of the repository that are hardest to get right, and proves what
they are for. The xv6 code is that of `p5/xv6-public`; the log-structured file system is that of `p7`.

| files | what they model |
|---|---|
| `Blocks.dfy` | disk blocks as bytes, little-endian words and bitmap bits in them |
| `BufferCache.dfy` | `bio.c` over a synchronous disk: the buffer array, the circular doubly linked list, reference counts, valid and dirty flags |
| `Recycling.dfy` | runs of calls on that cache, and which buffer a miss recycles |
| `CrashRecovery.dfy` | the disk writes of `log.c` as steps between any two of which the machine may stop |
| `Log.dfy` | `log.c` on top of the buffer cache: `log_write`, `commit` and recovery as methods |
| `BlockStore.dfy` | the cache and the log as `fs.c` uses them: runs of `bread`, `log_write`, `brelse`, commits and crashes |
| `LogReservation.dfy` | `begin_op`, `log_write` and `end_op` of any number of operations, interleaved |
| `FsLayout.dfy`, `FileSystem.dfy`, `Mkfs.dfy`, `Truncate.dfy`, `FileWrite.dfy` | `fs.c` (block bitmap, inodes, direct and indirect block maps, `readi`, `writei`, `itrunc`), the empty image of `mkfs.c`, and `filewrite` of `file.c` |
| `Inodes.dfy` | all files at once: `ilock`, `ialloc`, the end of `iput`, and runs of calls over any inodes |
| `FsCrash.dfy` | those runs grouped into transactions that crash and recover |
| `Umalloc.dfy` | the user-level allocator of `umalloc.c`, section 8.7 of The C Programming Language, 2nd edition |
| `VmSpace.dfy`, `Vm.dfy` | two-level page directories of `vm.c` over the page pool of `kalloc.c` |
| `Process.dfy`, `Sleeplock.dfy`, `Pipe.dfy` | `proc.c`, `sleeplock.c` and `pipe.c` as steps under their locks |
| `Shell.dfy` | the tokenizer, the recursive-descent parser and `nulterminate` of `sh.c` |
| `ShellGrammar.dfy`, `ShellText.dfy` | the grammar of command lines, the meaning of its sentences and their spelling, without any of the parser, and the proof that the parser is exactly that |
| `Grep.dfy` | the matcher of `grep.c` |
| `Wfs.dfy` | the log and the names of `p7/mount.wfs.c` |

Code that changes state in place is a class or a method over an array, proved against a function of the old
state; the lemmas then speak about that function. Protocols are state machines, and their theorems hold in every
state that any sequence of steps reaches.

## Main results

- **Crash atomicity.** Cut `commit` after any number of its disk writes, then cut and restart recovery any number
  of times. After one complete recovery the file system holds all of the transaction or none of it, decided by
  whether the header write happened, and the header count is 0 (`CrashRecovery.CrashAtomic`). Over any sequence of
  transactions, cut anywhere, the disk is the one that the durable transactions alone would give
  (`CrashRecovery.HistoryAtomic`). `Log.FsLog.Commit` and `Log.FsLog.RecoverFromLog` issue exactly the writes those
  theorems are about, through a cache that never runs out of buffers.
- **One block map.** Over every run of reads, modifications, `log_write`s, releases, commits and crashes, a block reads as
  it was last modified, its home on disk holds the last commit, logged buffers are never recycled, and a crash recovers
  the last commit, or the whole of the commit in progress (`BlockStore.StoreSafe`).
- **Files through crashes.** From the fresh disk, over every sequence of transactions of file-system calls, each cut after
  any number of disk writes and recovered, every file is what the durable transactions alone make of it, and block
  ownership and the no-hole shape hold (`FsCrash.FilesSurvive`; without crashes, `Inodes.FilesSafe`).
- **Files.** `writei` runs out of blocks exactly when fewer are free than the file grows by; otherwise `readi` and `writei` are slice and splice on the content of a file, across the direct and indirect
  boundary; other files are untouched; no block is ever referenced twice and none leaks; the disk copy of the inode stays
  equal to the cached one even when `writei` skips `iupdate`; each `filewrite` chunk logs at most MAXOPBLOCKS blocks.
- **Allocators.** The user allocator keeps its ring in address order, coalesced, and its blocks a partition of the
  arena; `malloc` takes the tail of the first block with room after the last place, or the end of exactly the memory it
  adds. Page directories, page tables, user pages and the free list partition physical memory through every failure
  path; `deallocuvm` with its jump frees what a page-by-page loop frees; `copyuvm` copies bytes and flags to fresh pages;
  each of `allocuvm`, `setupkvm` and `copyuvm` fails exactly when a stated number of pages is not free.
- **Concurrency.** No wakeup is lost on a sleep-lock or between `exit` and `wait`; every process keeps a live parent and a
  pid of its own; an entry of the process table is marked killed exactly when a kill has hit it since it was last reaped;
  a pipe delivers the bytes written, in order, although its counters wrap.
- **Languages.** The shell's parser accepts a line, with tree t, if and only if the line spells a sentence of a grammar,
  with any blanks that keep its tokens apart, and that sentence means t (`ShellText.ParserExact`). The grammar has words and
  redirections in any order, blocks, pipelines, `;` and any number of `&`; neither it nor the meaning nor the spelling
  mentions the parser or the tokenizer. The trees it can produce are exactly the legal ones. `grep`'s matcher decides the
  declarative meaning of its patterns.
- **Recycling.** In every run of the buffer cache a miss recycles the idle buffer whose last release is the oldest
  (`Recycling.RecyclesOldest`).

## Where the code falls short

- `log_write` refuses a block when `log.lh.n >= log.size - 1`. No first write of a block is ever refused exactly when
  the highest fill of the log, `Peak`, is 0 or below `log.size` (`LogReservation.FirstWritesExact`). `mkfs.c:25` ships
  `nlog = LOGSIZE`, where operations of at most MAXOPBLOCKS distinct blocks each reach the panic
  (`LogReservation.ShippedConfiguration`).
- `log_write` tests for a full log before it looks whether the block is already there, so writing an already logged
  block again can panic too; `LogReservation.AllWritesExact` gives the exact condition.
- `malloc` computes its unit count in 32 bits, and `morecore` passes its byte count to `sbrk` as an int. The block handed
  out has room exactly for requests of at most 2^32 - 8 bytes; beyond that it is a bare header (`Umalloc.Allocator.Malloc`,
  `Umalloc.GrantsTooLittle`). Between 2^31 - 15 and 2^32 - 8 bytes, when no free block is large enough, `sbrk` is asked for
  less than `morecore` then uses; the contract of `Malloc` says exactly when, and `Umalloc.GoesWild` is such a call.
- A failed `allocuvm` unmaps and frees the whole range it was growing over. It leaves the mappings as they were if and only
  if nothing was mapped there (`Vm.FailedGrowthExact`); `Vm.LosesMapping` shows a page lost.
- `kill` does not look at the state of the entry whose pid it finds, so `kill(0)` marks an unused entry, and the process
  that fork puts there is born killed; `Process.ForkedExact` says exactly when that happens.
- `path_to_inode` of p7 walks at most 127 characters of a path, so it agrees with the tree if and only if the path is
  shorter than 128 characters or neither it nor what is left of it exists (`Wfs.PathExact`); `Wfs.LongPathLost` has an
  existing directory of 128 characters that is not found. `wfs_mknod`, `wfs_mkdir` and `wfs_write` then work on another
  inode or read through NULL, as the contracts of `Wfs.Mount.Create` and `Wfs.Mount.Write` say.
- `strcpy` of a name into a directory entry keeps every inode number if and only if the name is shorter than 32 bytes
  (`Wfs.DentryExact`); the code does not check. With 32 bytes the first inode created becomes the root (`Wfs.LeadsToRoot`).

## Model

| member | source | states |
|---|---|---|
| Blocks.WordOfPutWord | p5/xv6-public/log.c:102-112 | a 32-bit word stored in a block reads back, every other word of the block is untouched |
| Blocks.BitOfPutBit | p5/xv6-public/fs.c:55-95 | setting or clearing one bitmap bit changes that bit and no other |
| Blocks.WordBytes | p5/xv6-public/log.c:102-112 | a word of a block is four bytes, the least significant first |
| Blocks.BitAt | p5/xv6-public/fs.c:65-69 | bit i of the bitmap is worth 2^(i % 8) in byte i / 8, and setting or clearing it changes no other byte |
| BufferCache.ReadCorrect | p5/xv6-public/bio.c:61-106 | bread fails exactly when the block is not cached and every buffer is busy; otherwise it returns the latest content in a locked buffer, changes no content, and keeps one buffer per block |
| BufferCache.SetDataCorrect | p5/xv6-public/bio.c:96-106 | changing a held buffer's data changes the content of its block and of no other |
| BufferCache.WriteBackCorrect | p5/xv6-public/bio.c:108-116 | bwrite makes disk and buffer agree, clears the dirty flag, changes no content |
| BufferCache.ReleaseCorrect | p5/xv6-public/bio.c:118-141 | brelse keeps the cache invariant and every block's content, provided the buffer is dirty or agrees with the disk |
| BufferCache.PinCorrect | p5/xv6-public/log.c:213-233 | marking a held buffer dirty keeps the invariant and every content |
| BufferCache.ToFrontPermutation | p5/xv6-public/bio.c:120-141 | moving a buffer to the front of the list keeps the list a permutation of all buffers |
| BufferCache.DescendingLinked | p5/xv6-public/bio.c:38-56 | the links binit sets form one circular list of all buffers with next and prev inverse |
| BufferCache.UnlinkCorrect | p5/xv6-public/bio.c:120-141 | the two assignments that unlink a buffer leave a circular list of exactly the other buffers |
| BufferCache.PushFrontCorrect | p5/xv6-public/bio.c:120-141 | the four assignments that insert a buffer after the head give the circular list with it first |
| BufferCache.Bcache.constructor | p5/xv6-public/bio.c:38-56 | binit gives a valid empty cache over the disk |
| BufferCache.VictimExact | p5/xv6-public/bio.c:81-91 | the idle buffer with only busy ones behind it on the list is the one to be recycled |
| BufferCache.Bcache.Bget | p5/xv6-public/bio.c:61-93 | finds the cached buffer; or recycles the idle buffer that has only busy ones behind it on the list; or reports that there is none; keeps the list and its links valid |
| BufferCache.Bcache.Bread | p5/xv6-public/bio.c:95-106 | is the specified read: the same buffer chosen, the same new cache |
| BufferCache.Bcache.Bwrite | p5/xv6-public/bio.c:108-116 | writes the buffer to its block in one disk write and clears dirty |
| BufferCache.Bcache.Brelse | p5/xv6-public/bio.c:118-141 | drops the reference and, when it was the last, moves the buffer to the front of the list |
| Recycling.ToFrontRecent | p5/xv6-public/bio.c:127-138 | brelse's move keeps the list in the order of the last releases, latest first |
| Recycling.RunRecent | p5/xv6-public/bio.c:38-141 | in every state of every run from binit the list is in the order in which the buffers' last references were last dropped, latest first, and of the buffers never used the lowest number is last |
| Recycling.RecyclesOldest | p5/xv6-public/bio.c:78-91 | in every run, a miss changes one idle buffer, which then holds the block, and every other idle buffer was released later |
| CrashRecovery.HeadRoundTrip | p5/xv6-public/log.c:84-112 | a header block written from a list of block numbers reads back as that list; its words are the count, then the numbers in order, then what was there |
| CrashRecovery.Redo | p5/xv6-public/log.c:69-82 | redoing a list of writes after any prefix of it gives the same disk as doing it once |
| CrashRecovery.RecoveryPrefix | p5/xv6-public/log.c:115-122 | recovery cut after any number of writes leaves the same pending content; complete recovery leaves an empty header and content equal to the disk |
| CrashRecovery.BeforeHead | p5/xv6-public/log.c:177-202 | a commit cut before its header write leaves every home block at its old value |
| CrashRecovery.AtHead | p5/xv6-public/log.c:192-202 | once the header is written the disk stands for the whole transaction |
| CrashRecovery.DuringInstalls | p5/xv6-public/log.c:69-82 | a commit cut while installing still stands for the whole transaction |
| CrashRecovery.AfterErase | p5/xv6-public/log.c:192-202 | the erased header leaves the transaction installed and the log empty |
| CrashRecovery.CrashAtomic | p5/xv6-public/log.c:177-202 | all or nothing after any cut of commit and any number of cut recoveries, decided by the header write; header count 0 |
| CrashRecovery.HistoryAtomic | p5/xv6-public/log.c:115-122 | over every history of commits and crashes the home blocks are those of the durable transactions applied in order |
| Log.SomeIdle | p5/xv6-public/bio.c:61-93 | fewer busy blocks than buffers leaves a buffer to recycle |
| Log.FirstRead | p5/xv6-public/log.c:177-190 | while committing, reading a log block succeeds and touches no pinned buffer |
| Log.SecondRead | p5/xv6-public/log.c:69-82 | the second read of a copying round succeeds too and finds a pinned home block in the cache |
| Log.CommitTrace | p5/xv6-public/log.c:192-202 | the phases of commit together issue the commit writes in order |
| Log.PinnedMore | p5/xv6-public/log.c:213-233 | log_write keeps exactly the listed blocks pinned in dirty buffers |
| Log.FsLog.WriteLog | p5/xv6-public/log.c:177-190 | copies the latest content of every listed block, in order, to the log blocks and nothing else to disk |
| Log.FsLog.WriteHead | p5/xv6-public/log.c:100-113 | writes the header of the current list over the header block |
| Log.FsLog.InstallTrans | p5/xv6-public/log.c:68-82 | writes every log block home, in order, and unpins it |
| Log.FsLog.Commit | p5/xv6-public/log.c:192-202 | issues exactly the commit writes, leaves an empty list and no dirty buffer, cache equal to disk, every content unchanged; never without a buffer when the list is shorter than the cache |
| Log.FsLog.ReadHead | p5/xv6-public/log.c:84-96 | loads the list that the header block holds |
| Log.FsLog.RecoverFromLog | p5/xv6-public/log.c:115-122 | issues exactly the recovery writes and leaves an empty list |
| Log.FsLog.BeginOp | p5/xv6-public/log.c:125-142 | goes past its loop exactly when the reservation model admits the operation, and is its step |
| Log.FsLog.EndOp | p5/xv6-public/log.c:145-174 | is the end step of the reservation model, and the last one commits |
| Log.FsLog.LogWrite | p5/xv6-public/log.c:213-233 | panics exactly when the list is full or no operation is open; otherwise adds the block once, pins its buffer, and is the test and append steps of the reservation model |
| BlockStore.InstallsAt | p5/xv6-public/log.c:69-82 | installing distinct blocks puts each one's data in its place and leaves all others |
| BlockStore.BreadKeeps | p5/xv6-public/bio.c:96-106 | a read, with whatever it evicts, keeps the view, the pinned blocks and the committed homes, and returns the latest content |
| BlockStore.CommitKeeps | p5/xv6-public/log.c:192-202 | after a commit the homes on disk are the whole view, and nothing is pinned |
| BlockStore.Recovers | p5/xv6-public/log.c:115-122 | a crash at any moment, within a commit or not, with any interrupted recoveries, leaves the last commit, or the view once the header is written |
| BlockStore.StepKeeps | p5/xv6-public/log.c:177-233 | every step keeps the agreement of cache, log and disk with the two block maps |
| BlockStore.StoreSafe | p5/xv6-public/log.c:177-233 | in every state of every run a block reads as last modified, its home holds the last commit, a logged block is in a dirty buffer, and a crash recovers a whole commit |
| BlockStore.Store.constructor | p5/xv6-public/log.c:53-66 | initlog recovers the disk and starts from what it holds |
| BlockStore.Store.Bread | p5/xv6-public/bio.c:96-106 | is the read step, and the buffer holds the view of the block; fails if and only if no buffer is to be had |
| BlockStore.Store.Modify | p5/xv6-public/fs.c:495-503 | changes the view at the buffer's block only |
| BlockStore.Store.LogWrite | p5/xv6-public/log.c:213-233 | is the log_write step, or a panic exactly when the list is full or no operation is open |
| BlockStore.Store.Brelse | p5/xv6-public/bio.c:118-141 | is the release step |
| BlockStore.Store.Commit | p5/xv6-public/log.c:192-202 | is the commit step: the view becomes the saved map |
| BlockStore.Store.BeginOp | p5/xv6-public/log.c:125-142 | opens an operation exactly when the log has room for it |
| BlockStore.Store.EndOp | p5/xv6-public/log.c:145-174 | the last end_op is the commit step; the others change nothing |
| BlockStore.Store.Transact | p5/xv6-public/log.c:125-174 | begin_op, a changed block and end_op on an idle store succeed, and the block is in its place on disk |
| BlockStore.Store.Update | p5/xv6-public/log.c:205-212 | the round bread, modify, log_write, brelse succeeds if and only if there is a buffer, an open operation and room in the list; it changes the view at that block, lists the block, and writes nothing to disk |
| LogReservation.ReservationSafe | p5/xv6-public/log.c:125-174 | in every reachable state list length plus unused reservations is at most LOGSIZE, the list has no duplicates, nothing is open while committing, and a block new to the list finds room in LOGSIZE |
| LogReservation.FirstWritesExact | p5/xv6-public/log.c:213-233 | no first write of a block panics, on any interleaving, if and only if Peak is 0 or below log.size |
| LogReservation.AllWritesExact | p5/xv6-public/log.c:217-227 | no write at all panics if and only if Peak is 0, or below LOGSIZE and below log.size - 1 |
| LogReservation.ShippedConfiguration | p5/xv6-public/mkfs.c:25 | the shipped sizes can panic; one more log block saves first writes, no log size saves repeated ones |
| FsLayout.InodeOfPutInode | p5/xv6-public/fs.c:220-236 | an inode stored in its slot of a block reads back; the other inodes of the block are unchanged |
| FsLayout.InodeLayout | p5/xv6-public/fs.h:28-36 | the words of an inode in its block: type and major, minor and nlink, size, then the 13 addresses; nothing else of the block changes |
| FsLayout.AllocatedEffect | p5/xv6-public/fs.c:55-78 | marking and zeroing a free block keeps ownership, every file's bytes and every inode |
| FsLayout.LinkAddr | p5/xv6-public/fs.c:372-382 | storing a fresh block in a direct or indirect address adds one reference and keeps ownership |
| FsLayout.LinkEntry | p5/xv6-public/fs.c:384-396 | storing a fresh block in the indirect block adds one reference and keeps ownership |
| FsLayout.WriteDataEffect | p5/xv6-public/fs.c:495-503 | overwriting a file's data block changes those bytes of that file only, and no reference |
| FsLayout.UpdatedEffect | p5/xv6-public/fs.c:220-236 | iupdate makes the disk inode equal to the cached one and changes no reference, byte or other inode |
| FsLayout.ClaimedKeeps | p5/xv6-public/fs.c:372-400 | when every block newly in use is named and no name is dropped, no block leaks |
| FileSystem.FileSys.Balloc | p5/xv6-public/fs.c:55-78 | returns the lowest free block, marked and zeroed, never a metadata block; fails if and only if no block is free; logs the bitmap block and the block |
| FileSystem.FileSys.Bmap | p5/xv6-public/fs.c:372-400 | returns the block of bn, allocating exactly what is missing; fails if and only if fewer blocks are free; ownership, other references and all bytes kept; an existing block costs nothing |
| FileSystem.AbsentExact | p5/xv6-public/fs.c:372-400 | what bmap has to allocate for a round of writei is the difference of the block counts of a file of the old and of the new length |
| FileSystem.FileSys.Readi | p5/xv6-public/fs.c:452-476 | fails exactly on a bad offset or overflow; otherwise returns the slice of the content, cut at the size, and allocates and changes nothing |
| FileSystem.FileSys.Iupdate | p5/xv6-public/fs.c:220-236 | writes the cached inode to its slot and logs one block |
| FileSystem.FileSys.Writei | p5/xv6-public/fs.c:481-511 | refused exactly on a bad offset, overflow or a size past MAXFILE, changing nothing; out of blocks if and only if it is not refused and fewer blocks are free than the file grows by; otherwise writes all bytes, keeps no-holes and ownership and the disk inode equal to the cached one, leaves other inodes, claims exactly those blocks, and logs at most blocks touched + blocks possibly new + 3 |
| Mkfs.Balloc | p5/xv6-public/mkfs.c:237-251 | the bitmap block has exactly the first `used` bits set |
| Mkfs.FreshSettled | p5/xv6-public/mkfs.c:237-251 | in the image without files ownership and the no-hole shape hold, the blocks in use are exactly the metadata, every file is empty |
| Truncate.FreedOwned | p5/xv6-public/fs.c:407-435 | dropping references and freeing exactly what they named keeps ownership |
| Truncate.ExactlyMine | p5/xv6-public/fs.c:407-435 | the bits cleared are exactly those of the inode's own blocks |
| Truncate.Bfree | p5/xv6-public/fs.c:81-95 | clears the bit, or reports "freeing free block" exactly when it was clear |
| Truncate.Itrunc | p5/xv6-public/fs.c:407-435 | an empty file with an up-to-date disk inode, exactly its own blocks free, every other file unchanged; never frees a free block |
| FileWrite.WriteiSplices | p5/xv6-public/fs.c:481-511 | the content after writei is the old content with the bytes spliced in at off |
| FileWrite.WriteiSparesOthers | p5/xv6-public/fs.c:481-511 | every other file keeps its inode and content |
| FileWrite.WriteThenRead | p5/xv6-public/fs.c:452-511 | exactly when the write is not refused and blocks suffice, readi after writei returns the bytes written; the rest of the file and every other file are as before |
| FileWrite.ChunkFits | p5/xv6-public/file.c:126-138 | a chunk of at most ((MAXOPBLOCKS-4)/2)*512 bytes at any offset is within MAXOPBLOCKS blocks |
| FileWrite.WriteChunk | p5/xv6-public/file.c:139-150 | one chunk is written exactly when it is not refused and blocks suffice, and logs at most MAXOPBLOCKS distinct blocks |
| FileWrite.Filewrite | p5/xv6-public/file.c:116-156 | panics if and only if blocks do not suffice for the bytes that whole chunks can write; otherwise exactly those bytes are spliced in and the offset moves by them; n is returned if and only if they are all |
| Inodes.RelockKeeps | p5/xv6-public/fs.c:289-315 | because inodes are written through, locking another inode and reading it from disk changes no file |
| Inodes.WriteKeeps | p5/xv6-public/fs.c:481-511 | a writei splices one file and leaves all others, over all inodes |
| Inodes.TruncateKeeps | p5/xv6-public/fs.c:407-435 | an itrunc empties one file and leaves all others |
| Inodes.IallocKeeps | p5/xv6-public/fs.c:194-215 | a free inode gets its type and an empty content; on disk it has no link, no byte and no block; nothing else changes |
| Inodes.FreeKeeps | p5/xv6-public/fs.c:332-352 | freeing an inode empties it and leaves all others |
| Inodes.StepKeeps | p5/xv6-public/fs.c:289-511 | every call keeps ownership, no-holes and write-through for all inodes, and does to the files what the reference does |
| Inodes.FilesSafe | p5/xv6-public/fs.c:372-511 | from the fresh disk, after every sequence of calls over any inodes: one owner per block, a block in use if and only if it is metadata or named, no holes, the locked inode as on disk, contents as byte sequences |
| Inodes.Icache.Lock | p5/xv6-public/fs.c:289-324 | locks the inode with its copy from memory or disk, whichever is there; panics exactly on a free inode |
| Inodes.Icache.Writei | p5/xv6-public/fs.c:481-511 | is the write step on the locked inode; out of blocks if and only if it is not refused and fewer blocks are free than the file grows by |
| Inodes.Icache.Itrunc | p5/xv6-public/fs.c:407-435 | is the truncation step |
| Inodes.Icache.Ialloc | p5/xv6-public/fs.c:194-215 | claims the first free inode from 1 on, written with nothing but its type, or panics exactly when there is none |
| Inodes.Icache.Ifree | p5/xv6-public/fs.c:332-352 | is the freeing step |
| Inodes.Perform | p5/xv6-public/fs.c:194-511 | any list of calls made by the code goes through states that hold the files of the reference, and stops only at a call that panics, for the reason given |
| FsCrash.HomesDetermine | p5/xv6-public/fs.h:18-48 | the files on a disk depend only on blocks outside the log |
| FsCrash.RunLogs | p5/xv6-public/log.c:205-212 | a run of calls changes only blocks it passed to log_write, all behind the log |
| FsCrash.TransactionAtomic | p5/xv6-public/log.c:177-202 | a transaction of calls, cut anywhere and recovered, happens as a whole or not at all, as files |
| FsCrash.FilesSurvive | p5/xv6-public/log.c:115-202 | over every sequence of cut and recovered transactions the disk keeps ownership without leaks and no-holes, and each file is what the durable transactions make of it |
| Umalloc.StopsExactly | p5/xv6-public/umalloc.c:29-32 | free's walk stops at the one place in address order where the block belongs, and nowhere else |
| Umalloc.AheadShrinks | p5/xv6-public/umalloc.c:29-32 | each step of that walk brings the place nearer, so it ends |
| Umalloc.ReleasedTight | p5/xv6-public/umalloc.c:33-43 | inserting and merging both ways keeps ring, partition and the absence of adjacent free blocks |
| Umalloc.RoomExact | p5/xv6-public/umalloc.c:69 | a block of the computed size has room for the request if and only if it is at most 2^32 - 8 bytes; beyond, the size is one unit |
| Umalloc.SbrkExact | p5/xv6-public/umalloc.c:46-56 | morecore asks sbrk for as much as it adds if and only if the request is at most 2^31 - 16 bytes or its size has wrapped |
| Umalloc.GrantsTooLittle | p5/xv6-public/umalloc.c:63-90 | a request of 2^32 - 7 bytes gets a block with room for no byte |
| Umalloc.GoesWild | p5/xv6-public/umalloc.c:46-60 | a request of 2^31 bytes to an empty allocator overruns the arena |
| Umalloc.CarveTail | p5/xv6-public/umalloc.c:75-84 | cutting the tail off a larger block leaves two disjoint blocks in the same arena |
| Umalloc.CarveAll | p5/xv6-public/umalloc.c:75-79 | taking a block of exactly the right size removes it from the ring |
| Umalloc.Allocator.Free | p5/xv6-public/umalloc.c:24-43 | the block stops being live, live blocks and arena are untouched, ring, partition and tightness kept; every free block is as it was or holds the block freed; the next search starts at the header before it |
| Umalloc.Allocator.Morecore | p5/xv6-public/umalloc.c:46-60 | nothing changes when sbrk fails; otherwise the arena grows by the units asked for, at least 4096, and if no block had room before, the room is in the block that ends at the new break; wild exactly when the bytes asked for fall short |
| Umalloc.SearchFirst | p5/xv6-public/umalloc.c:74-75 | where the search stops is the first block with room, going round by address from after the start |
| Umalloc.Allocator.Malloc | p5/xv6-public/umalloc.c:63-90 | for every request: a new live block of the computed size, with room if and only if the request is at most 2^32 - 8 bytes, or 0 if and only if no free block has room and sbrk fails; the block is the tail of the first one with room after freep, or, when none has, the end of the arena grown by exactly that size, at least 4096 units; other live blocks untouched; at most one morecore; wild exactly when it must grow by a byte count that sbrk misreads |
| Vm.Kernel.constructor | p5/xv6-public/kalloc.c:31-45 | after kinit1 and kinit2 the free list holds exactly the whole pages from the end of the kernel to PHYSTOP, each once |
| Vm.Kernel.Freerange | p5/xv6-public/kalloc.c:47-54 | adds exactly the whole pages of the range, each once |
| Vm.Walk | p5/xv6-public/vm.c:35-55 | the page table of the address exists afterwards, or there was no page; mappings unchanged, pages conserved, a page taken only if the table was absent |
| Vm.MapUser | p5/xv6-public/vm.c:60-82 | maps one page at one address and changes no other entry; "remap" exactly when the entry was present; on failure the page is still the caller's |
| Vm.MapKernel | p5/xv6-public/vm.c:60-82 | out of memory if and only if fewer pages are free than page tables are missing up to the first page already mapped; else stops there; else maps the whole range in order and changes no other entry; pages conserved on every path |
| Vm.FreeRangeEntries | p5/xv6-public/vm.c:257-281 | the page-by-page loop unmaps exactly the range and touches no table |
| Vm.FreeRangeClean | p5/xv6-public/vm.c:257-281 | the page-by-page loop conserves pages |
| Vm.Jump | p5/xv6-public/vm.c:268-271 | skipping to the next page table frees the same pages as looking at each |
| Vm.EndsExactly | p5/xv6-public/vm.c:266-271 | for any oldsz, in 32 bits, the loop ends if and only if it ends at once or its last page is reached without wrapping and without jumping out of an absent last page table |
| Vm.Deallocuvm | p5/xv6-public/vm.c:257-281 | for oldsz up to KERNBASE, terminates with exactly the free list and directory of the page-by-page loop, in the same order; returns the smaller size |
| Vm.Freevm | p5/xv6-public/vm.c:285-300 | the free list then holds everything it held and everything the directory owned, each once |
| Vm.KernelNeed | p5/xv6-public/vm.c:107-116 | the page tables each range of kmap adds, 64 in all, wherever the linker puts the kernel's data |
| Vm.KmapExact | p5/xv6-public/vm.c:107-116 | a directory has the mappings of kmap and no other if and only if every page from KERNBASE up to PHYSTOP above it maps to the page that much lower, writable but for the kernel's text, every page from DEVSPACE on maps to itself, writable, and nothing else is mapped |
| Vm.Setupkvm | p5/xv6-public/vm.c:120-138 | a directory whose every entry is the kernel's, in numbers: physical memory from KERNBASE on, read-only for the kernel's text, the devices at their own addresses, no user flag, all else absent; made of 65 free pages; fails if and only if fewer are free, with the free set unchanged; never "remap" |
| Vm.Allocuvm | p5/xv6-public/vm.c:223-250 | the outcome is exactly determined by the free pages, the page tables missing and the first page mapped in the range: zeroed pages over the whole range, or 0 with the range unmapped and pages conserved, or the panic; size rules |
| Vm.FailedGrowthPages | p5/xv6-public/vm.c:236-247 | after a failed allocuvm the pages newly free are exactly those that were mapped in the range, and pages no longer free are page tables of the directory |
| Vm.FailedGrowthExact | p5/xv6-public/vm.c:236-247 | a failed allocuvm leaves the mappings as they were, and frees nothing that was not free, if and only if no page of the range was mapped |
| Vm.LosesMapping | p5/xv6-public/vm.c:236-240 | a directory with a page mapped inside the range and no free page: the result is 0 and the page is gone |
| Vm.Copyuvm | p5/xv6-public/vm.c:317-347 | out of memory if and only if fewer pages are free than the child needs up to the first page the parent lacks, with the free set of before; the panic if and only if it gets to such a page; otherwise a child with the parent's bytes and flags on [0, sz) and the kernel's mappings and nothing else from there on, on distinct pages that were free, disjoint from the parent's |
| Vm.OtherSpacesSafe | p5/xv6-public/vm.c:223-347 | a conserving operation on one directory leaves every other directory disjoint from it and from the free list |
| Process.AbandonStep | p5/xv6-public/proc.c:276-282 | one round of exit's loop: the child goes to init, which is woken if the child is a zombie |
| Process.ExitedExact | p5/xv6-public/proc.c:270-288 | what exit does to each field of each entry: children go to init, the caller is a zombie, and made runnable are exactly the sleepers on the parent, and on init if it gets a zombie |
| Process.Ptable.Wakeup1 | p5/xv6-public/proc.c:475-484 | makes runnable exactly the processes asleep on the channel and changes no other field |
| Process.Ptable.Exit | p5/xv6-public/proc.c:270-288 | wakes the parent, passes every child to init and turns the caller into a zombie, changing nothing else |
| Process.Ptable.WaitPass | p5/xv6-public/proc.c:298-329 | reaps exactly when there is a zombie child: the first one, whose pid it returns and whose entry is then unused, without parent, pid 0 and not killed, and no other entry changes; otherwise fails without children or when killed; otherwise sleeps on its own entry |
| Process.Ptable.Kill | p5/xv6-public/proc.c:496-516 | 0 if and only if some entry has the pid: the first such is marked killed and is not left asleep, and no other entry changes; otherwise nothing changes |
| Process.StepKeepsInv | p5/xv6-public/proc.c:182-331 | every step of fork, exit, wait, sleep, wakeup, kill and the scheduler keeps the process table invariant |
| Process.StepKeepsWaitOk | p5/xv6-public/proc.c:298-331 | every step keeps it so that a process asleep in wait has a child and is not killed |
| Process.StepKeepsPidsOk | p5/xv6-public/proc.c:89-91 | every step keeps the nonzero pids distinct |
| Process.FamilySafe | p5/xv6-public/proc.c:244-331 | in every state of every run a process asleep in wait has a child, none that is a zombie, and is not killed, and every process but init has a parent that is neither unused nor a zombie |
| Process.PidsUnique | p5/xv6-public/proc.c:496-516 | in every run, kill of a process's pid finds that process |
| Process.KilledExact | p5/xv6-public/proc.c:299-316 | in every run an entry is marked killed if and only if a kill has hit it since it was last reaped |
| Process.ForkedExact | p5/xv6-public/proc.c:182-238 | the process that fork makes runnable has the forking process as its parent, and is killed if and only if a kill has hit its entry since the last reaping |
| Sleeplock.StepKeepsInv | p5/xv6-public/proc.c:436-493 | every step of acquire, release, sleep, wakeup and kill keeps the sleep-lock invariant |
| Sleeplock.SleeplockSafe | p5/xv6-public/sleeplock.c:22-42 | in every reachable state at most one process holds the lock, it is marked locked exactly then, and a sleeper implies that it is held or a wakeup is still to come |
| Pipe.CountersExact | p5/xv6-public/pipe.c:84-93 | the tests on the wrapped counters mean full and empty, and the slots are those of the unwrapped ones |
| Pipe.PipeBuffer.Pipewrite | p5/xv6-public/pipe.c:78-97 | between two sleeps is the step that puts bytes in while the counters do not say full; stops only when done, full, or closed or killed |
| Pipe.PipeBuffer.Piperead | p5/xv6-public/pipe.c:100-121 | is the step that takes bytes out while the counters differ; returns the oldest bytes, as many as asked for or as there are |
| Pipe.PipeBuffer.MustWait | p5/xv6-public/pipe.c:105-111 | piperead waits exactly when everything written has been read and a writer may come |
| Pipe.PipeBuffer.constructor | p5/xv6-public/pipe.c:22-38 | a new pipe is empty and open at both ends |
| Pipe.PipeBuffer.Pipeclose | p5/xv6-public/pipe.c:57-76 | shuts the end it is told and not the other; the pipe is freed exactly when both are shut |
| Pipe.EndsExact | p5/xv6-public/pipe.c:22-76 | in every run each end is open exactly until it is closed |
| Pipe.InFlightExact | p5/xv6-public/pipe.c:112-117 | what was read followed by what the ring holds is a prefix of what was written |
| Pipe.Fifo | p5/xv6-public/pipe.c:78-121 | from an empty pipe, on every interleaving of those steps and of closes, bytes read plus bytes in the ring are the bytes written, in order, at most PIPESIZE in the ring, and the counters differ by their number modulo 2^32 |
| Shell.Gettoken | p5/xv6-public/sh.c:265-308 | returns the specified token and cursor |
| Shell.Peek | p5/xv6-public/sh.c:310-320 | moves past blanks and tells whether one of the characters is next |
| Shell.Parseline | p5/xv6-public/sh.c:344-359 | terminates on every input with the tree or error of `ParseLine`, which ShellGrammar.LineSound and LineComplete characterise |
| Shell.Parsepipe | p5/xv6-public/sh.c:361-372 | terminates on every input with the specified tree or error |
| Shell.Parseredirs | p5/xv6-public/sh.c:374-397 | wraps the command in its redirections, or misses a file name |
| Shell.Parseblock | p5/xv6-public/sh.c:399-413 | terminates on every input with the specified tree or error |
| Shell.Parseexec | p5/xv6-public/sh.c:415-446 | terminates on every input with the specified tree or error |
| Shell.Parseargs | p5/xv6-public/sh.c:431-442 | terminates on every input with the tree or error of `ParseArgs`, which ShellGrammar.TailSound and TailComplete characterise: words and redirections in any order, at most MAXARGS - 1 words |
| ShellGrammar.RedirsSound | p5/xv6-public/sh.c:374-397 | what the redirection loop reads are redirections, and it wraps them around the command, the first innermost |
| ShellGrammar.TailSound | p5/xv6-public/sh.c:428-445 | what parseexec reads are words and redirections in some order, and it gives those words inside those redirections |
| ShellGrammar.LineSound | p5/xv6-public/sh.c:344-446 | whatever parseline accepts is a line of the grammar, with its meaning, up to where it stops |
| ShellGrammar.TailComplete | p5/xv6-public/sh.c:428-445 | every list of at most MAXARGS - 1 words and any redirections, in any order, is read, as those words inside those redirections |
| ShellGrammar.LineComplete | p5/xv6-public/sh.c:344-446 | every line of the grammar that ends there is accepted, with its meaning |
| ShellText.LexExact | p5/xv6-public/sh.c:265-308 | for every C string, gettoken gives these tokens, one after the other, if and only if the string is those tokens written out, with any blanks around them and at least one between two that would run together |
| ShellText.ParserExact | p5/xv6-public/sh.c:327-446 | for every C string, parsecmd accepts it, with tree t, if and only if it spells a sentence of the grammar that means t |
| ShellText.OneMeaning | p5/xv6-public/sh.c:327-446 | a line has one meaning, however it is read as a sentence |
| ShellText.ParsePrint | p5/xv6-public/sh.c:327-446 | parsing the parenthesised printing of any legal tree gives the tree back |
| ShellText.LegalExact | p5/xv6-public/sh.c:327-446 | a tree comes out of some line if and only if it is legal: at most MAXARGS - 1 arguments, words without blanks, symbols or NUL, the three redirections |
| Shell.LineGood | p5/xv6-public/sh.c:344-446 | every word of every parsed tree is a whole word of the line |
| Shell.TreeReads | p5/xv6-public/sh.c:449-493 | once the ends of its words are NUL, every word of the tree reads back as its token |
| Shell.EndOutside | p5/xv6-public/sh.c:449-493 | the characters nulterminate overwrites are in no word |
| Shell.Nulterminate | p5/xv6-public/sh.c:448-493 | writes NUL at the ends of the tree's words and nowhere else |
| Shell.Parsecmd | p5/xv6-public/sh.c:327-342 | the specified tree, whose words then read back from the buffer as C strings; on an error the buffer is unchanged |
| Grep.Matchhere | p5/xv6-public/grep.c:84-96 | the C recursion computes the specified function and terminates |
| Grep.Matchstar | p5/xv6-public/grep.c:98-106 | the do-while loop computes the specified function and terminates |
| Grep.MatchText | p5/xv6-public/grep.c:72-82 | match computes the specified function and terminates |
| Grep.HereExact | p5/xv6-public/grep.c:84-96 | matchhere holds exactly when the pattern's language has a prefix of the text, the whole text under a final $ |
| Grep.StarExact | p5/xv6-public/grep.c:98-106 | matchstar holds exactly when some repetition of c is followed by a match |
| Grep.MatchExact | p5/xv6-public/grep.c:72-106 | match holds exactly when some stretch of the text is in the language of the pattern, anchored by ^ and $ |
| Wfs.Append | p7/mount.wfs.c:202-203 | an entry written at head extends the tiling of the disk by log entries |
| Wfs.SupersededOneLive | p7/mount.wfs.c:335-367 | deleting the last version and appending a new one keeps the last entry of each inode number its only undeleted one |
| Wfs.CreateRepresents | p7/mount.wfs.c:167-309 | after creating a new name in an existing directory the log stands for the tree with that name added |
| Wfs.WriteRepresents | p7/mount.wfs.c:335-367 | writing an existing file changes no name |
| Wfs.ResolveExact | p7/mount.wfs.c:62-78 | every list of names through directories resolves exactly as in the tree |
| Wfs.WalkedExact | p7/mount.wfs.c:58-61 | the tokens of the cut copy are the names the cut leaves, and all of them exactly when the path is shorter than 128 characters |
| Wfs.PathExact | p7/mount.wfs.c:53-79 | path_to_inode agrees with the tree if and only if the path is shorter than 128 characters or neither it nor what is left of it is in the tree |
| Wfs.LongPathLost | p7/mount.wfs.c:58-60 | four nested directories of 31 characters exist and are not found |
| Wfs.DirAndBase | p7/mount.wfs.c:169-172 | dirname and basename of a path are its directory and its last name |
| Wfs.DentryExact | p7/mount.wfs.c:196-199 | the inode number survives the copying of the name, whatever the number, if and only if the name is shorter than 32 bytes |
| Wfs.LeadsToRoot | p7/mount.wfs.c:196-199 | the first inode created, under a name of 32 bytes, is recorded as inode 0, the root |
| Wfs.Mount.constructor | p7/mkfs.wfs.c:25-50 | the fresh image stands for the tree with an empty root |
| Wfs.Mount.NumberToInode | p7/mount.wfs.c:36-51 | the scan finds the last entry of the number, or NULL when there is none or it is deleted |
| Wfs.Mount.PathToInode | p7/mount.wfs.c:53-79 | walks the names of the cut copy: the inode there, or NULL, or an entry that is no directory read as one |
| Wfs.Mount.FindPath | p7/mount.wfs.c:53-79 | for a path through directories, the inode that the tree has at the names the cut leaves, or NULL exactly when there is none |
| Wfs.Mount.Create | p7/mount.wfs.c:167-309 | adds the name to the directory that the cut path leads to, the right one exactly when the path is shorter than 128 characters, and keeps the tiling, one live entry per inode and the tree; fails exactly when the cut path leads nowhere |
| Wfs.Mount.Write | p7/mount.wfs.c:335-367 | a new version of the file that the cut path leads to, the right one exactly when the path is shorter than 128 characters; keeps the tiling, one live entry per inode and the tree |

## Left out

- Layers meet by specification: `FileSystem` works on block contents, and `FsCrash` joins it to the commit and recovery writes of the log; that the cache shows those contents is `BlockStore`. Calls of different processes within one transaction are taken one after the other; their interleaving is covered for the log reservation, the block store and the locks.
- BufferCache.ReadCorrect: a block whose buffer is locked, where the source sleeps until it is released; likewise BufferCache.Bcache.Bget and BufferCache.Bcache.Bread.
- BufferCache.Bcache.Bget: requires that the block's buffer is not locked, where the source sleeps.
- BufferCache.Bcache.Bread: requires that the block's buffer is not locked, where the source sleeps.
- BufferCache.Bcache.Brelse: requires that a modified buffer was logged or written, which the source leaves to its callers; without it the modification would be lost.
- Inodes.Icache.Lock: one inode is worked on at a time; a second inode held locked meanwhile is in memory as on disk. Inode reference counts and the recycling of cache entries are not modelled.
- Mkfs.FreshSettled: the image before mkfs adds the root directory and the programs; metadata within the first bitmap block, as mkfs asserts.
- Directories, path names, `iget`, link counts and device inodes of `fs.c`: they would add easy members over the same invariants.
- FileWrite.Filewrite: requires MAXOPBLOCKS of at least 6, because with less the source's chunk size is 0 and its loop never advances; nothing is said of the state at a panic.
- FileSystem.FileSys.Writei: nothing is said of the state when blocks run out, where the source panics in balloc.
- Log.FsLog.Commit: no buffer is held while it runs, so readers are excluded, which the kernel does not do (`fileread` reads outside transactions); likewise BlockStore.Store.Commit. No operation logs a block of the log region.
- BlockStore.Store.Commit: no buffer is held while it runs.
- BlockStore.Store.EndOp: no buffer is held when the last operation ends.
- Umalloc.Allocator.Malloc: nothing is said of the state once it is wild, where the code writes to memory that is not its own. Headers are a map from addresses, in units of 8 bytes, to the two header fields; the bytes of live blocks are not modelled.
- Umalloc.Allocator.Morecore: sbrk is a parameter that fails or extends the arena above everything so far.
- Vm.Deallocuvm: for oldsz up to KERNBASE, which every caller in the kernel keeps to; above it lie the kernel's own mappings. When its loop ends at all is `Vm.EndsExactly`.
- Page directory and page table entries are values, not packed bits, and the flags of directory entries are not modelled; physical pages are numbers. `kfree`'s range checks are not modelled: only pages that came from the free list are ever freed, by conservation. The link word that `kfree` writes into a free page is modelled by the list.
- `inituvm`, `loaduvm`, `clearpteu`, `uva2ka`, `copyout`, `switchuvm` and the mmap system call of p5.
- Process.FamilySafe: kernel stacks, open files and register contexts are not modelled; a step is what runs under ptable.lock, and fork is split into its separate steps.
- Process.PidsUnique: pids are unbounded, where `nextpid` of the source is an int that overflows after 2^31 - 1 forks.
- Spinlocks themselves, interrupts and memory ordering.
- Shell.Parseexec: the exec node inside its redirections is updated through a function on the tree, not through a shared reference.
- `runcmd`, `getcmd` and the built-in `cd` of the shell, and the line reading of `grep`.
- Wfs.Mount.Create: requires what its callers in the kernel check (an existing directory, a new legal name), a name shorter than 32 bytes (see `Wfs.DentryExact`), space left on the disk, which the code does not check, and, when the cut path leads elsewhere, that it leads to a directory without that name.
- Wfs.Mount.Write: the number of bytes is a parameter and their content is not modelled; requires an existing file and space left, and, when the cut path leads elsewhere, that it leads to a file. The disk holds entries at byte offsets, not the bytes of their fields.
- `wfs_read`, `wfs_unlink`, `readdir` and remounting of p7.
- The p2 and p4 copies of the same kernel files, the p4 scheduler, the p6 proxy, p1 and p3 programs: I/O plumbing or repetition.
