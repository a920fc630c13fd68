# Verified models of a small AArch64 kernel

This project models the state and the algorithms at the core of a teaching kernel: the
write-ahead log and the block cache, red-black trees, the inode layer and its
directories, the page and slab allocator, page tables, the scheduler, the file
descriptor tables, semaphores, pipes, the disk request queue, and the parser of its
shell. Dafny proves, for all inputs and all runs of the modelled operations, the
properties listed below.

| file | models |
|---|---|
| `Bytes.dfy` | bytes, blocks of 512 bytes, little-endian words |
| `Sequences.dfy`, `Numbers.dfy` | sequences without repetition, counting, powers of two |
| `Wal.dfy` | the on-disk log, commit, crashes and recovery |
| `Cache.dfy` | the block cache that produces the commits |
| `RbShape.dfy`, `RbTree.dfy` | red-black trees over an explicit memory of cells |
| `FileBlocks.dfy`, `Inode.dfy` | inodes, block maps, file contents |
| `Directory.dfy` | directories as files of 16-byte entries |
| `Slab.dfy` | page and slab allocator with the links kept in the free memory itself |
| `PageTable.dfy` | four-level page tables and copies to user space |
| `Scheduler.dfy`, `RunQueue.dfy` | run queues, state changes, ticks and fairness; the run queue as a tree |
| `Descriptors.dfy` | file table, descriptor slots, pipe ends |
| `Semaphore.dfy`, `Pipe.dfy`, `DiskQueue.dfy` | the locked sections of each as atomic steps |
| `Shell.dfy` | tokens, grammar, parser and NUL termination |

Objects that the kernel updates in place are classes; a list that the kernel links by
hand is a sequence held in a field, except in the red-black tree and in the free lists of
the slab pages, whose links are modelled word by word. A method whose result reports a
panic or a fault stands for a run that stops there.

## How the main results fit together

- `Wal.HistoryIsAtomic` is about any sequence of commits, each of which may crash after
  any device write and be followed by any number of crashed recoveries and a complete one.
  `Cache.BlockCache.EndOp` gives the device writes of the cache's commit for groups of any
  size, and proves that for a group that fits the log they are exactly the ones that
  theorem is about, and that no view of any block changes.
- `RbTree.RbTree.Insert` and `Erase` keep one invariant: parent and child links agree,
  the root is black, no red node has a red child, all black heights are equal, and the
  in-order sequence is sorted. The in-order sequence gains or loses exactly the node.
- `Inode.FileSystem.Valid` says that every data block in use has exactly one place that
  refers to it and that no file has a hole. Every operation keeps it, and the contents of
  a file, a byte sequence, change exactly as a byte sequence should. `Directory` builds a
  finite map on top of those byte sequences.
- `Slab.Allocator` keeps its invariant in every run, also when the holders of live blocks
  store arbitrary words into them; `LiveDisjoint` and `NothingLive` read safety and the
  absence of leaks off the invariant.
- `PageTable.Memory` refines a flat map from pages to entries.
- `Scheduler.Sched.Tick` is proved to be a step of an abstract turn-taking system, for
  which `Fair` is proved over whole runs; `FairOnEveryCpu` carries it over to runs in which
  all CPUs tick in any order. `RunQueue.RunQueue` shows that the kernel's queue,
  a red-black tree whose comparison reads run times that change, refines the sorted
  sequence of the scheduler.
- `Descriptors.Tables.Valid` counts: a file has as many references as slots, a pipe's flags
  say which ends some file stands for, and every inode reference taken over by an open has
  been given back once or is held by one open file.
- `DiskQueue.Disk` keeps the device apart from the queue: the device works on the command
  it was given, and the interrupt collects what it finds there.
- `Shell.ParseCmd` returns a command exactly if the grammar derives one from the tokens of
  the whole line, and the grammar derives at most one, `Shell.Unambiguous`.

## Where the code does not do what it says

The model follows the code. These are proved as stated, with their exact conditions.

- The log writes of a group stay inside the log area exactly if the group is smaller than
  the area, `Wal.LogStaysInside`; a larger one overwrites the block after the log,
  `Wal.OversizedGroupSpills`. Two operations within their quotas can need more entries
  than the header has, `Cache.QuotasMayOverflow`; the quotas of n operations suffice
  exactly if n full quotas fit, `Cache.QuotasFit`.
- Freeing an inode marks the copy in memory invalid first, so the truncated entry is never
  stored; what is stored is the old entry with its type cleared: `Inode.FileSystem.Clear`,
  `Inode.FileSystem.Put`.
- Reading panics when offset plus count wraps: `Inode.FileSystem.Read`.
- A directory entry keeps 16 bits of an inode number; the binding made is the one asked
  for exactly when the number is not 0 and below 65536: `Directory.BindingFits`.
- Unmapping a page never removes a translation: `PageTable.Memory.Unmap`.
- A disk request whose flags are neither 0 nor dirty panics when it completes:
  `DiskQueue.Disk.Interrupt`.

## Model

| member | source | states |
|---|---|---|
| Wal.DecodeEncode | src/fs/cache.c:54-64 | a log header written to its block and read back is the same header |
| Wal.DecodeBytes | src/fs/cache.c:54-59 | the count is the number in bytes 0 to 7 of the header block and block number i the one in the eight bytes at 8 + 8i, low byte first |
| Wal.EncodeBytes | src/fs/cache.c:61-64 | byte j of the count is stored at j and byte j of block number i at 8 + 8i + j, where byte j of x is x / 256^j modulo 256 |
| Bytes.LeByte | src/fs/cache.c:61-64 | byte i of a number in memory counts 256 to the power i |
| Wal.FullRecovery | src/fs/cache.c:334-363 | a complete recovery installs the group in the log, empties the header, and changes no other home block |
| Wal.PartialRecoveryKeepsGoal | src/fs/cache.c:351-358 | a recovery cut after any write still leads to the same disk when it is run again |
| Wal.RestartsInstallGroup | src/fs/cache.c:143-157 | any number of crashed recoveries and one complete one install the whole group and empty the header |
| Wal.RestartsExists | src/fs/cache.c:143-157 | however often recovery is cut short, the next start can always complete it |
| Wal.CrashWhileLogging | src/fs/cache.c:320-332 | up to the header write a crash leaves every home block old and the log empty |
| Wal.HeaderSealsGroup | src/fs/cache.c:210-214 | once the header is written the log holds exactly the group |
| Wal.CrashAfterHeader | src/fs/cache.c:334-363 | after the header write a crash leads recovery to the new contents |
| Wal.CrashAtomicity | src/fs/cache.c:196-217 | for every group, every cut of the commit and every series of cut recoveries, the home blocks end all old or all new, never mixed, with the header empty |
| Wal.CommitInstalls | src/fs/cache.c:207-216 | a commit without a crash installs the whole group and nothing else |
| Wal.HistoryIsAtomic | src/fs/cache.c:143-217 | over any history of commits and crashes the home blocks are those of the surviving groups applied in order |
| Wal.OversizedGroupSpills | src/fs/cache.c:188-190 | a group as large as the log area writes its last block outside the log before the header is written |
| Wal.LogStaysInside | src/fs/cache.c:326-331 | the log writes of a group stay inside the log area exactly if the group is smaller than the area |
| Wal.ReplayIsGroup | src/fs/cache.c:351-358 | replaying a log slot by slot, each read when its turn comes, installs exactly the blocks in it if the log is well formed |
| Wal.TraceIsCommit | src/fs/cache.c:207-216 | for a group that fits, the writes of a commit are those of the crash theorem |
| Wal.CommitLayout | src/fs/cache.c:207-216 | the writes of a commit one by one: block i to the slot i + 1 after the start, the header to the start, the blocks to their homes in header order, and a header with count 0 |
| Wal.CommitQuiets | src/fs/cache.c:334-363 | a commit of a group of any size ends with an empty log |
| Cache.BlockCache.constructor | src/fs/cache.c:143-157 | start-up issues exactly the recovery writes and begins with an empty cache and an empty group |
| Cache.BlockCache.Fetch | src/fs/cache.c:278-287 | finds the resident block with a number, and reports absence only if there is none |
| Cache.BlockCache.Evict | src/fs/cache.c:289-306 | drops the first block after the head that is neither held nor pinned, the head itself last, fails exactly if there is none, and keeps all others in order |
| Cache.BlockCache.Acquire | src/fs/cache.c:84-120 | returns the current view of the block, never a stale copy of a logged one; each number stays at most once in the list; the whole new list is stated: a hit moves the head past the block and drops nothing; a miss adds the block at the end, and drops one exactly if there are 1024 or more and one is neither held nor pinned |
| Cache.BlockCache.Load | src/fs/cache.c:99-119 | a miss reads the block from disk, and leaves the number of blocks as it was exactly if it could and had to drop one |
| Cache.BlockCache.Update | src/fs/cache.c:122-129 | changes one resident block and no other, and keeps the invariant while the pin is kept |
| Cache.BlockCache.BeginOp | src/fs/cache.c:159-165 | joins the group with a full quota and keeps the accounting |
| Cache.BlockCache.Sync | src/fs/cache.c:167-194 | logs the block once, charges the quota only for a new block, panics exactly on an empty quota, runs past the header exactly if it is full; only the pin of that block changes in the list, and no view; a new block is the next header entry |
| Cache.BlockCache.WriteThrough | src/fs/cache.c:167-172 | without a context the held copy goes to the device at once; outside the log the invariant stays, and no view changes |
| Cache.BlockCache.LogBlock | src/fs/cache.c:188-192 | the header count stays the sum of the spent quotas, logged numbers stay distinct, the logged blocks stay exactly the pinned ones, and every other block stays as it was; runs past the header exactly if it is full |
| Cache.BlockCache.WriteLog | src/fs/cache.c:320-332 | writes a group of any size to the log slots in header order and lets go of exactly its pins |
| Cache.BlockCache.Checkpoint | src/fs/cache.c:334-363 | issues exactly the writes of replaying the log that the header on disk describes |
| Cache.BlockCache.Commit | src/fs/cache.c:210-215 | the device writes of a commit of any size are log, header, replayed blocks and empty header, in that order |
| Cache.BlockCache.CommitGroup | src/fs/cache.c:207-216 | the log is empty again and the pins of the group are gone; if the group fits, its blocks are on disk as seen and no view has changed |
| Cache.FittingCommit | src/fs/cache.c:207-216 | a commit of a group that fits installs it and changes no view |
| Cache.BlockCache.EndOp | src/fs/cache.c:196-217 | only the last operation commits, lets go of exactly the pins of the group, and ends with an empty log; if the group fits, its writes are those of the crash theorem, every logged block is then on disk as seen, and no view has changed |
| Cache.SpentBound | src/fs/cache.c:184-192 | the group never exceeds the quotas of its operations |
| Cache.QuotasMayOverflow | src/fs/cache.c:159-165 | the quotas of enough operations together exceed the log, so the quota alone does not bound the group |
| Cache.QuotasFit | src/fs/cache.c:159-192 | the quotas of n operations keep the group within some room exactly if n full quotas fit it |
| Cache.CommittedViews | src/fs/cache.c:320-363 | after a commit every home block, resident or not, reads as before |
| RbTree.RbTree.constructor | src/lib/rbtree.c:350-354 | an empty tree is valid |
| RbTree.RbTree.OrderChanged | src/proc/sched.c:22-34 | a tree stays valid when the comparison changes, as long as it stays the same on the members |
| RbTree.RbTree.ChangeChild | src/lib/rbtree.c:33-43 | replaces one child link, or the root, and nothing else |
| RbTree.RbTree.RotateSetParents | src/lib/rbtree.c:45-52 | gives the rotated node its place and colour |
| RbTree.RbTree.InsertRecolorLeft | src/lib/rbtree.c:68-76 | recolouring moves the violation two levels up and keeps links, order and black heights |
| RbTree.RbTree.InsertRecolorRight | src/lib/rbtree.c:98-107 | the mirror image |
| RbTree.RbTree.InsertCase2Left | src/lib/rbtree.c:80-89 | the inner rotation turns an inner violation into an outer one |
| RbTree.RbTree.InsertCase2Right | src/lib/rbtree.c:110-120 | the mirror image |
| RbTree.RbTree.InsertCase3Left | src/lib/rbtree.c:90-96 | the outer rotation removes the violation and keeps the in-order sequence |
| RbTree.RbTree.InsertCase3Right | src/lib/rbtree.c:121-127 | the mirror image |
| RbTree.RbTree.InsertRotateLeft | src/lib/rbtree.c:77-96 | with a black uncle the rotations end with a valid tree |
| RbTree.RbTree.InsertRotateRight | src/lib/rbtree.c:108-127 | the mirror image |
| RbTree.RbTree.InsertFix | src/lib/rbtree.c:54-130 | the fix-up loop terminates with a valid tree of the same nodes in the same order |
| RbTree.RbTree.Insert | src/lib/rbtree.c:289-315 | returns -1 with the tree unchanged exactly if an equal key is present, otherwise adds exactly the node in order; the tree stays valid |
| RbTree.RbTree.Lookup | src/lib/rbtree.c:325-338 | finds an equal member if there is one and only then, within 2 log2(n + 1) steps |
| RbTree.RbTree.First | src/lib/rbtree.c:340-348 | returns the least member, within 2 log2(n + 1) steps |
| RbShape.LogarithmicHeight | src/lib/rbtree.c:325-348 | the height of a valid tree is at most 2 log2(n + 1) |
| RbTree.RbTree.EraseCase1Left | src/lib/rbtree.c:191-198 | a red sibling is rotated away, and the deficit stays where it was |
| RbTree.RbTree.EraseCase1Right | src/lib/rbtree.c:239-246 | the mirror image |
| RbTree.RbTree.EraseCase2Left | src/lib/rbtree.c:200-215 | recolouring ends the deficit or moves it up one level |
| RbTree.RbTree.EraseCase2Right | src/lib/rbtree.c:248-263 | the mirror image |
| RbTree.RbTree.EraseCase3Left | src/lib/rbtree.c:216-227 | a red inner nephew is rotated outwards |
| RbTree.RbTree.EraseCase3Right | src/lib/rbtree.c:264-275 | the mirror image |
| RbTree.RbTree.EraseCase4Left | src/lib/rbtree.c:229-236 | the last rotation removes the deficit |
| RbTree.RbTree.EraseCase4Right | src/lib/rbtree.c:277-284 | the mirror image |
| RbTree.RbTree.EraseFix | src/lib/rbtree.c:185-287 | the fix-up loop terminates with a valid tree of the same nodes in the same order |
| RbTree.RbTree.FindSuccessor | src/lib/rbtree.c:152-162 | finds the in-order successor below the right child |
| RbTree.RbTree.UnlinkSuccessor | src/lib/rbtree.c:151-181 | the successor takes the place and the colour of the node, and the links agree |
| RbTree.RbTree.Unlink | src/lib/rbtree.c:132-183 | removes the node from the in-order sequence and says where a black node is missing |
| RbTree.RbTree.Erase | src/lib/rbtree.c:317-323 | the tree stays valid and its in-order sequence loses exactly the node |
| RbShape.SuccessorContents | src/lib/rbtree.c:151-181 | putting the successor in place of the node removes exactly the node from the in-order sequence |
| Inode.FileSystem.Alloc | src/fs/cache.c:219-256 | takes the first free block of the scanned range, zeroed, one free block fewer, and panics exactly if there is none; the scanned range is that of the bitmap blocks that begin below the number of data blocks |
| Inode.FileSystem.AllocAt | src/fs/inode.c:258-280 | a block goes from the bitmap to one empty place of one inode; every block keeps exactly one owner |
| Inode.FileSystem.Find | src/fs/inode.c:240-282 | without a context the block map is only read; the block is address q of the first 12, or 32-bit word q - 12 of the indirect block, low byte first |
| Inode.FileSystem.Map | src/fs/inode.c:240-282 | succeeds exactly if the blocks it needs, none, one, or two with a new indirect block, are free before the call, and takes exactly those; returns the mapped block; data of all files stays; no hole appears |
| Inode.FileSystem.WriteChunk | src/fs/inode.c:343-354 | one block-sized piece changes exactly its bytes of the file; succeeds exactly if the blocks it needs are free before the call |
| Inode.FileSystem.WriteBlocks | src/fs/inode.c:340-355 | the chunk loop has the effect of one overwrite; succeeds exactly if the blocks it needs are free before the call, and takes exactly those |
| Inode.FileSystem.Write | src/fs/inode.c:323-361 | the file becomes its old bytes overwritten at the offset; every other inode and its bytes, and all blocks before the data area, stay; ownership holds, the entry on disk is up to date; panics exactly on a bad range or when the blocks by which the file grows, and its indirect block if new, are more than are free before the call; a device must be the console, and changes nothing on the volume |
| Inode.FileSystem.Read | src/fs/inode.c:284-321 | returns exactly the bytes of the file in the range, cut at its end, nothing past the end, and panics exactly when offset plus count wraps; a device answers what the console does and panics exactly if it is not the console |
| Inode.FileSystem.ReadBlocks | src/fs/inode.c:304-318 | the chunk loop returns one stretch of the file |
| Inode.FileSystem.Sync | src/fs/inode.c:97-119 | stores a valid entry, and turns into a load for an invalid one |
| Inode.FileSystem.ClearPlace | src/fs/inode.c:157-163 | frees the block of one place and no other |
| Inode.FileSystem.ClearBlocks | src/fs/inode.c:152-179 | every block of the inode is freed, and no other owner loses one |
| Inode.FileSystem.Clear | src/fs/inode.c:152-183 | the file becomes empty; if the entry was not marked valid the entry on disk stays as it was |
| Inode.FileSystem.Put | src/fs/inode.c:193-216 | the last reference to an unlinked inode clears exactly the bits of its blocks and stores the old entry with its type cleared; every other inode and its bytes, and all blocks before the data area, stay; ownership holds |
| Inode.FileSystem.AllocInode | src/fs/inode.c:62-83 | takes the first free inode but 0, empty, and panics exactly if there is none; ownership holds |
| FileBlocks.GrowOwned | src/fs/inode.c:240-282 | adding a block keeps one owner for every block in use and all data of all files |
| FileBlocks.FreeOwned | src/fs/inode.c:152-183 | freeing a place keeps one owner for every block in use |
| FileBlocks.WriteDone | src/fs/inode.c:356-360 | after the size update there is no hole and no spare block, and the contents are the overwritten sequence |
| FileBlocks.DeadInode | src/fs/inode.c:203-205 | a freed inode owns nothing, whatever its stale entry says |
| Bytes.WordBytes | src/fs/inode.c:269-270 | word i of an indirect block is bytes 4i to 4i + 3, low byte first |
| Bytes.SetWordBytes | src/fs/inode.c:271-276 | storing a block number in an indirect block puts its four bytes there, low byte first, and changes no other byte |
| FileBlocks.FileBlockIs | src/fs/inode.c:240-282 | the block map: the first 12 addresses, then the words of the indirect block |
| FileBlocks.ContentIs | src/fs/inode.c:304-318 | byte p of a file is byte p modulo 512 of the block that holds block p / 512 |
| FileBlocks.OverwriteIs | src/fs/inode.c:340-360 | overwritten bytes are the new ones, the others stay, and the length is the larger one |
| Directory.SameName | src/lib/string.c:74-84 | two names compare equal exactly if their texts up to the first NUL or 14 bytes are equal |
| Directory.Lookup | src/fs/inode.c:363-378 | finds the number bound to the name and the index of its entry, and 0 exactly if the name is not bound |
| Directory.FreeSlot | src/fs/inode.c:391-398 | the first free entry, or the one past the end |
| Directory.Insert | src/fs/inode.c:380-406 | fails exactly on a present name; panics exactly if the name is absent, every slot is in use and the growth passes the largest size or the free blocks; otherwise adds that binding only, with the number cut to 16 bits, growing exactly if every slot is in use; names stay unique; every other inode and its bytes stay; the first free entry, or a new one at the end, gets the number, low byte first, and the 14 bytes of the name |
| Directory.Remove | src/fs/inode.c:408-413 | deletes the binding of that entry only; names stay unique; never panics; every other inode and its bytes stay, and no block is taken or freed |
| Directory.InsertBinding | src/fs/inode.c:400-403 | overwriting a free slot, or appending one, adds one binding |
| Directory.RemoveBinding | src/fs/inode.c:408-413 | zeroing a slot removes its binding |
| Directory.BindingFits | src/fs/inode.c:402-402 | the binding made is the one asked for exactly if the number is not 0 and below 65536 |
| Directory.EntryBytes | src/fs/inode.c:400-403 | the number is bytes 0 and 1 of an entry, low byte first, and the name bytes 2 to 15 |
| Directory.BoundByBytes | src/fs/inode.c:363-378 | a name is bound to a number exactly if the 16 bytes of some entry hold that number, not 0, and that name |
| Directory.TextIs | src/lib/string.c:74-84 | the text of a name ends before its first zero byte, or with the name |
| Slab.Allocator.constructor | src/kernel/mem.c:51-81 | at start-up every page is free and nothing is live |
| Slab.Allocator.KallocPage | src/kernel/mem.c:89-97 | moves the first free page out, and faults exactly if there is none; page i is 4096 i bytes after the start |
| Slab.Allocator.KfreePage | src/kernel/mem.c:99-105 | a page handed out goes back to the free list |
| Slab.Allocator.RoundUp | src/kernel/mem.c:180-193 | the least power of two that holds the size, at least 8 |
| Slab.Allocator.LinkSlots | src/kernel/mem.c:202-206 | links all partitions of a page into a list in address order and touches no other page |
| Slab.Allocator.PartitionPage | src/kernel/mem.c:195-216 | a free page becomes a page of free partitions; no word in use changes |
| Slab.Allocator.AllocPartition | src/kernel/mem.c:218-224 | hands out the first partition of the list |
| Slab.Allocator.Kalloc | src/kernel/mem.c:107-153 | a live partition of the least fitting size, aligned to it and new; all live ones stay; no word in use changes; it comes from the first page of its bucket with room, or from the first free page, newly cut, and no other page changes place; faults exactly if no page of the bucket of that size has room and no page is free; it is the head of the list of its page |
| Slab.Allocator.Kfree | src/kernel/mem.c:155-178 | the partition is no longer live, all others stay, no other word in use changes; its page goes back to the free list exactly if it was the last live one, and no other page changes place; the partition goes behind the head of the list of its page |
| Slab.Allocator.Recycle | src/kernel/mem.c:170-174 | a page without live partitions moves from its bucket to the free list |
| Slab.Allocator.Store | src/kernel/mem.c:20-28 | stores by the holders of memory never disturb the free lists |
| Slab.LiveDisjoint | src/kernel/mem.c:107-153 | in every valid state live partitions are disjoint, aligned to their size, and inside one page |
| Slab.PopOk | src/kernel/mem.c:135-141 | with the guard, taking a partition leaves the list non-empty and the page consistent |
| Slab.PushOk | src/kernel/mem.c:162-168 | inserting behind the head keeps the list exactly the free partitions |
| Slab.AllFree | src/kernel/mem.c:170-171 | a count of 0 means every partition of the page is in the list |
| Slab.RoomIs | src/kernel/mem.c:134-136 | a bucket has room exactly if a page of it has at least two partitions that are not live |
| Slab.Addresses | src/kernel/mem.c:195-216 | page i is 4096 i bytes after the start, and partition n of a page n sizes into it |
| Slab.TakeAndFree | src/kernel/mem.c:107-178 | a partition taken from a new page and freed again leaves all pages, buckets and live partitions as before, the page now last on the free list |
| Slab.NothingLive | src/kernel/mem.c:155-178 | while nothing is live every page is free or handed out whole, so no page is lost in a bucket |
| PageTable.PartsSeparate | src/aarch64/mmu.h:62-65 | the four index fields agree exactly for addresses of the same 48-bit page |
| PageTable.PartsAre | src/vm/pgtbl.c:32-32 | the four indices are bits 39 to 47, 30 to 38, 21 to 29 and 12 to 20 of the address, in this order |
| PageTable.EntryParts | src/vm/pgtbl.c:107-107 | an entry holds the flags with bit 0 set in bits 0 to 11, the frame in bits 12 to 47 and the high flags above |
| PageTable.EntryLevels | src/vm/pgtbl.c:39-54 | a translation goes through three entries with bit 0 set, each with the frame of the next table in bits 12 to 47, to the leaf |
| PageTable.HangKeepsEntry | src/vm/pgtbl.c:41-49 | adding an empty table changes no translation |
| PageTable.MapOne | src/vm/pgtbl.c:107-107 | storing a leaf entry changes exactly the addresses of one page of one page table |
| PageTable.Memory.Hang | src/vm/pgtbl.c:44-48 | a zeroed frame becomes a table in the tree; no page table translates differently; the new entry is 3 modulo 4096 with the frame in bits 12 to 47 |
| PageTable.Memory.HangNext | src/vm/pgtbl.c:39-50 | a missing table is added from one frame; exactly the tables below it are then missing, and no page table translates differently |
| PageTable.Memory.GetPte | src/vm/pgtbl.c:20-55 | with a table, finds the slot exactly if the missing tables may be added and are no more than the free frames, and takes exactly one frame for each; a mapped address is found with nothing changed; no page table translates any address differently; without a table, finds nothing or loses a frame; the path to the slot is bits 39 to 47, 30 to 38 and 21 to 29 of the address, and its index bits 12 to 20 |
| PageTable.Memory.Walk | src/vm/pgtbl.c:28-54 | the walk of a call that has a table, with the same exact conditions |
| PageTable.Memory.Map | src/vm/pgtbl.c:100-113 | succeeds exactly if the missing tables are no more than the free frames; then the page translates to the frame, and every other page of every page table translates as before; the entry holds the flags with bit 0 set in bits 0 to 11, the frame in bits 12 to 47 and the high flags above |
| PageTable.Memory.Unmap | src/vm/pgtbl.c:115-127 | nothing changes, so the address is unmapped afterwards exactly if it was before |
| PageTable.Memory.CopyToUser | src/vm/pgtbl.c:137-154 | copies everything exactly if every page of the stretch is mapped, and then changes no table and takes no frame; over pages with frames of their own, within one turn of the 48-bit addresses, the stretch reads back as the source and no other byte changes; otherwise it stops at the first page that is not mapped |
| PageTable.CopyReadsBack | src/vm/pgtbl.c:137-154 | over pages with frames of their own, reading the virtual addresses gives the source |
| PageTable.CopyUntouched | src/vm/pgtbl.c:137-154 | a byte that no address of the stretch translates to keeps its value |
| PageTable.CopyExact | src/vm/pgtbl.c:137-154 | over mapped pages with frames of their own, every byte of the stretch reads back and every other byte of memory is unchanged |
| Scheduler.Sched.constructor | src/proc/proc.c:32-40 | at boot every CPU runs its idle process |
| Scheduler.Sched.Create | src/proc/proc.c:184-200 | a new process is on no queue, not killed, with run time 0, under a pid no process has |
| Scheduler.Sched.Reap | src/proc/proc.c:130-140 | collecting a zombie frees its pid and keeps every invariant |
| Scheduler.Sched.Activate | src/proc/sched.c:41-61 | wakes exactly sleepers and unstarted processes, not deep sleepers on an alert, never a zombie; the invariant stays |
| Scheduler.Sched.Kill | src/proc/proc.c:146-163 | a killed process is marked and woken unless it sleeps deeply, runs, waits to run or is a zombie |
| Scheduler.Sched.Schedule | src/proc/sched.c:125-156 | unless the process is killed and not to become a zombie, it is in the state asked for, or runs again; the ready process with the least run time and pid runs, the idle one exactly if none is ready; every other state, run time, queue and CPU stays; a zombie stays one, queued keys stay, and the invariant stays |
| Scheduler.SwitchOk | src/proc/sched.c:125-145 | one process runs on each CPU, the queues hold exactly the runnable processes of their CPU in order, and the next process is always runnable |
| Scheduler.SwitchMoves | src/proc/sched.c:63-82 | the process that ran is in the state asked for unless it runs again, and nothing else changes but the one that runs |
| Scheduler.SwitchPicks | src/proc/sched.c:84-92 | the one that runs is the ready process with the least run time, of these the least pid, or the idle process if none is ready |
| Scheduler.SwitchPicksLeast | src/proc/sched.c:84-92 | the process that runs next has the least key of all that are ready |
| Scheduler.WakeOk | src/proc/sched.c:48-59 | waking a process keeps every invariant |
| Scheduler.EnqueueSorted | src/proc/sched.c:22-34 | queueing keeps the order by run time and pid |
| RunQueue.LessIsBefore | src/proc/sched.c:22-34 | the comparison of two nodes is the order of their processes by run time and pid |
| RunQueue.RunQueue.TimesChanged | src/proc/sched.c:94-99 | the tree stays valid when run times of processes that are not queued change |
| RunQueue.RunQueue.InOrderOfTime | src/proc/sched.c:15-34 | the processes in a valid tree are a sorted queue of the scheduler without repetition |
| RunQueue.RunQueue.Put | src/proc/sched.c:66-72 | inserting the node is queueing the process; the insertion never fails; nodes of other processes that are not queued are not touched |
| RunQueue.RunQueue.PickNext | src/proc/sched.c:84-92 | the first node is the process the scheduler runs next, the idle one exactly if the queue is empty |
| RunQueue.RunQueue.Take | src/proc/sched.c:117-122 | erasing the node takes exactly the process out of the queue; nodes of processes that are not queued are not touched |
| Scheduler.Sched.Tick | src/proc/sched.c:94-99 | charges the running process and switches unless it is killed; on a CPU with a running process that is not killed it is a step of the turns; nothing that concerns another CPU changes |
| Scheduler.TickTurns | src/proc/sched.c:94-145 | the charged process and the least key of all in turn decide the next turn |
| Scheduler.RuntimesStayEven | src/proc/sched.c:84-123 | in every run of ticks from equal run times, run times stay within one slice |
| Scheduler.RunsAfterWait | src/proc/sched.c:84-123 | a process runs after exactly the number of ticks that its wait says |
| Scheduler.Fair | src/proc/sched.c:84-123 | from any moment every process runs again within 2N ticks |
| Scheduler.TickElsewhere | src/proc/sched.c:94-145 | a tick of one CPU leaves the running process, the queue and the turns of every other CPU |
| Scheduler.Projection | src/proc/sched.c:94-145 | what the ticks of the other CPUs leave of any run is a run of ticks of one CPU |
| Scheduler.FairOnEveryCpu | src/proc/sched.c:84-145 | with all CPUs ticking in any order, from any moment every process of a CPU runs again within 2N ticks of that CPU |
| Descriptors.Tables.FileAlloc | src/fs/file.c:26-38 | takes the first free file, and fails exactly if there is none |
| Descriptors.Tables.FileDup | src/fs/file.c:41-48 | one more reference is in hand and counted |
| Descriptors.Tables.FileClose | src/fs/file.c:59-86 | one reference goes; with the last one the file is free and its inode or pipe end is released, once, and only then; what is given back is recorded |
| Descriptors.Tables.Release | src/fs/file.c:73-85 | the inode of a file that has gone is put, or its pipe end closed, and nothing else |
| Descriptors.LastGone | src/fs/file.c:66-85 | with the file gone, references taken are still those given back and those held |
| Descriptors.Tables.PipeClose | src/fs/pipe.c:43-60 | a pipe is freed exactly when its second end closes, and never twice; closing the write end clears the write flag and closing the read end the read flag |
| Descriptors.Tables.FdAlloc | src/kernel/sysfile.c:40-50 | a reference in hand goes to the first free slot, and fails exactly if there is none |
| Descriptors.Tables.Open | src/kernel/sysfile.c:348-364 | counts equal slots; succeeds exactly with a free file and a free slot, and then takes over one reference to the inode; on failure nothing has changed; file and slot are the first free ones |
| Descriptors.Tables.Dup | src/kernel/sysfile.c:71-81 | one more slot for the same file, counted; no file changes its type; fails exactly on a bad descriptor or without a free slot; the slot is the first free one |
| Descriptors.Tables.MakePipe | src/fs/pipe.c:17-40 | a new pipe with both ends open, one file each; references and other files stay |
| Descriptors.Tables.PipeAlloc | src/fs/pipe.c:9-41 | two free files become the two ends of a new pipe; panics exactly without two free files or memory for the pipe |
| Descriptors.Tables.Pipe2 | src/kernel/sysfile.c:452-473 | panics exactly without two free files or memory for the pipe, fails exactly without two free slots; two slots for the two ends, and no other file or slot changes; on failure files, slots and pipes are as before and the new pipe is freed; files and slots are the first free ones |
| Descriptors.Tables.Close | src/kernel/sysfile.c:118-126 | empties the slot and gives up its reference; fails exactly on an empty slot, and indexes outside the slots exactly on a descriptor out of range; pipes freed stay freed and no number is used again |
| Descriptors.Tables.Fork | src/proc/proc.c:251-256 | the child has a slot for every slot of the parent, counted; no file changes its type |
| Descriptors.Tables.Exit | src/proc/proc.c:90-96 | all slots of the process are empty, no other slot changes; a file is free exactly if no slot is left for it, the others keep their types; each inode is given back as often as files of it have gone, each pipe end is closed once exactly if its file has gone, and exactly the pipes that have gone are freed |
| Descriptors.FlagsClosed | src/fs/pipe.c:43-60 | the flags of every pipe keep saying which ends some file stands for |
| Descriptors.Tables.FlagsAreEnds | src/fs/pipe.c:43-60 | the read flag of a pipe is set exactly if some file stands for its read end, and the write flag for its write end |
| Semaphore.Semaphore.constructor | src/lib/sem.c:6-11 | starts with its tokens and no sleeper |
| Semaphore.Semaphore.Get | src/lib/sem.c:13-21 | takes a token exactly if there is one |
| Semaphore.Semaphore.GetAll | src/lib/sem.c:28-38 | takes all tokens there are |
| Semaphore.Semaphore.Post | src/lib/sem.c:85-94 | the longest sleeper gets the token; tokens are conserved; the assertion about sleepers never fails |
| Semaphore.Semaphore.PostAll | src/lib/sem.c:40-49 | wakes every sleeper, returns their number, leaves the free tokens, and terminates |
| Semaphore.Semaphore.WaitBegin | src/lib/sem.c:61-70 | takes a token or sleeps behind the others; as many sleep as the value is below zero |
| Semaphore.Semaphore.WaitEnd | src/lib/sem.c:74-82 | a waiter leaves with a token exactly if it was given one; an alerted one leaves without, the order of the others stays, and the assertion never fails |
| Pipe.Pipe.constructor | src/fs/pipe.c:17-29 | an empty pipe with both ends open |
| Pipe.Pipe.Counters | src/fs/pipe.c:74-78 | the wrapped counters still tell full, empty and the slot |
| Pipe.Pipe.Write | src/fs/pipe.c:62-86 | appends bytes in order, fails exactly if bytes are left and there is no reader or the writer is killed, and then has written none; stops otherwise only when full or done; at most 512 bytes wait |
| Pipe.Pipe.Read | src/fs/pipe.c:88-110 | what has been read is always the beginning of what was written; takes as many bytes as wait, up to n; blocks exactly if none waits and a writer is left |
| Pipe.Pipe.Close | src/fs/pipe.c:43-60 | reports freeing exactly when both ends are closed |
| DiskQueue.Disk.Submit | src/driver/disk.c:134-151 | the request goes to the end; exactly the head is with the device; no other buffer changes |
| DiskQueue.Disk.Start | src/driver/disk.c:31-84 | gives the device the block number and, for a write, the data of the buffer |
| DiskQueue.Disk.Work | src/driver/disk.c:67-116 | the device carries out the command it was given, knowing nothing of the queue; requests, answers and the invariant stay |
| DiskQueue.Disk.Collect | src/driver/disk.c:94-118 | the result taken from the device is the answer of the head in the one-at-a-time run |
| DiskQueue.Disk.Interrupt | src/driver/disk.c:87-132 | collects what the device did with its command; the head completes once, in order, with disk and answers as if the requests ran one at a time, and no other buffer changes; panics exactly on an empty queue or bad flags |
| DiskQueue.OneMore | src/driver/disk.c:94-130 | one more request in the one-at-a-time run |
| DiskQueue.LastWrite | src/driver/disk.c:87-132 | in the one-at-a-time run a block holds what the last write to it stored |
| DiskQueue.AnswerIs | src/driver/disk.c:87-132 | a read answers with the last write to its block before it, or the first contents |
| Shell.TokensCover | src/user/sh/main.c:281-324 | the tokens of a line cover exactly its characters that are not space |
| Shell.TokensRead | src/user/sh/main.c:278-324 | the kind of every token is read off its characters: a symbol is one of the seven characters alone, two > are an append, and a word is a longest stretch of characters that are neither space nor symbol |
| Shell.GetToken | src/user/sh/main.c:281-324 | takes the first of the remaining tokens, and reports the end exactly if there is none |
| Shell.Peek | src/user/sh/main.c:326-335 | skips space only and tells whether the next token is one of those asked for |
| Shell.ParseRedirs | src/user/sh/main.c:386-408 | takes the redirections that are next, in order, and fails exactly if a file name is missing; < reads its file as descriptor 0, > and >> write it as descriptor 1 |
| Shell.WrapLast | src/user/sh/main.c:386-408 | each redirection is wrapped around the command and the redirections before it |
| Shell.ParseExec | src/user/sh/main.c:425-455 | a simple command or a block, as the parser on tokens takes it |
| Shell.ParseBlock | src/user/sh/main.c:410-423 | a line in parentheses and its redirections, as the parser on tokens takes it |
| Shell.ParsePipe | src/user/sh/main.c:374-384 | a pipeline, as the parser on tokens takes it |
| Shell.ParseLine | src/user/sh/main.c:358-372 | a line, as the parser on tokens takes it; the recursion terminates |
| Shell.SimpleSound | src/user/sh/main.c:425-455 | words and redirections taken are those of the tokens used, in order, with fewer than ten words |
| Shell.LineSound | src/user/sh/main.c:358-372 | what the parser takes derives by the grammar from exactly the tokens it used |
| Shell.UnitComplete | src/user/sh/main.c:425-455 | a simple command or block that the grammar derives is taken whole, whatever may follow one |
| Shell.LineComplete | src/user/sh/main.c:358-372 | a line that the grammar derives is taken whole, to that command, before a closing parenthesis or the end |
| Shell.ParserIsGrammar | src/user/sh/main.c:342-372 | the parser uses up all tokens with a command exactly if the grammar derives that command from them |
| Shell.Unambiguous | src/user/sh/main.c:358-455 | the grammar derives at most one command from a line |
| Shell.LineWords | src/user/sh/main.c:358-455 | every word of the tokens is in the command exactly once |
| Shell.NulTerminate | src/user/sh/main.c:458-501 | stores a NUL at the end of each word of the command and nowhere else |
| Shell.WordKept | src/user/sh/main.c:458-501 | no NUL lands inside a word, so each word is a C string |
| Shell.ParseCmd | src/user/sh/main.c:342-356 | returns a command exactly if the grammar derives one from the tokens of the whole line, and then that one; every word of the line is in it once, and the C string at every word is that word; a panic leaves the buffer alone |

## Left out

- Concurrency inside a step: every section under a lock is one atomic step. A commit runs without operations joining it, and a block of the group is not held during it.
- The packing of the parent pointer and the colour of a tree node into one word.
- The eviction of a block for which a process already waits.
- Cache.BlockCache.Sync: does not say what the store past a full header destroys; the call without a context is `Cache.BlockCache.WriteThrough`.
- Cache.BlockCache.EndOp: requires that nobody holds a block of the group, for whom the code waits, and a device that has all the slots of the group.
- The inode layer runs over the cached view of the volume and does not charge quotas. The slot of an indirect block is changed without a sync, so its durability is not claimed.
- Inode.FileSystem.Alloc: does not model the panic on an empty quota, which belongs to `Cache.BlockCache.Sync`.
- Inode.FileSystem.Write: what the console does with the bytes; a panic leaves the state unspecified, as the machine stops.
- The list of cached inodes, sharing, sleep locks, paths and the system calls that create and remove files.
- The minor device number of an inode.
- Slab.Allocator.Kfree: a whole page that was handed out by a request above 2048 bytes goes back through KfreePage; freeing it with kfree is not modelled.
- The links of the list of free pages are kept in the free pages themselves; they appear only as arbitrary contents of pages that are not cut, which `Slab.Allocator.Store` allows.
- PageTable.Memory.GetPte: does not say what a walk through a page that was not cleared finds.
- Page reference counts, TLB invalidation, freeing of page tables, mmap, page faults.
- The index fields and entry fields are written as division and remainder by powers of two instead of masks and shifts.
- Scheduler.Sched.Schedule: the timer and the context switch; an idle process only ever offers itself as runnable. The window between going to sleep and being woken belongs to the semaphore and no liveness is claimed for it.
- Descriptors.Tables.Close: does not say what an index outside the slots reads.
- Descriptors.Tables.Open: path lookup and the inode itself; the inode is a number whose reference the file takes over.
- Semaphore.Semaphore.Post: does not model 32-bit wrap-around of the value.
- DiskQueue.Disk.Start: the register protocol of the card; the device transfers a block in one step.
- Shell.ParseCmd: running commands and the exhaustion of the parser's memory.
- Interrupts, traps, boot, drivers other than the disk queue, inter-process messages, user programs other than the shell parser.
