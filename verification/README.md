# xv6, modelled and verified in Dafny

This project models the stateful core of an xv6 kernel that has been extended with a multi-level
feedback scheduler, keyed shared memory, threads and checksummed files, together with its user-level
allocator, shell parser and `grep` matcher, and proves what each of them is for.

`dafny verify dfyconfig.toml` checks the whole project.

## How it is organised

| files | what they model |
|---|---|
| `BufferLists`, `BufferCache` | the LRU list and the disk queue as linked nodes; every interleaving of `bread`, `bwrite`, `brelse` and the disk interrupt |
| `InodeCache` | every interleaving of `iget`, `idup`, `ilock`, `iunlock`, `iupdate` and `iput`, which frees an inode outside the cache lock, with `ialloc` and changes of links and names |
| `Common` | what several models use |
| `DiskFormat`, `FileSystem` | blocks and words on disk; the block bitmap, block maps, `readi`, `writei`, `itrunc`, for plain files, directories and checked files on one volume |
| `Xor`, `CheckedFiles` | the checksum; reading a checked file from a device whose contents may have changed, and what `stat` reports |
| `Directories`, `Paths` | directories on a volume as maps from names to inode numbers; cutting a path and walking along it through them |
| `PageDirs`, `AddressSpaces`, `VirtualMemory`, `Processes` | page directory reference counts, the page pool, private and shared memory, `fork`, `clone`, `exec`, `exit`, `wait`, `join` |
| `Departures`, `FileDepartures` | runs from a freshly booted kernel and from a new volume that show what the next section lists |
| `PageTables`, `UserCopy` | two-level page tables as a flat map; `copyout` through them |
| `Mlfq` | the scheduler |
| `PipeRing`, `PipeProtocol` | the pipe's ring with its 32-bit counters; every interleaving of readers, writers and closers, with `sleep` taken apart into its lock operations |
| `Spinlocks` | every interleaving of exchanges and of `pushcli` and `popcli` calls |
| `ConsoleInput` | the console's line editor over its ring |
| `Umalloc` | the Kernighan and Ritchie free list |
| `ShellGrammar`, `ShellRoundTrip`, `ShellParser` | the shell's grammar and a printer for it; the parser with its cursor and the pass that writes NULs |
| `Regex` | the matcher of `grep` against a semantics of patterns |

Code that changes things in place is a class or a method with its loops, specified by functions and
invariants over values; concurrent code is a state machine whose steps are the sections between lock
operations. Elsewhere a system call is one step.

What the code gets from outside is a parameter: the address `sbrk` answers with, whether the caller
has been killed, what an uninitialised array holds, the process that runs next in an interleaving, the
contents of a disk.

## Where the code does not do what one would expect

The model follows the code. Each item has its exact condition and, where a run is named, an input.

* `writei` uses the address of a checked block with the checksum still in it. A write to a checked file
  passes `bread` a number that is not the block's if and only if it touches an old block whose stored
  checksum is not zero (`FileSystem.Volume.WriteI`, outcome `Misaddressed`;
  `FileDepartures.SecondWriteMisaddressed`). The disk controller takes only 28 bits of a sector number, so
  such a write still reaches the block's own sector, through a second buffer, if and only if the lower four
  bits of the checksum are zero (`CheckedFiles.DiskSectorIff`).
* Two numbers that the controller takes for the same sector break the buffer cache
  (`BufferCache.StepKeepsIff`; `BufferCache.TwoNumbersOneSector`).
* `itrunc` passes `bfree` addresses with checksums in them. Truncating a checked file goes wrong if and
  only if some block of it has a checksum other than zero (`FileSystem.Volume.ITrunc`). `bfree` then looks
  for the bit 4096 bitmap blocks further on for each unit of the checksum (`FileSystem.StrayBit`), and
  panics if that block, with the blocks freed so far zeroed, has the bit clear
  (`FileDepartures.TruncationPanics`).
* A write that ends inside a checked file puts new checksums into the inode and does not write the inode
  to disk. The two then differ if and only if in some direct block the bytes written have another exclusive
  or than those they replace (`FileSystem.Volume.WriteI`, `FileSystem.AddressesKeptIff`;
  `FileDepartures.StaleInode`).
* `balloc` searches whole bitmap blocks. A write or a new directory entry that needs more blocks than are
  free panics if and only if the size of the volume is a multiple of 4096, and otherwise gets the block
  number `size`, past the end of the device (`FileSystem.Volume.WriteI`, `Directories.DirLink`;
  `FileDepartures.WriteWhenFull`, `FileDepartures.EntryWhenFull`).
* `unlink` of a name that a directory has for itself locks the directory twice and never returns
  (`Directories.DirUnlink`, outcome `Hangs`).
* An inode number that is looked up after its inode has been freed makes `ilock` panic. The entry for the
  parent in a directory that has been removed is such a number, since `unlink` takes its link away and
  leaves the entry. A lookup is safe if and only if the inode is in use and nobody is freeing it, as it is
  for every name that a link covers (`InodeCache.StepKeepsIff`, `InodeCache.NamedIsOpen`;
  `InodeCache.StaleLookupPanics`).
* `readi` leaves the buffer busy when a checksum does not match. The read fails, and every later read that
  comes to that block never returns (`CheckedFiles.ReadI`, `CheckedFiles.SecondReadHangs`,
  `BufferCache.NeverReleased`; `FileDepartures.SecondReadHangs`).
* `aggregate_checksum` runs off the end and panics if and only if the file, of whatever type, has all 140
  blocks (`CheckedFiles.AggregateChecksum`; `FileDepartures.LargestFilePanics`).
* `setupkvm` needs thirteen pages and gives none back when they run out. `fork` loses pages if and only if
  there is a slot and 2 to 13 pages are free, `exec` if and only if 1 to 12 are
  (`Processes.Kernel.Fork`, `Processes.Kernel.Exec`; `Departures.ForkLosesPages`).
* `clone` makes the child runnable before it writes to the child's stack. It returns -1 with a live child
  if and only if there is a slot and a page and the end of the stack is not mapped
  (`Processes.Kernel.Clone`; `Departures.CloneFailsWithChild`).
* `freevm` frees only up to the shared memory of the process that calls it, so `wait` loses pages if
  and only if it reaps the last user of a directory and the child's size is above the caller's bound
  (`Processes.Kernel.Wait`; `Departures.WaitLosesPages`).
* `allocshm` takes its mappings away again when pages run out, but not the pages: all pages that were
  free are lost (`VirtualMemory.Memory.AllocShm`; `Departures.AttachLosesPages`).
* `shmgetat` copies as many page addresses as were asked for and then maps as many as the segment has.
  It maps the right pages if and only if at least that many were asked for
  (`AddressSpaces.AttachExactIff`, `AddressSpaces.AttachedOldIff`;
  `Departures.ShortRequestMapsWrongPages`).
* Each thread keeps its own record of the address space it shares with the others. `shmgetat` and
  `growproc` update only the caller's, so with other threads a change leaves their records wrong
  (`Processes.Kernel.ShmGetAt`, `Processes.Kernel.GrowProc`; `Departures.ThreadLeftBehind`).
* `growproc` by minus the whole size frees the pages and then fails, leaving the old size on record
  (`VirtualMemory.Memory.Resize`; `Departures.ShrinkBreaksRecord`).
* The branch of `join` for the last thread of an address space is never taken.
* The scheduler starves nobody if and only if a process has at most 20 competitors
  (`Mlfq.NobodyStarvesIff`): 21 processes with five ticks each outlast the 100 ticks after which the
  first of them is lifted again. Of 22 processes made at the start the last never runs
  (`Mlfq.FreshStarves`).
* A killed writer leaves a full pipe without waking the readers. A step loses a wakeup if and only if
  it is that one and a reader is asleep (`PipeProtocol.WakeupKeptIff`; `PipeProtocol.WakeupCanBeLost`).
* `kill` sets a flag and wakes a process that sleeps. A process killed after it has looked at the flag and before
  `sleep` has the table lock sleeps all the same. A step leaves a killed process asleep in a pipe, or on its way
  there, if and only if it is such a kill (`PipeProtocol.KillHeededIff`; `PipeProtocol.KillCanBeMissed`).
* `malloc` computes its units modulo 2^32, and `sbrk` takes the size as a signed number. The block is large
  enough if and only if the request is at most 2^32 - 8 bytes. A request that has to ask the kernel leaves
  the heap sound if and only if it is at most 2^31 - 16 bytes or more than 2^32 - 8, or nothing was ever
  obtained and the call fails: in between, `sbrk` gets a size that is not positive, answers with the old
  break and may take memory away, and `malloc` writes a header there (`Umalloc.UnitsSuffice`,
  `Umalloc.GrowSoundIff`, `Umalloc.Heap.Malloc`; `Umalloc.WildMalloc`).
* `>` and `>>` give the same redirection (`ShellGrammar.AppendIsWrite`).

## Model

| member | source | states |
|---|---|---|
| `BufferLists.BufferList.constructor` | kernel/bio.c:39-56 | binit leaves a well-linked circle that holds every buffer once, from the last to the first |
| `BufferLists.BufferList.Unlink` | kernel/bio.c:126-127 | the two pointer writes take exactly one buffer out of the circle, the others keep their order |
| `BufferLists.BufferList.PushFront` | kernel/bio.c:128-131 | the four pointer writes put the buffer in front of the circle in both directions |
| `BufferLists.BufferList.MoveToFront` | kernel/bio.c:126-131 | the released buffer becomes the most recently used, the others keep their order |
| `BufferLists.BufferList.FindCached` | kernel/bio.c:68-80 | following next pointers finds the buffer with the sector that has none in front of it, or none when no buffer on the list has it |
| `BufferLists.BufferList.FindVictim` | kernel/bio.c:82-91 | following prev pointers finds the buffer nobody uses that has only busy ones behind it, or none when all are busy |
| `BufferLists.RequestQueue.Append` | kernel/ide.c:137-141 | the walk to the end of the request chain appends one request |
| `BufferLists.RequestQueue.Pop` | kernel/ide.c:96-102 | the interrupt takes the oldest request off the chain |
| `BufferCache.StepKeepsIff` | kernel/bio.c:61-137 | every step of every client and of the disk keeps the invariant of the cache, the queue and the disk, if and only if it does not recycle a buffer for a sector held under other numbers, release a buffer that differs from the disk, or fail to move data |
| `BufferCache.PanicsIff` | kernel/bio.c:82-92 | bget panics exactly when every buffer is busy and none of them holds the sector |
| `BufferCache.RunKeeps` | kernel/bio.c:61-137 | so does every run of such steps |
| `BufferCache.InterruptKeepsIff` | kernel/ide.c:90-120 | the interrupt touches only the first buffer of the queue and those asleep on it, and keeps the invariant if and only if the transfer was done or had nothing to move |
| `BufferCache.ReleaseKeepsIff` | kernel/bio.c:118-137 | releasing a buffer wakes whoever sleeps on it, and keeps the invariant if and only if the buffer equals its sector |
| `BufferCache.OrderIsRecency` | kernel/bio.c:118-131 | along every run from a new cache the list is in the order of last release, latest first, and the buffers never released are behind, from the last to the first |
| `BufferCache.TraceOf` | kernel/bio.c:61-137 | every run has the sequence of states that this is stated of |
| `BufferCache.VictimIsOldest` | kernel/bio.c:82-91 | a buffer that bget recycles is, of all that nobody uses, the one released the longest ago |
| `BufferCache.OneBufferPerSector` | kernel/bio.c:61-94 | in every reachable state no sector of the disk, as the controller addresses it, is in two buffers |
| `BufferCache.OneUserPerBuffer` | kernel/bio.c:61-137 | a buffer has at most one user, and one exactly when it is busy |
| `BufferCache.IdleBufferEqualsDisk` | kernel/bio.c:82-91 | a buffer nobody uses is clean, off the disk queue and equal to its sector, so recycling it loses nothing |
| `BufferCache.UserSeesDisk` | kernel/bio.c:96-106 | a client that has not edited its buffer sees what is on disk, whatever the others do |
| `BufferCache.WrittenIsOnDisk` | kernel/bio.c:108-116 | when bwrite returns, what its caller put into the buffer is on the disk, whatever the others do meanwhile |
| `BufferCache.QueueDistinct` | kernel/ide.c:89-154 | the disk queue holds distinct busy buffers that are out of step, and the disk works on the first |
| `BufferCache.SleepersHaveCause` | kernel/ide.c:143-151 | a client asleep in bget waits for a busy buffer with its sector; one in iderw has its buffer queued or already in step |
| `BufferCache.TransferExact` | kernel/ide.c:68-116 | a transfer makes the first buffer equal to its sector, in the right direction, and touches no other sector |
| `BufferCache.ScanKeepsIff` | kernel/bio.c:68-91 | handing out a buffer, found or recycled, keeps the invariant if and only if no other buffer holds the same sector under other numbers |
| `BufferCache.OrderlyRun` | kernel/bio.c:8-18 | clients that write what they have edited and ask for numbers the controller takes whole, and a disk without errors, make only such steps |
| `BufferCache.ServedInOrder` | kernel/ide.c:89-154 | along every run the buffers queued before and started since are those completed followed by those still queued: first come, first served, none twice, none skipped |
| `BufferCache.ResumesAfter` | kernel/ide.c:143-151 | the client whose buffer is number k on the queue can go on exactly when k + 1 interrupts have come, whatever the others do |
| `BufferCache.NeverReleased` | kernel/bio.c:70-79 | while a buffer is not released nobody gets its sector, in any run, and whoever sleeps on it sleeps on if its user is gone |
| `BufferCache.TwoNumbersOneSector` | kernel/ide.c:77-80 | a run in which a reader no longer sees the disk, because the sector was written under a second number |
| `InodeCache.Scan` | kernel/fs.c:209-219 | the loop of iget finds the entry in use for the inode, or else the first entry that is not in use |
| `InodeCache.StepKeepsIff` | kernel/fs.c:157-310 | every step of every reference that does not panic keeps the invariant of cache, disk and links if and only if it keeps the rules: look up an inode in use that nobody is freeing, edit within the links, unlock what one has locked and as it is on disk, give up what is unlocked and not the only reference to an inode without links that was never read in |
| `InodeCache.RunKeeps` | kernel/fs.c:157-310 | so does every run of such steps |
| `InodeCache.OneEntryPerInode` | kernel/fs.c:204-233 | in every reachable state an inode has at most one entry, whose count is the number of references to it |
| `InodeCache.OneLocker` | kernel/fs.c:246-289 | one reference at a time has an inode locked, and the inode has then been read in |
| `InodeCache.FreedByLast` | kernel/fs.c:293-311 | while iput frees an inode, outside the cache lock, its reference is the only one and nothing names or links to the inode |
| `InodeCache.LastPutFrees` | kernel/fs.c:293-311 | iput of the only reference to an inode that has been read in and has no links truncates it, marks it free on the disk and gives its entry up |
| `InodeCache.OtherPutDrops` | kernel/fs.c:293-311 | any other iput only drops the reference |
| `InodeCache.LockSeesDisk` | kernel/fs.c:246-276 | ilock gives the inode as it is on the disk, and it stays so, whatever the others do, until the holder of the lock edits it |
| `InodeCache.EndKeeps` | kernel/fs.c:305-310 | the end of iput is right although ialloc may have handed the inode out again in between |
| `InodeCache.WrittenBy` | kernel/fs.c:157-311 | an inode on disk is changed only by whoever has it locked, who stores the copy in memory, by ialloc, which clears it and sets its type, when it is free, or by the iput of its last reference, and only that one marks it free |
| `InodeCache.NoPanics` | kernel/fs.c:246-311 | callers that keep the rules never meet the panics of ilock, iunlock and iput |
| `InodeCache.SleeperHasCause` | kernel/fs.c:256-260 | whoever sleeps in ilock sleeps because another reference has the inode locked |
| `InodeCache.NoOrphans` | kernel/fs.c:293-311 | an inode in use without links is in somebody's care |
| `InodeCache.NamedIsOpen` | kernel/fs.c:491-520 | an inode that an entry names, within its links, or that a reference is held to is safe to look up |
| `InodeCache.StaleLookupPanics` | kernel/fs.c:271-274 | a free inode looked up all the same makes ilock panic |
| `DiskFormat.WordSetWord` | kernel/fs.c:347-354 | storing a word in an indirect block changes that word and no other |
| `FileSystem.Volume.BAlloc` | kernel/fs.c:65-87 | finds the first clear bit over whole bitmap blocks, past the end of the device if need be, and sets exactly it; panics exactly when there is none |
| `FileSystem.Volume.BFree` | kernel/fs.c:91-108 | zeroes the block and clears its bit; the panic on a clear bit is never reached for a block an inode owns |
| `FileSystem.Volume.BMap` | kernel/fs.c:331-358 | the address of a file block, direct or indirect, allocating zeroed blocks for the next one; exact cost in blocks, every other inode and file block kept; without enough of them it panics exactly if the size of the volume is a multiple of 4096, and otherwise gets block number size |
| `FileSystem.Volume.ReadI` | kernel/fs.c:407-440 | on a valid volume, for a file of any type: returns exactly the slice of the contents, fails exactly on a bad offset or a wrapping sum, and changes nothing, in memory or on disk |
| `FileSystem.FileLayout` | kernel/fs.c:331-358 | where each byte of a file is on the device, by the bytes of the inode and of the indirect block |
| `FileSystem.Volume.WriteI` | kernel/fs.c:444-478 | splices exactly min(n, 71680 - off) bytes into the contents, keeps every checksum right and every other inode reading as before, checked or not; exact conditions for refusal, for a misaddressed block, for the panic and for the block past the device when blocks run out; exactly when the inode on disk is written, and, for a write that ends inside, that the inode in memory stays as it is if and only if in every direct block the bytes written have the exclusive or of those they replace |
| `FileSystem.Volume.ReadBack` | kernel/fs.c:407-478 | a write followed by a read of the same range gives back what was written, whenever the write is done, and exactly when it is |
| `FileSystem.Volume.SetChecksum` | kernel/fs.c:661-689 | the checksum goes into the address, direct or indirect, which still leads to its block; no other address changes |
| `FileSystem.Volume.IAlloc` | kernel/fs.c:157-179 | the first free inode gets the type, in memory and on disk, with no links, no size and no addresses; fails exactly when there is none |
| `FileSystem.Volume.ITrunc` | kernel/fs.c:364-391 | for an inode of any type: done exactly when no block of a checked file has a checksum other than zero, and then the free blocks grow by exactly its blocks, indirect ones included, and the other inodes read as before; else the first such address goes to bfree, which panics, clears a bit or leaves the device by what the bitmap block that it leads to holds once the blocks before are freed |
| `FileSystem.StrayBit` | kernel/fs.c:91-108 | a block number with a checksum in it leads bfree to the same bit of a block 4096 bitmap blocks further on for each unit of the checksum, past the bitmap of the volume |
| `FileSystem.StrayFateIs` | kernel/fs.c:91-108 | exactly which byte and bit of the device bfree looks at for a number, and when it panics, clears a bit or leaves the device |
| `FileSystem.CleanIff` | kernel/fs.c:364-391 | no address of a whole file has a checksum in it if and only if the stored checksums of its blocks are all zero |
| `FileSystem.PartitionAlloc` | kernel/fs.c:65-87 | giving a clear block to an empty slot keeps bits, owners and slots a partition |
| `FileSystem.PartitionFree` | kernel/fs.c:91-108 | taking a block from its slot keeps the partition; the block's bit was set |
| `FileSystem.OwnedOnce` | kernel/fs.c:331-358 | equal non-zero block addresses come from the same slot of the same inode |
| `FileSystem.WholeKept` | kernel/fs.c:444-478 | an inode whose blocks are kept is as whole as before and has the same contents |
| `FileSystem.ImageEnd` | kernel/fs.c:460-477 | after the write loop the blocks are a whole file holding the spliced bytes |
| `FileSystem.AddressesKeptIff` | kernel/fs.c:465-476 | a write that ends inside a checked file leaves the addresses in its inode as they were if and only if in every direct block the bytes written have the same exclusive or as those they replace |
| `FileSystem.ReleasedAll` | kernel/fs.c:364-391 | when an inode has released everything the free blocks have grown by exactly its blocks |
| `ExclusiveOr.XorAllDetects` | kernel/fs.c:643-653 | changing exactly one byte always changes the checksum |
| `ExclusiveOr.XorAllConcat` | kernel/fs.c:643-653 | the checksum of two stretches is the exclusive or of theirs |
| `DiskFormat.SynthSplit` | kernel/fs.c:27-29 | an address and a checksum packed into one word come apart again |
| `FileSystem.GenChecksum` | kernel/fs.c:643-653 | the loop computes the exclusive or of all 512 bytes |
| `CheckedFiles.ReadI` | kernel/fs.c:407-440 | on any device contents, with addresses that lead anywhere and any buffers busy for good: the first block on the way that is held, has no place on the device or does not verify decides; held, the read never returns; without a place, it leaves the device; else it fails and the buffer stays busy; without such a block it returns the bytes; it refuses exactly a bad offset or a wrapping sum |
| `CheckedFiles.EndingIs` | kernel/fs.c:418-434 | a read hangs at a block if its buffer or that of the indirect block is held, leaves the device if the address is zero or too large, and fails otherwise |
| `CheckedFiles.SecondReadHangs` | kernel/fs.c:425-434 | one byte of a stored file damaged: the first read that covers its block fails, every later one never returns |
| `CheckedFiles.DiskSectorIff` | kernel/ide.c:77-81 | a block number with a checksum in it is another number for the cache, and the same sector for the disk if and only if the lower four bits of the checksum are zero |
| `CheckedFiles.CorruptionDetected` | kernel/fs.c:425-438 | change one byte of one stored block: that block, and only it, stops verifying |
| `CheckedFiles.SumOfSums` | kernel/fs.c:691-719 | the checksums of the blocks combine to the checksum of all bytes |
| `CheckedFiles.PaddingIgnored` | kernel/fs.c:691-719 | the zeros after the end of the file do not count |
| `CheckedFiles.AggregateChecksum` | kernel/fs.c:691-719 | for an inode of any type: the exclusive or of the top bytes of its addresses; it panics exactly when all 140 are there |
| `CheckedFiles.StoredSumOfContents` | kernel/fs.c:691-719 | the checksums stored with a whole checked file combine to the checksum of its contents |
| `CheckedFiles.StatChecksum` | kernel/fs.c:394-403 | what stat reports for a checked file is the exclusive or of all its bytes, for another file zero, if block numbers have at most 24 bits; it panics exactly on 140 blocks |
| `FileDepartures.SecondWriteMisaddressed` | kernel/fs.c:461 | from a new volume: one byte written twice to a checked file, and the second write is misaddressed |
| `FileDepartures.WriteWhenFull` | kernel/fs.c:73-86 | on every full new volume: a byte written to a file panics if the size is a multiple of 4096, and otherwise goes into the block past the end |
| `FileDepartures.EntryWhenFull` | kernel/fs.c:523-550 | and so does a name bound in an empty directory |
| `FileDepartures.TruncationPanics` | kernel/fs.c:91-108 | from a new volume of 8192 blocks: truncating a checked file of one byte panics |
| `FileDepartures.SecondReadHangs` | kernel/fs.c:429-434 | from a new volume: a damaged block read twice, and the second read never returns |
| `FileDepartures.LargestFilePanics` | kernel/fs.c:710-718 | from a new volume: stat on a file of the largest size panics |
| `FileDepartures.StaleInode` | kernel/fs.c:465-476 | from a new volume: a byte of a checked file overwritten, and the inode on disk is not the one in memory |
| `Directories.NameCmp` | kernel/fs.c:482-486 | the comparison loop says equal exactly when the first 14 bytes of the names agree |
| `Directories.FillField` | kernel/string.c:64-75 | the copied and padded field reads back as the name cut to 14 bytes |
| `Directories.EntryFormat` | include/fs.h:50-53 | the bytes of an entry: the inode number, lower byte first, and the name in a field of 14 |
| `Directories.BlockEntry` | kernel/fs.c:491-520 | entries past the end of the directory are empty, so the scan of a whole block sees none that is not there |
| `Directories.ScanBlock` | kernel/fs.c:501-517 | the first entry of a block with the name, or none |
| `Directories.DirLookup` | kernel/fs.c:491-520 | finds the inode number bound to a name, at the first entry with it; zero exactly when no entry has the name |
| `Directories.LinkBinds` | kernel/fs.c:544-547 | writing an entry into an empty place adds exactly one binding |
| `Directories.UnlinkBinds` | kernel/sysfile.c:198-200 | clearing the entry of a name removes exactly its binding |
| `Directories.StillDirectory` | kernel/fs.c:544-547 | names stay unique |
| `Directories.FindEmpty` | kernel/fs.c:536-542 | the first empty entry, or the end when all are in use |
| `Directories.DirLink` | kernel/fs.c:523-550 | refuses exactly a bound name, and then nothing changes; else adds one binding and leaves the other files alone; panics exactly when the directory has its largest size, or blocks run out on a volume whose size is a multiple of 4096; writes past the device exactly when they run out on any other |
| `Directories.DirUnlink` | kernel/sysfile.c:174-209 | refuses exactly the dots, a name that is not there and a directory that is not empty; never returns exactly on a name the directory has for itself; panics exactly on an inode without links; else removes the one binding, takes one link from the inode, and one from the directory if it loses a subdirectory, in memory and on disk, and leaves every other inode and the contents of the other files alone |
| `Directories.IsDirEmpty` | kernel/sysfile.c:149-162 | true exactly when no entry past the first two is in use |
| `Paths.SkipElem` | kernel/fs.c:566-589 | cuts off the first element of a path, shortened to 14 bytes, and the slashes behind it |
| `Paths.ElementsAreNames` | kernel/fs.c:566-589 | whatever slashes stand between them and at the ends, the elements of a path are its names, in their order and number, each cut to 14 bytes |
| `Paths.NamesOf` | kernel/fs.c:566-589 | every path is made of names and slashes in this way |
| `Paths.WalkOne` | kernel/fs.c:604-621 | one element leads to what is bound to it in a directory, and nowhere from a file |
| `Paths.WalkSplits` | kernel/fs.c:604-621 | the walk along two stretches is the walk along the second from where the first leads |
| `Paths.ParentIs` | kernel/fs.c:594-627 | the parent is where the walk along all elements but the last ends, if that is a directory |
| `Paths.InodeRefs.Namex` | kernel/fs.c:594-627 | the walk through the directories of the volume equals looking up one element after the other; on every path out, only the reference to the inode returned remains |
| `PageDirs.CountUpdated` | kernel/proc.c:80-110 | writing one entry of the reference table changes the count of one directory |
| `PageDirs.RefTable.GetIndex` | kernel/proc.c:66-77 | the index of a directory's live entry; -1 exactly when its count is zero |
| `PageDirs.RefTable.AddRef` | kernel/proc.c:79-96 | one more for this directory and no other; without a free entry nothing is recorded |
| `PageDirs.RefTable.DeleteRef` | kernel/proc.c:98-110 | one less for this directory and no other; the new count, or -1 |
| `AddressSpaces.ForkValid` | kernel/proc.c:229-277 | an address space with fresh private pages and the parent's shared pages fits into a valid memory; no page is lost |
| `AddressSpaces.DepartValid` | kernel/vm.c:587-603 | releasing an address space leaves every other one as it was, with the holder counts right |
| `AddressSpaces.DepartLoses` | kernel/vm.c:303-316 | the pages lost are exactly those of the space at the bound and above |
| `AddressSpaces.FreedWholeIff` | kernel/vm.c:303-316 | nothing is lost if and only if the space ends at or below the bound |
| `AddressSpaces.FreshValid` | kernel/exec.c:86-112 | a new address space of given size fits into a valid memory |
| `AddressSpaces.AttachValid` | kernel/vm.c:528-569 | attaching a segment just below the others keeps memory valid |
| `AddressSpaces.ResizeValid` | kernel/proc.c:208-224 | changing the private part together with its record keeps memory valid |
| `AddressSpaces.SharedFitsAbove` | kernel/vm.c:462-486 | shared memory never reaches below 32 pages from the top |
| `AddressSpaces.SegmentsTile` | kernel/vm.c:528-569 | from shm to the top every page is exactly one page of exactly one attached segment, at shm_va of its key |
| `AddressSpaces.SharersSeeSamePages` | kernel/vm.c:528-569 | all holders of a key map the same pages |
| `AddressSpaces.MappedPagesDistinct` | kernel/vm.c:249-347 | no mapped page is free, and no page is private in two places |
| `AddressSpaces.AttachExactIff` | kernel/vm.c:554-558 | after the copy and the mapping the segment's own pages lie at its place, whatever the array held, if and only if at least its length was asked for |
| `AddressSpaces.AttachedOldIff` | kernel/vm.c:553-564 | memory is valid after a held segment is attached if and only if the pages mapped are the segment's |
| `AddressSpaces.LastHolderUnmaps` | kernel/vm.c:587-603 | once the last holder has unmapped its shared part no directory maps the segment, so its pages may be freed |
| `VirtualMemory.Memory.Kalloc` | kernel/kalloc.c:64-77 | takes the first free page, which nobody uses; fails exactly when there is none |
| `VirtualMemory.Memory.Kfree` | kernel/kalloc.c:42-59 | a page nobody uses goes back to the front of the free list |
| `VirtualMemory.Memory.SetupDir` | kernel/vm.c:155-170 | a directory with its twelve tables; fails exactly with fewer than thirteen free pages, and then all of them are lost |
| `VirtualMemory.Memory.AllocUvm` | kernel/vm.c:249-272 | grows the private part by fresh pages; with too few free pages, or no room below shm, nothing changes |
| `VirtualMemory.Memory.DeallocUvm` | kernel/vm.c:278-299 | unmaps exactly the private pages between the sizes and frees exactly those |
| `VirtualMemory.Memory.FreeVm` | kernel/vm.c:303-316 | the directory, its twelve tables and its pages below the bound go back, those above are lost |
| `VirtualMemory.Memory.CopyUvm` | kernel/vm.c:320-347 | a directory of fresh pages with equal contents, no other page changed; fails exactly with fewer than thirteen free pages and one for each page copied; then everything is given back, unless there were fewer than thirteen, which are all lost |
| `VirtualMemory.Memory.ShmAdd` | kernel/vm.c:411-426 | the pages just mapped become the segment, with one holder |
| `VirtualMemory.Memory.ShmAddCount` | kernel/vm.c:428-437 | one more holder for exactly the keys in the mask |
| `VirtualMemory.Memory.DeallocShm` | kernel/vm.c:439-459 | takes the mappings away and frees no page |
| `VirtualMemory.Memory.AllocShm` | kernel/vm.c:462-486 | maps fresh pages below shm; when pages run out the mappings go and all pages that were free are lost |
| `VirtualMemory.Memory.CopyShm` | kernel/vm.c:490-508 | maps into the child exactly what the parent maps from shm up |
| `VirtualMemory.Memory.MapShm` | kernel/vm.c:511-526 | maps the given pages in order below shm, if that leaves the private part alone |
| `VirtualMemory.Memory.CopyAddresses` | kernel/vm.c:554-556 | only the requested number of addresses is copied |
| `VirtualMemory.Memory.AttachNew` | kernel/vm.c:545-552 | a new segment for a key nobody holds; exact result, exact loss when it fails |
| `VirtualMemory.Memory.AttachOld` | kernel/vm.c:553-564 | the pages copied and mapped and the holder counted, for a request of any length; exact result; memory stays valid if and only if the pages are the right ones |
| `VirtualMemory.Memory.Attach` | kernel/vm.c:528-569 | attaching either kind, for a request of any length: succeeds exactly when there is room and, for a new segment, pages; the exact pages lost when it fails; memory stays valid if and only if the right pages are mapped |
| `VirtualMemory.Memory.ShmRm` | kernel/vm.c:571-584 | the pages of a segment nothing maps go back, exactly those |
| `VirtualMemory.Memory.ShmRelease` | kernel/vm.c:587-603 | the mappings go, holder counts drop by one, and the pages of segments without a holder are freed |
| `VirtualMemory.Memory.ForkSpace` | kernel/proc.c:236-256 | a new address space like the parent's with copied private pages; fails exactly with fewer than thirteen free pages and one for each page copied; then no space changes, and pages are lost exactly when fewer than thirteen were free |
| `VirtualMemory.Memory.NewSpace` | kernel/exec.c:33-57 | a new address space for exec; fails exactly when it is empty, too large or there are not thirteen free pages and its own; exact loss |
| `VirtualMemory.Memory.ReleaseSpace` | kernel/proc.c:346-357 | the space goes, holder counts drop, memory stays valid, and the exact set of lost pages |
| `VirtualMemory.Memory.Resize` | kernel/proc.c:208-224 | the exact new size; memory stays valid if and only if it is not a shrinking to nothing |
| `Processes.EntryFree` | kernel/proc.c:79-96 | the pigeonhole: while some process slot is not in use some entry of the reference table is free |
| `Processes.Kernel.constructor` | kernel/proc.c:44-51 | the tables before the first process are consistent |
| `Processes.Kernel.FindSlot` | kernel/proc.c:130-138 | the first unused slot; -1 exactly when there is none |
| `Processes.Kernel.UserInit` | kernel/proc.c:174-204 | the first process with one page; takes fifteen pages and fails exactly with fewer |
| `Processes.Kernel.Fork` | kernel/proc.c:229-277 | a child in the first free slot with a directory of its own, a copy of the parent's; counts equal users; fails exactly without a slot or fourteen pages and those of the parent, and then no process or space changes; pages are lost if and only if there is a slot and 2 to 13 are free |
| `Processes.Kernel.Clone` | kernel/proc.c:648-701 | a child in the parent's directory, counted once more, exactly when there is a slot and a page; -1 is returned exactly without them or when the end of the stack is not mapped |
| `Processes.Kernel.Exec` | kernel/exec.c:86-112 | the caller moves to a new space; the old one goes, whole, exactly when the caller was its last user; exact failure; pages are lost if and only if 1 to 12 are free |
| `Processes.Kernel.Exit` | kernel/proc.c:282-320 | the caller becomes a zombie and nobody else changes state; its children, and only they, have init for their parent, who can wait for those that are not its threads; nothing else changes and the directory stays counted |
| `Processes.Kernel.FindZombie` | kernel/proc.c:333-342 | the first zombie child of the kind looked for, and whether there are children of that kind |
| `Processes.Kernel.Reap` | kernel/proc.c:342-366 | the directory is freed exactly when the zombie was its last user; the exact pages lost |
| `Processes.Kernel.Wait` | kernel/proc.c:324-379 | reaps the first zombie process, else fails or sleeps, exactly when; pages are lost if and only if the child was the last user and its size is above the caller's bound |
| `Processes.Kernel.OrphanReaped` | kernel/proc.c:304-379 | a process exits before its zombie child: init, once woken, reaps the child or one before it in the table, and does not sleep |
| `Processes.Kernel.Join` | kernel/proc.c:703-759 | reaps the first zombie thread; the count stays at least one, so the last-thread branch is never taken |
| `Processes.Kernel.ShmGetAt` | kernel/vm.c:528-569 | for any request and any number of threads: exactly when it succeeds, where the key then is and what the segment table then holds; the exact pages lost when it fails; the tables stay consistent if and only if nothing new is attached or the caller is alone in its space and gets the right pages |
| `Processes.Kernel.GrowProc` | kernel/proc.c:208-224 | for any number of threads: exactly when it succeeds and the new size, which stays when the sum is negative; the tables stay consistent if and only if it does not shrink to nothing and no other thread's record is left behind |
| `Departures.ForkLosesPages` | kernel/vm.c:161-167 | from a booted kernel: fork with five free pages fails and loses pages |
| `Departures.CloneFailsWithChild` | kernel/proc.c:683-695 | from a booted kernel: clone with a stack at the end of memory returns -1 and a second thread is runnable |
| `Departures.AttachLosesPages` | kernel/vm.c:462-486 | from a booted kernel: shmgetat for four pages with three free fails and loses them |
| `Departures.ShortRequestMapsWrongPages` | kernel/vm.c:553-564 | from a booted kernel: shmgetat for one page of a segment of four succeeds, and memory is no longer valid |
| `Departures.ThreadLeftBehind` | kernel/proc.c:208-224 | from a booted kernel: growproc by one of two threads succeeds, and the other one's record is wrong |
| `Departures.ShrinkBreaksRecord` | kernel/proc.c:208-224 | from a booted kernel: growproc by minus the whole size fails and the record of the space is wrong |
| `Departures.WaitLosesPages` | kernel/proc.c:346-357 | from a booted kernel: a child grows past what its parent's shared memory leaves, and wait loses its last page |
| `Processes.LastUser` | kernel/proc.c:98-110 | a count of one means exactly that the slot is the only user |
| `PageTables.TableAdded` | kernel/vm.c:65-85 | a new empty table changes no page of the flat map |
| `PageTables.EntryWritten` | kernel/vm.c:90-119 | writing one table entry changes one page of the flat map |
| `PageTables.PageDirectory.Walk` | kernel/vm.c:65-85 | finds or creates a table without changing the flat map; fails exactly without a free page |
| `PageTables.PageDirectory.MapPages` | kernel/vm.c:90-119 | maps consecutive pages, up to the first without memory for its table, and nothing else |
| `PageTables.KernelSpans` | kernel/vm.c:143-154 | the kernel's ranges take twelve directory entries, the first among them |
| `PageTables.PageDirectory.SetupKvm` | kernel/vm.c:143-170 | the kernel's map, page by page, with the text read-only; takes twelve tables and fails exactly with fewer pages, having used them all up; the user part is empty and its table is there |
| `PageTables.PageDirectory.MapUser` | kernel/vm.c:462-526 | mapping user pages then never fails and takes no page for a table |
| `PageTables.PageDirectory.FindUser` | kernel/vm.c:350-361 | the unchecked lookup of a user page meets a table and returns the flat map's entry |
| `PageTables.PageDirectory.UnmapUser` | kernel/vm.c:287-297 | the loop removes exactly the range from the flat map and yields exactly its pages |
| `UserCopy.Frames.CopyOut` | kernel/vm.c:363-387 | user code then sees the bytes at va and everywhere else what it saw; stops exactly when a page in the way is not open to user code, having copied what goes before it; the call is refused if that page has a table, and follows a null pointer exactly if it has none |
| `Mlfq.Scheduler.BoostAll` | kernel/proc.c:406-414 | the pass lifts exactly the processes that have waited too long, by one level |
| `Mlfq.Scheduler.Pick` | kernel/proc.c:417-443 | the level-by-level search finds the first runnable process of the best level, or none |
| `Mlfq.Scheduler.Schedule` | kernel/proc.c:389-448 | one pass is one round; somebody runs exactly when anybody can |
| `Mlfq.RoundExact` | kernel/proc.c:404-483 | for every table: the process that runs goes down a level exactly with its fifth tick at level 0 or 1 or its tenth at level 2, and never from level 3; everybody else keeps its ticks and goes up a level exactly after more than 100 ticks without the CPU |
| `Mlfq.AloneSinks` | kernel/proc.c:388-483 | a process alone is at level 0 for five rounds, at level 1 for five, at level 2 for ten, and at level 3 from then on |
| `Mlfq.SomeoneRuns` | kernel/proc.c:417-443 | whenever a process is runnable one is chosen |
| `Mlfq.WaitStep` | kernel/proc.c:388-448 | in the 100 rounds after a point every round in which another runs uses up budget that no boost restores |
| `Mlfq.LevelZeroWait` | kernel/proc.c:388-448 | at level 0 with at most 20 competitors a process runs within five rounds per competitor and one |
| `Mlfq.StarvedClimbs` | kernel/proc.c:406-414 | a starved process runs or climbs a level in every round |
| `Mlfq.BoundedWait` | kernel/proc.c:388-483 | with at most 20 competitors every runnable process runs within its patience, the climb and five rounds per competitor |
| `Mlfq.CrowdStarves` | kernel/proc.c:388-483 | 21 competitors can keep a process from ever running |
| `Mlfq.FreshStarves` | kernel/proc.c:388-483 | of 22 or more processes made at the start, number 21 never gets the CPU |
| `Mlfq.NobodyStarvesIff` | kernel/proc.c:388-483 | m competitors leave every process, whatever its level, running eventually if and only if m is at most 20; and so it is for m + 1 processes made at the start |
| `PipeRing.CountersMeet` | kernel/pipe.c:82-103 | the wrapped counters compare as empty and full exactly when the stream is |
| `PipeRing.CellOf` | kernel/pipe.c:90-113 | a wrapped counter names the right cell |
| `PipeRing.Ring.Put` | kernel/pipe.c:90 | stores one byte behind those waiting, whatever the counters have wrapped to |
| `PipeRing.Ring.Get` | kernel/pipe.c:113 | takes the oldest byte |
| `PipeRing.Ring.Fill` | kernel/pipe.c:81-91 | a writer's turn appends as much of its bytes as fits |
| `PipeRing.Ring.Drain` | kernel/pipe.c:110-114 | a reader's turn takes up to n of the oldest bytes |
| `PipeProtocol.StepKeeps` | kernel/pipe.c:57-118 | every step of every thread keeps locks, ends and the order of the stream |
| `PipeProtocol.WriterTakesTurn` | kernel/pipe.c:75-99 | on a ring that holds the stream of the protocol, the loop of pipewrite up to its sleep leaves the stream of the protocol's next state |
| `PipeProtocol.ReaderTakesTurn` | kernel/pipe.c:101-118 | and piperead from its check on leaves that of the reader's, sleeps exactly when the protocol does, and returns its bytes |
| `PipeProtocol.PipeIsFifo` | kernel/pipe.c:75-118 | in every run bytes delivered are the first of those accepted with at most 512 between; a read gets the next bytes and none only at the end; a write's bytes stay in order |
| `PipeProtocol.WakeupKeptIff` | kernel/pipe.c:83-85 | a step loses a wakeup if and only if it is a killed writer leaving sleeping readers |
| `PipeProtocol.NobodySleepsInVain` | kernel/proc.c:509-563 | without such a step, whenever the pipe lock is free a sleeping reader means an empty open pipe, a sleeping writer a full one, and never both |
| `PipeProtocol.WakeupCanBeLost` | kernel/pipe.c:83-85 | from a new pipe a run reaches the step that loses the wakeup |
| `PipeProtocol.RunLosesNothing` | kernel/proc.c:509-563 | a run without that step loses no wakeup |
| `PipeProtocol.KilledTurn` | kernel/pipe.c:75-118 | with the lock a killed thread goes on to return, with -1 exactly if there is nothing to read in an open pipe or no room for the rest of its bytes |
| `PipeProtocol.KillHeededIff` | kernel/proc.c:568-589 | a step leaves a killed thread asleep, or on its way there, if and only if it is a kill between the look at the flag and the table lock |
| `PipeProtocol.RunHeedsKills` | kernel/proc.c:568-589 | so no killed thread sleeps in a run without such a kill |
| `PipeProtocol.KilledReturns` | kernel/pipe.c:75-118 | a killed thread that waits for the pipe lock can run to its return by its own steps once the locks are free |
| `PipeProtocol.KillCanBeMissed` | kernel/pipe.c:103-109 | from a new pipe a run reaches a killed reader asleep |
| `Spinlocks.StepKeepsIff` | kernel/spinlock.c:23-115 | every step of every CPU, with pushcli and popcli outside the lock functions, keeps the invariant of locks and nesting if and only if it is not a popcli without its pushcli |
| `Spinlocks.MutualExclusion` | kernel/spinlock.c:23-115 | in every interleaving at most one CPU holds a lock; the nesting covers the locks held and the pushclis not yet answered, with interrupts off meanwhile; neither release nor a popcli that is due panics |
| `Spinlocks.InterruptsRestored` | kernel/spinlock.c:84-115 | the popcli that ends a nesting, in release or elsewhere, leaves the interrupt flag as it was before the acquire or pushcli that began it |
| `Spinlocks.OneTooMany` | kernel/spinlock.c:106-115 | one popcli too many, and a CPU holds a lock with interrupts on |
| `ConsoleInput.WrappedDistance` | kernel/console.c:205-206 | differences and comparisons of the wrapped indices are those of the stream |
| `ConsoleInput.Input.Backspace` | kernel/console.c:199-204 | erases one character of the line being edited, never a committed one |
| `ConsoleInput.Input.KillLine` | kernel/console.c:192-198 | erases exactly the line being edited |
| `ConsoleInput.Input.Type` | kernel/console.c:205-215 | adds a character unless the ring is full; commits on newline, ^D and a full ring |
| `ConsoleInput.Input.Read` | kernel/console.c:221-257 | one turn of the loop: the bytes are the next of the committed stream, at most n, none of them a ^D and a newline only the last; it ends before n only at a newline, a ^D or the end of what is committed; one more byte is used up exactly for a ^D with nothing read before it |
| `ConsoleInput.LineUnique` | kernel/console.c:221-257 | these conditions leave one answer |
| `ConsoleInput.TurnsJoin` | kernel/console.c:221-257 | a turn that used up all that was committed, and the turn after the sleep, together read as one turn over both stretches |
| `Umalloc.FreedSound` | user/umalloc.c:24-44 | returning a block with its joins keeps one ordered circular list of disjoint, fully joined blocks, and free and live bytes together what sbrk gave |
| `Umalloc.GrowSound` | user/umalloc.c:46-61 | fresh memory becomes a block apart from all others |
| `Umalloc.UnlinkSound` | user/umalloc.c:76-77 | handing out a whole block keeps the heap sound |
| `Umalloc.SplitSound` | user/umalloc.c:78-82 | handing out the end of a block keeps the heap sound |
| `Umalloc.ArcShrinks` | user/umalloc.c:74-89 | each step of the search leaves less of the circle ahead, so it ends even after morecore has moved the list's start |
| `Umalloc.FreedFits` | user/umalloc.c:86-88 | after morecore a large enough block is on the list, joined or not |
| `Umalloc.UnitsSuffice` | user/umalloc.c:69 | the units have room for the request if and only if the sum does not wrap, and then they are the fewest that have; when it wraps there is one |
| `Umalloc.CoreRequestWhole` | user/umalloc.c:49-54 | the size sbrk gets is positive exactly for requests of at most 2^31 - 16 bytes or more than 2^32 - 8, and exactly then it is that of all the units, or 32768 bytes if they are fewer |
| `Umalloc.GrowSoundIff` | user/umalloc.c:52-59 | a header for n units at the old break keeps the heap sound, whatever sbrk has added or taken away, if and only if it has added exactly 8n bytes |
| `Umalloc.WildMalloc` | user/umalloc.c:52-59 | a malloc of 2^31 bytes on a new heap returns memory that nobody has given |
| `Umalloc.Heap.FindPlace` | user/umalloc.c:30-32 | the walk ends at the free block after which the freed one belongs |
| `Umalloc.Heap.Free` | user/umalloc.c:24-44 | the block leaves the live ones and joins the list at its place |
| `Umalloc.Heap.MoreCore` | user/umalloc.c:46-61 | memory from the kernel goes on the list, and a block large enough is then there; exactly when the call fails, when it puts a header where there is no memory, and when the list is sound afterwards, for a size of any sign |
| `Umalloc.Heap.Malloc` | user/umalloc.c:63-90 | for every request: a block apart from all live ones, no block, or one in memory the heap does not have, exactly when; the kernel is asked only when nothing fits, once; the heap stays sound if and only if something fits, the request is at most 2^31 - 16 bytes or more than 2^32 - 8, or nothing was ever obtained and the call fails |
| `ShellRoundTrip.RoundTrip` | user/sh.c:264-445 | every well-formed command, printed and parsed, is itself again |
| `ShellRoundTrip.ParseStable` | user/sh.c:264-445 | whatever the parser accepts is well formed, and printing and parsing it again gives the same |
| `ShellRoundTrip.LineShapes` | user/sh.c:343-445 | pipes nest to the right, redirections go around what stands before them, `<` is for input and `>` for output, `;` joins, `&` is for the background and parentheses bind |
| `ShellRoundTrip.BlanksEndWord` | user/sh.c:261-307 | blank, tab, carriage return, newline and vertical tab each end a word and are dropped on both sides of it |
| `ShellRoundTrip.SymbolsEndWord` | user/sh.c:262-307 | each of the seven symbols ends a word and is the next token, with a second arrow if there is one |
| `ShellGrammar.AppendIsWrite` | user/sh.c:373-396 | a redirection with two arrows is the one with one arrow, whatever follows |
| `ShellParser.Parser.GetToken` | user/sh.c:264-307 | the cursor moves over exactly one token of the grammar |
| `ShellParser.Parser.Peek` | user/sh.c:309-319 | skips white space and looks at one character |
| `ShellParser.Parser.ParseRedirs` | user/sh.c:373-396 | the redirections the grammar finds, or a panic |
| `ShellParser.Parser.ParseExec` | user/sh.c:414-445 | a simple command or block as the grammar has it, with redirections in order; panics exactly where the grammar fails |
| `ShellParser.Parser.ParseBlock` | user/sh.c:398-412 | a command in parentheses with the redirections behind it |
| `ShellParser.Parser.ParsePipe` | user/sh.c:360-371 | pipelines nest to the right |
| `ShellParser.Parser.ParseLine` | user/sh.c:343-358 | background marks, then lists |
| `ShellParser.Parser.ParseCmd` | user/sh.c:326-341 | the whole line is one command of the grammar, or a panic; ends on every line |
| `ShellParser.NulTerminate` | user/sh.c:448-492 | writes a NUL behind every word and alters no word |
| `ShellParser.ReadsBack` | user/sh.c:448-492 | each word is then a C string equal to its token |
| `ShellParser.ParseBuffer` | user/sh.c:326-341 | the command left in the buffer is the one the grammar finds in the line |
| `Regex.ItemsShown` | user/grep.c:84-95 | every pattern reads as items that write it out again: a starred character, the end at a last `$`, or a character |
| `Regex.ShownItems` | user/grep.c:84-95 | and items that can stand in a pattern are what their writing reads as |
| `Regex.SingleItem` | user/grep.c:92-93 | a character stands for itself and a dot for any one |
| `Regex.MatchHere` | user/grep.c:84-95 | succeeds exactly when a prefix of the text is in the language of the pattern |
| `Regex.MatchStar` | user/grep.c:98-105 | succeeds exactly when a starred character and the pattern match a prefix |
| `Regex.Match` | user/grep.c:72-81 | succeeds exactly when some suffix, or after a caret the text itself, begins with a match |

## Left out

- Device and boot code, traps, context switching and segment descriptors: no state worth a property; the disk is a map from sectors to contents and an interrupt.
- ELF loading and the argument stack in `exec`: `exec` is modelled as a new address space of a given size and the section that switches to it.
- System call argument fetching, files and file descriptors. `namex` is modelled with the references it takes and drops.
- InodeCache.StepKeepsIff: an inode is its type, its links and its size; its blocks are in `FileSystem`, where one call is one step. A process is as many references as it holds, so the steps of one process may come in any order.
- Device inodes: a function pointer call.
- `memmove` on overlapping buffers, `safestrcpy`, `printf` and the line loop of `grep`.
- `kinit` and `freecount`, which counts each page twice: the free list is modelled, the counter is not.
- FileSystem.Volume.BMap: only for a block the file has or the next one, which is all its callers ask for; a hole in a file is outside the invariant of a volume.
- FileSystem.Volume.WriteI: what is on the volume after a misaddressed write or one that takes a block past the device is not stated, only exactly when there is one: what lies there is outside the volume, or a block of another file.
- FileSystem.Volume.ITrunc: for a number with a checksum in it, what the inode and the later blocks become after bfree has cleared a bit or left the device is not stated, only which of these happens.
- CheckedFiles.ReadI: the blocks are read at one moment; `BufferCache` has the interleavings. What a read that leaves the device gets is not modelled.
- Directories.DirUnlink: the references to the inodes, and the freeing of the inode with its last link, are in `InodeCache`.
- UserCopy.Frames.CopyOut: the range does not wrap past 2^32.
- Images made by `mkfs`, whose directories are rounded up past their mapped blocks, are outside the invariant of a volume.
- VirtualMemory.Memory.CopyShm: mapping a user page cannot fail for want of a table; that is proved in `PageTables` and used here.
- Processes.Kernel.Fork: one step, although the code marks the child runnable before it counts its directory; process numbers, names and open files are not modelled.
- Processes.Kernel.Exit: the wakeups of the parent and of init are steps of their own, as are all moves between the states of a live process.
- Processes.Kernel.Clone: the registers of the child, which after a failure are the parent's, are not modelled.
- Mlfq.Scheduler.Schedule: one CPU, one tick a round, a fixed set of processes that use the whole tick, and a tick counter that does not wrap; the history in `ticks_used` is not modelled.
- Freeing a pipe once both ends are closed.
- ConsoleInput.Input.Read: one turn of the loop, up to the point where it would sleep; a reader that is killed while asleep, whose bytes are lost, and the echo are not modelled.
- ShellParser.ParseBuffer: lines without a NUL in them, which is what `gets` gives.
- Spinlocks.InterruptsRestored: between context switches; the saving of `intena` in `sched` is not modelled.
