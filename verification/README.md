# LSFS in Dafny

A model of LSFS, a log-structured file system, and proofs about it. `dafny verify dfyconfig.toml` covers the whole project.

LSFS never overwrites a block in place. Writes collect in a segment buffer, a flush puts the buffer on disk as one segment with a summary in front, inodes move with every write and an inode map says where they are, a cleaner relocates the live blocks of old segments, and two alternating checkpoint regions save the inode map so that a mount can load it and roll forward.

## How the project is laid out

| file | models |
|---|---|
| `Layout.dfy` | disk layout and address arithmetic |
| `Log.dfy`, `LogRuns.dfy` | segment buffer, usage table, append, flush; whole runs of the log |
| `FileSystem.dfy`, `BlockMap.dfy`, `StaleReads.dfy`, `FsRuns.dfy`, `CleanInodes.dfy` | inode blocks and pointers over the log, reads before a flush, the flush that nests a checkpoint, cached inodes and their images |
| `Accounting.dfy`, `Undercount.dfy`, `Durability.dfy` | live counts and how they become too low, and what completed checkpoints point at, over runs of file operations |
| `Cleaner.dfy`, `References.dfy`, `CleanerRuns.dfy`, `Collector.dfy` | the copying cleaner, which references it follows, runs that mix cleaning and file operations, a run of the collector |
| `Volume.dfy` | the same operations as methods that update one mounted file system in place |
| `CheckpointFormat.dfy`, `CheckpointCrash.dfy`, `CheckpointStore.dfy` | checkpoint regions, crashes, the write and load methods |
| `RollForward.dfy`, `RecoveryRuns.dfy`, `CrashRecovery.dfy`, `InodeMap.dfy` | recovery after a load and what it brings back, the crash of log and checkpoints together, the sorted inode map array and inode numbers |
| `DirBlock.dfy`, `DirEntries.dfy`, `Directory.dfy`, `DirScan.dfy`, `Rename.dfy` | directories down to the bytes of a block, scans, and rename |
| `ByteRange.dfy`, `BufferPool.dfy`, `Locks.dfy` | byte-range read and write, the block buffer pool, lock order |

State that the program updates in place is a class: `Volume.Fsys`, `CheckpointStore.Store`, `InodeMap.Imap`, `RollForward.Recovery`, `Directory.Dir`, `ByteRange.File` and `BufferPool.Pool`. Their methods are tied by `ensures` to functions on values, and what holds over whole runs is proved about those functions. Failing disk writes are a read-only flag in the log and parameters of the other operations; failing reads of a scan are the number of the first block that cannot be read. The clock is a parameter.

Except in `Locks.dfy`, operations happen one after the other.

## What the code does not keep

Where a property one would expect is false of the code, the model keeps the code and a lemma says exactly when the property holds.

- A checkpoint whose superblock write fails has already changed the active region while its marker is unsynced. The next header write is followed by a load after every crash if and only if a sync came first (`CheckpointCrash.HeaderAfterFailure`); otherwise a crash may leave nothing to load (`CheckpointStore.SuperblockFailure`, `CheckpointStore.NextHeaderLosesAll`).
- Cleaning frees a segment whether or not it moved what is in it. A reference into the segment is left dangling if and only if the summary does not record the block as that inode's image or direct block (`References.CleaningFollows`). That is every reference into a segment of more than 339 blocks (`References.LongSegmentIsLost`), and the root directory in the segment that mkfs writes (`References.RootDirectoryIsLost`).
- A cleaning that fails half way still frees its segment (`Cleaner.CleaningWhenWritesFail`).
- The cleaner moves an inode without telling its cached copy, whose location then names a freed block (`Cleaner.StaleLocation`). Writing the inode takes a live block of whoever has that segment now off the count (`Undercount.StaleWrite`), down to zero with a referenced block in the segment (`Undercount.StaleCountReachesZero`).
- A freed inode keeps its location, so writing it while it is still cached takes its old image off the count a second time (`Undercount.WriteAfterFree`), again down to zero (`Undercount.CountReachesZero`).
- Flushing with no FREE segment left keeps the segment that was just written as the one being filled (`LogRuns.AppendAfterFlush`).
- Writing an indirect block index while the pointer block is still buffered loses the other pointers unless the disk has the same ones (`BlockMap.UnflushedPointersAreLost`), and this is the only way in which readers lose the latest blocks (`Accounting.StepKeepsReaches`).
- Until the next flush a read returns what the disk had at the place of a block just written (`StaleReads.ReadBeforeFlush`), zeros if it was never written (`StaleReads.UnwrittenIsLost`). So of two partial writes into one block the second undoes the first (`StaleReads.PartialWrites`).
- Recovery gives back the inode map of the last flush only under the condition of `RecoveryRuns.RecoveryIsExact`. It finds nothing at all if the flush before the checkpoint was in an earlier second and left its segment partly filled (`RecoveryRuns.OldHeadStopsScan`), it misses a segment flushed below the log head (`RecoveryRuns.LowerSegmentIsMissed`), and freed inodes come back (`RecoveryRuns.FreedComesBack`). It lowers the free count for segments that were not FREE (`RollForward.FreeCountExact`), and can mark FULL the segment that is about to be filled (`RollForward.FilledSegmentAfterRecovery`).
- Inode numbers repeat after the counter is used up (`InodeMap.ExhaustedRepeats`). A number entered above the counter, as recovery does, is handed out again when the counter reaches it (`InodeMap.MappedNumberIsIssued`), and this is the only way (`InodeMap.CounterStaysFresh`).
- Adding a name that is bound in a block that cannot be read, or behind one, binds it twice (`Directory.Dir.Add`).
- Renaming a name to itself removes it, and a destination's inode is freed although the disk refused to unbind it (`Rename.Move`).
- A write into a block that cannot be read back zeroes the rest of the block (`ByteRange.File.Write`).
- Evicting a dirty buffer that the disk refuses loses its contents (`BufferPool.Pool.Evict`).

## Model

| member | source | states |
|---|---|---|
| `Layout.ConversionsInverse` | src/segment.c:17-36 | segment and block addresses convert back and forth without loss for every segment number of 32 bits |
| `Layout.RegionsTile` | include/ondisk.h:20-34 | the regions in front of the log follow each other without a gap, and records and pointers fill a block |
| `Log.CountFreeUpdate` | src/segment.c:127-133 | changing one table entry changes the number of FREE entries by that entry alone |
| `Log.AllocFacts` | src/segment.c:182-213 | allocation finds a segment exactly when the count is positive, takes the first FREE one and keeps the log valid |
| `Log.FlushFacts` | src/segment.c:287-367 | after a flush every occupied address reads the same from disk alone, is not in the new segment, and keeps its record |
| `Log.AppendFacts` | src/segment.c:243-282 | an append puts the block at an address that was unoccupied and keeps everything else in the log |
| `Log.MarkDeadKeeps` | src/gc.c:183-201 | taking a block off a live count touches nothing else |
| `LogRuns.RunKeepsValid` | src/segment.c:182-348 | in every state of every run the free count is the number of FREE segments, the segment being filled is ACTIVE, the buffer has 1 to 1024 blocks, and allocation succeeds exactly when the count is positive |
| `LogRuns.AppendIsInLog` | src/segment.c:243-282 | every append of a run returns the address of a payload block inside the log, with the data there |
| `LogRuns.AddressesDiffer` | src/segment.c:243-367 | two appends of a run return different addresses unless the first one's segment was freed between them |
| `LogRuns.HeldPersists` | src/segment.c:243-367 | a block and its record stay until a step frees their segment |
| `LogRuns.FlushedStaysOnDisk` | src/segment.c:243-367 | after a flush the disk holds exactly the appended block and its record until the segment is freed |
| `LogRuns.AppendAfterFlush` | src/segment.c:338-353 | the next append goes to an unused address if and only if a FREE segment was left |
| `FileSystem.FlushFsFacts` | src/segment.c:287-367 | the flush that nests a checkpoint extends the log, empties the buffer and leaves inode map and cache alone |
| `FileSystem.FlushLeaves` | src/segment.c:287-367 | a flush fails if and only if there is something to write on a read-only mount |
| `FileSystem.AppendLeaves` | src/segment.c:243-282 | an append fails if and only if the buffer is full and cannot be written |
| `FileSystem.FlushKeepsInterval` | src/checkpoint.c:32-45 | after a successful flush, with a map that fits, fewer than 100 writes and 30 seconds have passed since the last checkpoint |
| `FileSystem.FlushSavesWhenDue` | src/checkpoint.c:32-45 | and it saves one exactly when 100 writes or 30 seconds had passed, or the clock went back |
| `FileSystem.AppendIsCounted` | src/segment.c:243-282 | an append counts as one write since the last checkpoint |
| `BlockMap.WriteUpdatesOverlay` | src/inode.c:461-522 | seen through the buffer, a block write updates one index of one inode and no other |
| `BlockMap.WriteSucceeds` | src/inode.c:461-522 | a block write succeeds if and only if its index is below 524 and the mount is writable or the buffer has room for the blocks it appends; then the inode is dirty and long enough, otherwise it is as before |
| `BlockMap.InodeWriteSucceeds` | src/inode.c:357-389 | an inode write succeeds if and only if the inode is clean or its image finds room; a clean one changes nothing |
| `BlockMap.WriteIsRecorded` | src/inode.c:478-511 | the log records a written block and its pointer block with owner, index and kind |
| `BlockMap.FreedIsNotWritten` | src/inode.c:310-351 | a freed inode is unmapped, and writing its cached copy does nothing |
| `BlockMap.DoubleIndirectRead` | src/inode.c:424-452 | reads behind two levels of pointers |
| `BlockMap.BeyondTheFile` | src/inode.c:394-456 | reads fail exactly from block 262668 on |
| `BlockMap.FlushMakesReadable` | src/inode.c:394-456 | after a flush the disk gives at every index what buffer and disk gave before |
| `BlockMap.WriteFlushRead` | src/inode.c:394-522 | write, flush, read is a map update for all indices below 524, also when the segment fills between data and pointers |
| `BlockMap.RunOfWrites` | src/inode.c:394-522 | after any run of flushed writes the disk returns the last block written at each index |
| `BlockMap.UnflushedPointersAreLost` | src/inode.c:484-503 | another index of the pointer block survives a write if and only if the pointer block is not buffered, or the buffer is full, or the disk holds the same pointer in its place |
| `BlockMap.ReadWhenFlushed` | src/inode.c:394-456 | a read gives the latest block whenever its pointers and itself are not buffered |
| `StaleReads.AppendPlace` | src/segment.c:243-282 | the next append goes to the next place in the buffer, or to the first place of the first FREE segment, and writes out a full buffer |
| `StaleReads.ReadBeforeFlush` | src/inode.c:394-522 | before a flush, a read of a block just written, direct or indirect, returns what the state before the write has on disk at its place; it is the block if and only if that is |
| `StaleReads.UnwrittenIsLost` | src/inode.c:394-522 | a nonzero block whose place was never written reads as zeros |
| `StaleReads.PartialWrites` | src/fuse_ops.c:360-391 | of two partial writes into one direct block, what the first put outside the second survives if and only if the inode write between them had to flush, or the disk had the same before |
| `FsRuns.StepKeepsLog` | src/inode.c:310-522 | every file operation keeps the log valid and the blocks in it |
| `CleanInodes.StepKeepsMatches` | src/inode.c:310-522 | every file operation keeps each clean cached inode equal to its image in the log |
| `CleanInodes.CleaningKeepsMatches` | src/gc.c:313-346 | so does copying a segment, which marks the inodes it repoints dirty |
| `CleanInodes.RunKeepsMatches` | src/gc.c:206-364 | in every state of every run of file operations and cleanings a clean inode is its image |
| `CleanInodes.WriteReachesDisk` | src/inode.c:357-522 | after a block write, its inode write and a flush, the disk has at the mapped location an image through which the block reads as written and every other as before |
| `Accounting.StepKeepsInv` | src/gc.c:183-234 | every operation keeps the accounting of blocks to inode slots |
| `Accounting.StepKeepsReaches` | src/inode.c:461-522 | an operation keeps readers on the latest block of each slot if and only if an indirect write finds on disk the pointers it rewrites |
| `Accounting.LiveCountCovers` | src/gc.c:183-234 | over every run, a FULL segment counts at least as many live blocks as the inode map, the inodes, and the latest addresses of all their blocks name in it |
| `Accounting.LiveCountCoversWords` | src/gc.c:183-234 | the same for blocks found through pointer blocks, on runs whose indirect writes find the pointers they rewrite |
| `Accounting.FreedSegmentIsUnreferenced` | src/gc.c:224-234 | over every run, a segment freed because its live count is zero holds no block that the inode map or an inode refers to, and not the latest block of any inode |
| `Undercount.WriteAfterFree` | src/inode.c:310-389 | free, write a block, write the inode: the count of the old image still covers the other inodes if and only if there are none in the segment, or before the free it was above their blocks and the freed ones together |
| `Undercount.CountReachesZero` | src/fuse_ops.c:352-391 | two new inodes, a flush, and such a write bring the count to zero while the other inode is in the segment |
| `Undercount.StaleWrite` | src/inode.c:357-389 | writing an inode whose cached location is out of date keeps the count above the slots if and only if the segment has no slots, or slack, or the real image too |
| `Undercount.StaleCountReachesZero` | src/gc.c:287-361 | a new inode, a flush, the cleaning of its segment, and writes that refill the segment bring its count to zero with another inode in it |
| `Undercount.WriteCounts` | src/inode.c:461-511 | a block write takes exactly the direct block, or the pointer block, that it replaces off the live counts |
| `Undercount.InodeWriteCounts` | src/inode.c:357-389 | an inode write takes exactly the block at the cached location off |
| `Undercount.FreeCounts` | src/inode.c:310-352 | freeing takes exactly the direct blocks, the pointer blocks and the image off, and unmaps the inode |
| `Durability.CheckpointsAreDurable` | src/checkpoint.c:57-151 | in every state of every run, each location saved by each completed checkpoint was synced at its marker and held its inode; it and the blocks that the inode points at are unchanged and synced |
| `Cleaner.CleanBlockKeeps` | src/gc.c:272-349 | one round of the cleaning loop preserves contents and leaves nothing pointing at the block it passed |
| `Cleaner.CleaningPreservesContents` | src/gc.c:206-364 | in a segment whose records are all there and whose live blocks are images and direct blocks, every one of them reads as before, the segment is FREE and nothing points into it |
| `Cleaner.CleaningWhenWritesFail` | src/gc.c:292-361 | when writes fail, nothing is left pointing into the freed segment, and no error is reported, if and only if the buffer had room for all live blocks |
| `Cleaner.CleaningRefuses` | src/gc.c:206-268 | what cleaning does to a segment that does not exist, is not FULL, has no live blocks, or has no valid summary |
| `Cleaner.VisitsSegment` | src/gc.c:273-278 | cleaning visits the blocks that the summary counts, and at most the 1024 of a segment |
| `Cleaner.StaleLocation` | src/gc.c:287-311 | a cached inode's location agrees with the inode map after cleaning if and only if its image was not in the cleaned segment |
| `References.CleaningFollows` | src/gc.c:264-361 | for any FULL segment with a valid summary: an inode map entry, direct, indirect or pointer-block reference into it still points there if and only if the summary does not record the block as that image or direct block; otherwise it leads to the same content outside; all other references stay |
| `References.LongSegmentIsLost` | src/segment.c:311-315 | a segment flushed with more than 339 blocks is freed with every reference into it in place |
| `References.RootDirectoryIsLost` | tools/mkfs.lsfs.c:178-198 | cleaning the first segment moves the root inode and frees the root directory's block under it |
| `CleanerRuns.EmptyIsUnpointed` | src/gc.c:224-234 | a FULL segment whose live count is zero has nothing pointing into it |
| `CleanerRuns.CleanSegmentAccounts` | src/gc.c:206-364 | copying a segment keeps the accounting of blocks to slots |
| `CleanerRuns.RunKeepsTruth` | src/gc.c:206-364 | runs of file operations, copying cleanings and frees of empty segments keep the records about blocks truthful and the live counts accounted |
| `CleanerRuns.CleaningKeepsReads` | src/gc.c:206-364 | after copying a segment every block of every file below index 524 reads as before, and readers stay on the latest blocks |
| `CleanerRuns.CleaningIsInvisible` | src/gc.c:206-364 | wherever in such a run the cleaner works, on the copying or the zero-live path, it changes no inode image, no direct block and no block behind a pointer block, and no slot or pointer is left in the segment it frees |
| `Collector.Best` | src/gc.c:145-178 | the chosen segment is the first candidate of greatest utility, or none exactly if there is no candidate |
| `Collector.BestIsUnique` | src/gc.c:125-178 | that description determines the choice |
| `Collector.OlderAndEmptierIsBetter` | src/gc.c:125-140 | a candidate written earlier, with no more live blocks, is worth at least as much, and more if it is emptier and has aged |
| `Collector.UtilityIs` | src/gc.c:131-139 | the utility is the age times the dead part over one plus the live part |
| `Collector.RoundPicksBest` | src/gc.c:386-398 | each round cleans the first candidate of greatest utility |
| `Collector.CollectGoesOn` | src/gc.c:375-404 | the collector stops after five segments, and before only at a fifth of the segments FREE, without a FULL segment of at most 521 live blocks, or at an error |
| `Collector.NothingToCollect` | src/gc.c:375-418 | with a fifth FREE, or no candidate, nothing happens |
| `Collector.CollectingKeepsContents` | src/gc.c:369-419 | up to five cleanings, the flush and the checkpoint together preserve contents; that the segments freed as empty are empty follows from the accounting before the first of them |
| `Collector.CollectedIsSaved` | src/gc.c:406-416 | if a FULL segment became FREE, then afterwards nothing is buffered or unsynced, the last checkpoint saved the inode map, and everything that map and direct pointers lead to is durable |
| `Volume.Fsys.constructor` | src/segment.c:86-148 | a mounted file system over any disk, table and inode map; its log is valid if and only if a segment is FREE or segment 0 is ACTIVE |
| `Volume.Fsys.Mount` | src/segment.c:86-148 | counts the FREE segments and takes the first; the log is valid if and only if there was one, or segment 0 was ACTIVE |
| `Volume.Fsys.Alloc` | src/segment.c:182-213 | the scan finds the segment that the specification allocates |
| `Volume.Fsys.WriteOut` | src/segment.c:302-336 | summary, disk write, table entry and log head as specified |
| `Volume.Fsys.Flush` | src/segment.c:287-367 | the flush specification, nested checkpoint included; on a valid log that can flush, everything in use is then on disk |
| `Volume.Fsys.Checkpoint` | src/checkpoint.c:50-162 | the checkpoint specification; it succeeds if and only if the mount is writable and at most 65280 inodes are mapped, and then nothing is buffered or unsynced and this map is saved; the mutual recursion terminates |
| `Volume.Fsys.Append` | src/segment.c:243-282 | the append specification; on a valid log that can append, a new address that holds the block, with everything in use kept |
| `Volume.Fsys.MarkDead` | src/gc.c:183-201 | the live count of the address's segment drops by one, not below zero; no other entry changes |
| `Volume.Fsys.WriteInode` | src/inode.c:357-389 | the inode write specification; inode map and cached location name a block that holds the inode |
| `Volume.Fsys.WriteBlock` | src/inode.c:461-522 | the block write specification with its exact condition for success, after which the inode is dirty; with the pointer block on disk, one index of one inode is updated and no other |
| `Volume.Fsys.FreeInode` | src/inode.c:310-352 | the loop marks exactly the inode's blocks dead and unmaps it |
| `Volume.Fsys.NewInode` | src/inode.c:258-301 | a new cached inode reads as zeros at every index, and no other inode changes |
| `Volume.Fsys.SelectSegment` | src/gc.c:145-178 | the loop returns the first candidate of greatest utility |
| `Volume.Fsys.CleanSegment` | src/gc.c:206-364 | the cleaning specification with its error results; a segment that cannot be read stays as it was; under the conditions of the preservation theorem contents stay, and clean inodes remain their images |
| `Volume.Fsys.Collect` | src/gc.c:369-419 | the collector specification; under the conditions of the collector theorem contents stay, and if a segment was freed everything is saved and durable |
| `CheckpointFormat.SaveLoad` | src/imap.c:248-345 | loading what was saved gives the same entries back, however many |
| `CheckpointFormat.LoadedRegion` | src/checkpoint.c:174-196 | which region is loaded: one with a complete header and the higher sequence number, the second if they are equal, none if neither is complete |
| `CheckpointCrash.FormattedIsSound` | tools/mkfs.lsfs.c:222-254 | a freshly formatted disk satisfies the crash invariant |
| `CheckpointCrash.LoadAfterCrash` | src/checkpoint.c:167-212 | whatever subset of unsynced writes survives, loading gives the committed checkpoint, or one whose marker is written and not yet synced |
| `CheckpointCrash.StepKeepsInv` | src/checkpoint.c:50-162 | every write, sync, crash, and failure at any operation of a checkpoint keeps the crash invariant, as long as a header write after a failed superblock write waits for a sync |
| `CheckpointCrash.EarlyFailKeeps` | src/checkpoint.c:100-140 | a checkpoint that fails before its superblock leaves the committed one as it was |
| `CheckpointCrash.LateFailKeeps` | src/checkpoint.c:142-154 | one that fails at the superblock or the sync behind it keeps the invariant with the other region active |
| `CheckpointCrash.HeaderAfterFailure` | src/checkpoint.c:100-148 | the next operation of a checkpoint leaves something to load after every crash if and only if no earlier one is unsynced behind a failed superblock write |
| `CheckpointCrash.CrashAtomicity` | src/checkpoint.c:50-212 | over any sequence of checkpoints, checkpoints failing at any operation, other writes, syncs and crashes in which that condition holds, a load never fails and never sees a mixture |
| `CheckpointCrash.CompletionAdvances` | src/checkpoint.c:69-156 | completed checkpoints have growing sequence numbers and alternate between the regions |
| `CheckpointStore.Store.WriteBlocks` | src/io.c:150-174 | the blocks of a request are issued in order up to the one the disk refuses, or none on a read-only mount |
| `CheckpointStore.Store.WriteCheckpoint` | src/checkpoint.c:69-162 | issues exactly the operations of the script up to the one that fails, whichever that is; the sequence number grows even then, and the active region changes even when the superblock write fails |
| `CheckpointStore.Store.LoadCheckpoint` | src/checkpoint.c:167-212 | loads the better of the checkpoints whose headers can be read, or nothing if its map cannot be read |
| `CheckpointStore.CheckpointIsItsSteps` | src/checkpoint.c:69-162 | a whole checkpoint, whichever operation fails, is the steps of the crash model one after the other: same device, region and sequence number |
| `CheckpointStore.CheckpointPersists` | src/checkpoint.c:111-154 | a checkpoint that runs to its end leaves nothing unsynced, with the segment table and the superblock on disk |
| `CheckpointStore.SuperblockFailure` | src/checkpoint.c:142-148 | from every state, a checkpoint whose superblock write fails is left active with its marker unsynced |
| `CheckpointStore.NextHeaderLosesAll` | src/checkpoint.c:76-109 | the header of the checkpoint after it may be the only write that survives, and then there is nothing to load |
| `InodeMap.Imap.Find` | src/imap.c:53-75 | binary search finds the entry exactly if it is mapped |
| `InodeMap.Imap.FindInsertPos` | src/imap.c:81-100 | everything before the position is smaller, everything from it on is not |
| `InodeMap.Imap.Grow` | src/imap.c:105-125 | capacity grows up to 65536 entries, contents stay |
| `InodeMap.Imap.Get` | src/imap.c:130-148 | map lookup |
| `InodeMap.Imap.Set` | src/imap.c:153-191 | map update with the version of that inode alone raised, or no space exactly when 65536 other inodes are mapped |
| `InodeMap.Imap.Remove` | src/imap.c:196-216 | map removal |
| `InodeMap.Imap.AllocIno` | src/imap.c:221-243 | the counter, then the least unmapped number, then 0 |
| `InodeMap.Imap.Load` | src/imap.c:312-338 | takes the saved map over and restarts the counter above it |
| `InodeMap.VersionsCount` | src/imap.c:153-191 | the version of an entry is the number of times it was set |
| `InodeMap.LeastFree` | src/imap.c:230-239 | the least number outside the map, or 0 when there is none |
| `InodeMap.NumbersAreFresh` | src/imap.c:221-243 | over any run, counter allocation never repeats a number or returns a mapped one; later 0 exactly when 2..65535 are mapped |
| `InodeMap.CounterAfterLoad` | src/imap.c:330-336 | loading puts the counter above every number in the map |
| `InodeMap.AboveIsNext` | src/imap.c:330-336 | and no higher: the counter is behind a number in the map, or 2 |
| `InodeMap.MappedNumberIsIssued` | src/imap.c:221-243 | a number entered at or above the counter is handed out, still mapped, after that many allocations |
| `InodeMap.CounterStaysFresh` | src/imap.c:153-243 | over any run the counter never hands out a mapped number if and only if every number entered at or above it is removed before the counter comes to it |
| `RollForward.Recovery.ReplaySummary` | src/checkpoint.c:270-276 | enters exactly the inode records of a summary |
| `RollForward.Recovery.Run` | src/checkpoint.c:236-293 | the scan is the specified fold, up to the first summary that cannot be read; what it enters is stated by the lemmas below |
| `RollForward.LastRecordWins` | src/checkpoint.c:236-293 | each inode ends at its last record in the longest run of continuing segments, or at its checkpoint location |
| `RollForward.ReplayTwice` | src/checkpoint.c:236-293 | replaying again changes no location |
| `RollForward.FreeCountExact` | src/checkpoint.c:284-292 | the free count becomes an underestimate at most, and is exact if and only if all replayed segments were FREE or none is left |
| `RollForward.FilledSegmentAfterRecovery` | src/checkpoint.c:284-292 | the segment picked at mount stays ACTIVE if and only if it is not replayed |
| `RollForward.ReplayedEntries` | src/checkpoint.c:281-292 | every replayed segment is FULL with all blocks of its summary live and the age of its summary |
| `RollForward.HeadAfterReplay` | src/checkpoint.c:278-279 | the log head moves behind the last replayed segment |
| `RollForward.NoSummaryStops` | src/checkpoint.c:246-249 | a scan that starts at anything but a segment summary changes nothing |
| `RollForward.HeadPastTheEnd` | src/checkpoint.c:236-243 | so does one whose log head is past the last segment |
| `RecoveryRuns.RecoveredCountCovers` | src/checkpoint.c:281-292 | the live count of a replayed segment covers the locations that the recovered inode map has in it |
| `RecoveryRuns.RecoveredIsNotFreed` | src/gc.c:224-234 | so the cleaner does not free a replayed segment as empty while the recovered map names a block in it |
| `RecoveryRuns.WrittenIsCounted` | src/segment.c:325-336 | the condition of both holds for every segment written since the checkpoint |
| `RecoveryRuns.FlushIsReplayed` | src/checkpoint.c:236-268 | a flush is replayed if and only if its segment is not below the log head's and all segments between continued the log before it |
| `RecoveryRuns.HeadAfterFlush` | src/segment.c:329-336 | the scan starts in the segment flushed last, or behind it if that is full |
| `RecoveryRuns.StepFollows` | src/segment.c:182-367 | every operation keeps what the theorem needs: segments written since lie below the one being filled, and each location is that of the inode's last record since, or the checkpointed one |
| `RecoveryRuns.RecoveryIsExact` | src/checkpoint.c:236-293 | over every run from a checkpoint to a flush, the recovered inode map is the one of that flush if and only if every location written since is in a segment with records that the scan reaches, and no inode that is gone is in the checkpoint or recorded in such a segment |
| `RecoveryRuns.CheckpointStartsRun` | src/checkpoint.c:57-154 | a checkpoint that flushed in its own second is a start of such runs if and only if every inode recorded in the segment it flushed is still mapped |
| `RecoveryRuns.OldHeadStopsScan` | src/checkpoint.c:236-253 | if the flush before the checkpoint was in an earlier second and left its segment partly filled, recovery changes nothing, whatever was flushed since |
| `RecoveryRuns.FreedComesBack` | src/checkpoint.c:270-276 | the recovered map has exactly the inodes of the checkpoint and those recorded in scanned segments |
| `RecoveryRuns.ZeroIsNotEntered` | src/checkpoint.c:270-276 | inode number 0 is never entered, whatever the summaries say |
| `RecoveryRuns.LowerSegmentIsMissed` | src/segment.c:182-213 | when a lower segment became FREE, the flush into it continues the log and is not replayed |
| `CrashRecovery.LoadedInodesAreThere` | src/checkpoint.c:57-212 | in a joint state of log and regions, every location in the inode map loaded after a crash holds that inode's image, and the blocks it points at are there |
| `CrashRecovery.MoveKeepsJoint` | src/checkpoint.c:57-154 | parts of file operations, syncs, and the operations of a checkpoint in the order of the code, each of which may fail, keep every checkpoint that may be loaded among those whose blocks were synced |
| `CrashRecovery.CrashAnywhere` | src/checkpoint.c:57-212 | over every run of file operations and whole or failing checkpoints, a crash at any moment is followed by a load whose every location holds an image of its inode with the blocks it points at |
| `CrashRecovery.CheckpointIsSaved` | src/checkpoint.c:123-136 | the first sync of a checkpoint syncs everything that its entries lead to, before the marker |
| `CrashRecovery.CheckpointSucceeds` | src/imap.c:248-295 | a checkpoint succeeds if and only if the mount is writable and the entries of the inode map fit a region; then everything is flushed and synced and this map is the last one saved |
| `CrashRecovery.WholeCheckpoint` | src/checkpoint.c:57-162 | a checkpoint that runs to its end does to the file system what the checkpoint specification does |
| `CrashRecovery.FormattedIsJoint` | tools/mkfs.lsfs.c:222-254 | runs can start from a formatted disk |
| `CrashRecovery.WriteInodeInPieces` | src/inode.c:357-389 | writing an inode is such parts, with a checkpoint between them when one is due |
| `CrashRecovery.WriteBlockInPieces` | src/inode.c:461-522 | so is writing a block |
| `DirBlock.RoundUpClearsBits` | src/directory.c:33-37 | the record size is the rounding that the bit mask computes |
| `DirBlock.RecordLayout` | include/ondisk.h:120-126 | where the fields of a record are in its bytes, and its size: the least multiple of 4 that holds it |
| `DirBlock.WriteRecord` | src/directory.c:210-219 | the bytes written are read back as that record, and no byte outside it changes |
| `DirBlock.FillHole` | src/directory.c:153-179 | a hole becomes an entry and the block is tiled again |
| `DirBlock.DivideHole` | src/directory.c:153-179 | a hole becomes an entry and a smaller hole that tile the block |
| `DirBlock.ShareSlack` | src/directory.c:182-205 | a record and a new one behind it tile the block |
| `DirBlock.MakeHole` | src/directory.c:273-281 | a first record becomes a hole |
| `DirBlock.Merge` | src/directory.c:273-281 | a record's bytes go to the one in front of it |
| `Directory.Dir.Init` | src/directory.c:401-438 | a directory that binds exactly `.` and `..` |
| `Directory.Dir.Lookup` | src/directory.c:42-90 | the map's answer, or an error exactly if a block that cannot be read comes before the name |
| `Directory.Dir.Add` | src/directory.c:95-234 | inserts exactly when the lookup does not find the name, with the errors of both scans; grows exactly when no hole or slack in reach fits; a name is bound twice exactly if it was bound where the lookup could not read |
| `Directory.Dir.Remove` | src/directory.c:239-300 | deletes that name and no other, or an error exactly if a block that cannot be read comes first or the write fails |
| `DirScan.IsEmpty` | src/directory.c:305-347 | succeeds exactly when every block can be read and nothing but `.` and `..` is bound |
| `DirScan.Iterate` | src/directory.c:352-396 | reports the named entries in order, the longest part of them that fits the reply and comes before an unreadable block, and says which of the two ended it |
| `DirScan.ListingIsMap` | src/directory.c:381-389 | a listing has each bound name once, with its inode and type |
| `DirScan.FullListing` | src/fuse_ops.c:204-265 | a reply lists the whole directory if and only if it is large enough, and then it is the map |
| `Rename.ClearTarget` | src/fuse_ops.c:700-725 | the destination is cleared exactly if it is bound to a loadable inode that is not a directory with entries; its link, and with the last one the inode, goes even if the disk refuses the write |
| `Rename.LinkChanges` | src/fuse_ops.c:718-721 | dropping a link takes one off that count, as a 32-bit number, and off no other |
| `Rename.LinksMove` | src/fuse_ops.c:739-748 | the new parent of a moved directory gains the link that its old parent loses |
| `Rename.Move` | src/fuse_ops.c:690-750 | what both directories bind, all link counts and the freed inode after every failure, in one directory or two; the new name is lost exactly when source and destination are the same; a freed inode stays bound exactly if the clearing write failed or it was the source |
| `ByteRange.LastWriteWins` | src/fuse_ops.c:360-386 | after any run of writes a byte is what the last write over it put there, or what it was, or zero |
| `ByteRange.File.Write` | src/fuse_ops.c:345-397 | splices exactly the reported bytes, stops exactly at the first block that fails, and sets the size |
| `ByteRange.File.Read` | src/fuse_ops.c:302-332 | the slice clipped to the size, up to the first block that cannot be read |
| `BufferPool.Pool.constructor` | src/io.c:200-230 | an empty pool over any disk |
| `BufferPool.Pool.Init` | src/io.c:200-230 | all buffers free and listed in order |
| `BufferPool.Pool.Touch` | src/io.c:243-272 | the list stays a permutation with consistent links, the buffer at its end |
| `BufferPool.Moved` | src/io.c:243-272 | unlinking and appending spell out the moved list |
| `BufferPool.Unchained` | src/io.c:291-302 | cutting a buffer out leaves exactly the other valid ones chained |
| `BufferPool.Pushed` | src/io.c:353-362 | a new buffer joins the chain of its block |
| `BufferPool.Pool.Find` | src/io.c:326-338 | the walk finds the cached buffer exactly if there is one |
| `BufferPool.Pool.Victim` | src/io.c:277-311 | the least recently used buffer that nobody holds, or null exactly if all are held |
| `BufferPool.Pool.Evict` | src/io.c:277-313 | only an unheld buffer loses its block; every view is kept if and only if no dirty contents were refused |
| `BufferPool.Pool.Get` | src/io.c:318-367 | a buffer with the block's contents; held buffers untouched; views unchanged |
| `BufferPool.Pool.Put` | src/io.c:372-377 | one holder less, views unchanged |
| `BufferPool.Pool.Flush` | src/io.c:382-403 | views unchanged; on success the disk is the view; refused buffers stay dirty |
| `Locks.CheckIsSound` | src/segment.c:287-367 | a skeleton that passes the order check keeps to the order on every path |
| `Locks.BalancedFlush` | src/segment.c:287-367 | on every path of a flush, nested checkpoints included, acquisitions climb and all locks are released |
| `Locks.BalancedCheckpoint` | src/checkpoint.c:50-162 | the same for a checkpoint |
| `Locks.BalancedGet` | src/inode.c:156-230 | the same for loading an inode, with evictions that write inodes |
| `Locks.BalancedRound` | src/gc.c:22-53 | the same for a round of the collector thread |
| `Locks.OperationsClimb` | src/inode.c:164-187 | the same for every operation |
| `Locks.NoWaitCycle` | src/segment.c:249-364 | no ring of waiting threads, of any length |
| `Locks.SomeoneCanGo` | src/segment.c:249-364 | behind any unfinished thread there is one that can go on |
| `Locks.DeadlockFree` | src/segment.c:249-364 | in every state of every interleaving of any number of threads: no wait cycle, no lock requested twice, progress until all are done |

## Left out

- Kernel interface replies, option parsing, mount and unmount code, permissions, symbolic links, statistics, and the formatting, checking and debugging tools.
- File descriptors and memory allocation failures; a disk is a map and a write succeeds or changes nothing.
- The byte layout of inodes, summaries, checkpoint headers and the superblock: these blocks are datatypes. Loading an inode from disk is not modelled; the code writes inodes at slot 0 of a block and reads them at slot `ino % 16`.
- The inode cache's lists and its eviction: cached inodes are a map.
- Double-indirect writes, which the code does not implement, and truncation.
- Cleaner.CleaningPreservesContents: only segments whose summary holds all its records and whose live blocks are inode images and direct blocks of cached inodes; `References.CleaningFollows` says for any segment which references survive.
- CleanerRuns.CleaningIsInvisible: cleanings of such segments; between the cleanings, operations on inodes whose cached location is up to date and that have not been freed. `Undercount.dfy` says what the others do.
- CleanerRuns.RunKeepsTruth: the same.
- Collector.CollectingKeepsContents: the same for every segment that the collector copies.
- Accounting.LiveCountCovers: runs without the copying cleaner, which are in `CleanerRuns.dfy`, and without operations on inodes already freed, which are in `Undercount.dfy`.
- Accounting.FreedSegmentIsUnreferenced: the same.
- Accounting.LiveCountCoversWords: only runs whose indirect writes find on disk the pointers they rewrite; on others a pointer block may name any block, as `BlockMap.UnflushedPointersAreLost` says.
- StaleReads.PartialWrites: direct blocks, in words of eight bytes.
- RecoveryRuns.RecoveryIsExact: runs without cleaning, from a checkpoint at which the segment being filled is below every FREE one and no summary from there on is as new as the checkpoint; `RecoveryRuns.LowerSegmentIsMissed` is about the other case.
- Durability.CheckpointsAreDurable: runs without cleaning or a remount in between.
- BlockMap.WriteFlushRead: requires the pointer block to be on disk; `BlockMap.UnflushedPointersAreLost` says what happens otherwise.
- CheckpointCrash.CrashAtomicity: block writes are atomic, and a sync that fails makes nothing durable.
- CheckpointCrash.StepKeepsInv: the same.
- CrashRecovery.CrashAnywhere: runs up to the first crash, without cleaning; pointers in pointer blocks are not followed.
- Volume.Fsys.Checkpoint: the order and the failures of the disk writes inside a checkpoint are in `CheckpointStore.dfy`.
- Volume.Fsys.CleanSegment: a block whose owner is not cached is passed over, where the code loads the inode.
- Volume.Fsys.Collect: the same, and the segments it cleans can be read.
- Directory.Dir.Add: directory blocks that LSFS itself laid out; blocks with broken record lengths, where the code stops or takes the rest of the block, are not modelled. Whether the log takes a block is a parameter.
- Directory.Dir.Remove: the same, and no name bound twice.
- Directory.Dir.Lookup: the same.
- DirScan.IsEmpty: the same.
- DirScan.Iterate: starts at a block boundary; a scan resumed inside a block reads a buffer that the code has not filled.
- Rename.Move: directory blocks can be read, and the `..` entry of a moved directory, which the code leaves as it is.
- Rename.ClearTarget: directory blocks can be read.
- Collector.Best: utilities are exact reals, where the code rounds to doubles.
- ByteRange.File.Write: the block store itself is the subject of `BlockMap.dfy`.
- Locks.DeadlockFree: data races are not modelled; two threads can still interfere where the code reads the buffer's block count without its lock, or flushes with the buffer unlocked.
