/**
 * Cached inodes and their images in the log (the dirty flag of src/inode.c and src/gc.c):
 * a clean inode is what its latest image says, so that dropping it from the cache loses
 * nothing, and what is written reaches the disk with the inode.
 */
module CleanInodes {
  import opened Layout
  import opened Log
  import opened FileSystem
  import opened FsRuns
  import opened BlockMap
  import opened Cleaner
  import A = Accounting
  import CleanerRuns

  /** A clean inode in use is mapped, and the block there is its image. */
  predicate Matches(f: Fs, ino: nat)
  {
    ino in f.icache && !f.icache[ino].dirty && !f.icache[ino].disk.deleted ==>
      ino in f.inodeMap && Overlay(f.log, f.inodeMap[ino]) == InodeImage(f.icache[ino].disk)
  }

  ghost predicate CleanIsImage(f: Fs)
  {
    forall ino: nat :: Matches(f, ino)
  }

  ghost predicate MapInUse(f: Fs)
  {
    forall ino :: ino in f.inodeMap ==> Occupied(f.log, f.inodeMap[ino])
  }

  /** An operation on one inode, over a log that keeps what is in use. */
  lemma OthersMatch(f: Fs, f': Fs, ino: nat)
    requires CleanIsImage(f) && MapInUse(f) && Extends(f.log, f'.log) && Matches(f', ino)
    requires forall i :: i in f'.icache && i != ino ==> i in f.icache && f'.icache[i] == f.icache[i]
    requires forall i :: i in f.inodeMap && i != ino ==> i in f'.inodeMap && f'.inodeMap[i] == f.inodeMap[i]
    ensures CleanIsImage(f')
  {
    forall i: nat
      ensures Matches(f', i)
    {
      assert Matches(f, i);
    }
  }

  lemma SameInodesMatch(f: Fs, f': Fs)
    requires CleanIsImage(f) && MapInUse(f) && Extends(f.log, f'.log)
    requires f'.icache == f.icache && f'.inodeMap == f.inodeMap
    ensures CleanIsImage(f')
  {
    assert Matches(f, 0);
    OthersMatch(f, f', 0);
  }

  lemma WriteBlockMatches(f: Fs, ino: nat, idx: nat, data: Block)
    requires Valid(f.log) && Enabled(f, WriteBlockStep(ino, idx, data)) && CleanIsImage(f) && MapInUse(f)
    ensures CleanIsImage(WriteBlock(f, ino, idx, data).0)
  {
    A.WriteBlockFrame(f, ino, idx, data);
    WriteBlockKeepsLog(f, ino, idx, data);
    var f' := WriteBlock(f, ino, idx, data).0;
    if idx < MAPPED_BLOCKS {
      WrittenIsDirty(f, ino, idx, data);
      OthersMatch(f, f', ino);
    } else {
      ReplaceKeeps(f, 0, data, BlockInfo(ino, idx % UINT32, DataBlock));
      SameInodesMatch(f, f');
    }
  }

  /** A block write leaves its inode dirty and grown to the block. */
  lemma WrittenIsDirty(f: Fs, ino: nat, idx: nat, data: Block)
    requires Valid(f.log) && Enabled(f, WriteBlockStep(ino, idx, data)) && idx < MAPPED_BLOCKS
    ensures var f' := WriteBlock(f, ino, idx, data).0;
            && ino in f'.icache && f'.icache[ino].dirty && f'.icache[ino].location == f.icache[ino].location
            && f'.icache[ino].disk.blocks == (if f.icache[ino].disk.blocks > idx then f.icache[ino].disk.blocks else idx + 1)
            && f'.icache[ino].disk.ino == f.icache[ino].disk.ino && !f'.icache[ino].disk.deleted
            && f'.icache[ino].disk.doubleIndirect == f.icache[ino].disk.doubleIndirect
  {
    hide AppendFs, MarkDeadFs;
    var d := f.icache[ino].disk;
    ReplaceKeeps(f, if idx < DIRECT_BLOCKS then d.direct[idx] else 0, data, BlockInfo(ino, idx % UINT32, DataBlock));
    var (f1, a) := AppendData(f, ino, idx, data);
    if DIRECT_BLOCKS <= idx {
      var words := if d.indirect == 0 then Zeros(WORDS_PER_BLOCK) else Words(DiskAt(f1.log.disk, d.indirect));
      ReplaceKeeps(f1, d.indirect, Payload(words[idx - DIRECT_BLOCKS := a]), BlockInfo(ino, 0, IndirectBlock));
    }
  }

  /** Writing a dirty inode appends its image and enters it. */
  lemma ImageAppended(f: Fs, ino: nat)
    requires Valid(f.log) && ino in f.icache && f.icache[ino].dirty && CanAppend(f.log)
    ensures var f' := WriteInode(f, ino).0;
            && Valid(f'.log) && Extends(f.log, f'.log) && ino in f'.inodeMap && ino in f'.icache
            && f'.icache[ino].disk == f.icache[ino].disk && f'.inodeMap[ino] == f'.icache[ino].location
            && f'.icache == f.icache[ino := f'.icache[ino]] && f'.inodeMap == f.inodeMap[ino := f'.inodeMap[ino]] && !f'.icache[ino].dirty
            && Occupied(f'.log, f'.inodeMap[ino]) && Overlay(f'.log, f'.inodeMap[ino]) == InodeImage(f.icache[ino].disk)
  {
    hide AppendFs, MarkDeadFs;
    var n := f.icache[ino];
    var g := MarkDeadFs(f, n.location);
    MarkDeadFacts(f, n.location);
    AppendFsFacts(g, InodeImage(n.disk), BlockInfo(ino, 0, InodeBlock));
    ExtendsTransitive(f.log, g.log, AppendFs(g, InodeImage(n.disk), BlockInfo(ino, 0, InodeBlock)).0.log);
  }

  lemma WriteInodeMatches(f: Fs, ino: nat)
    requires Valid(f.log) && Enabled(f, WriteInodeStep(ino)) && CleanIsImage(f) && MapInUse(f)
    ensures CleanIsImage(WriteInode(f, ino).0)
    ensures var f' := WriteInode(f, ino).0;
            ino in f'.icache && !f'.icache[ino].dirty && f'.icache[ino].disk == f.icache[ino].disk
  {
    if f.icache[ino].dirty {
      hide WriteInode;
      ImageAppended(f, ino);
      OthersMatch(f, WriteInode(f, ino).0, ino);
    }
  }

  lemma FreeInodeMatches(f: Fs, ino: nat)
    requires Valid(f.log) && Enabled(f, FreeInodeStep(ino)) && CleanIsImage(f) && MapInUse(f)
    ensures CleanIsImage(FreeInode(f, ino))
  {
    var n := f.icache[ino];
    MarkAllDeadKeeps(f, n.disk.direct + [n.disk.indirect, n.disk.doubleIndirect, n.location]);
    OthersMatch(f, FreeInode(f, ino), ino);
  }

  /** Every file operation keeps clean inodes and their images together. */
  lemma StepKeepsMatches(f: Fs, s: Step)
    requires Valid(f.log) && Enabled(f, s) && CleanIsImage(f) && MapInUse(f)
    ensures CleanIsImage(Apply(f, s))
  {
    hide WriteBlock, WriteInode, FreeInode, FlushFs, CheckpointFs;
    match s
    case WriteBlockStep(ino, idx, data) => WriteBlockMatches(f, ino, idx, data);
    case WriteInodeStep(ino) => WriteInodeMatches(f, ino);
    case FreeInodeStep(ino) => FreeInodeMatches(f, ino);
    case NewInodeStep(ino) => OthersMatch(f, NewInode(f, ino), ino);
    case FlushStep =>
      FlushFsFacts(f);
      SameInodesMatch(f, FlushFs(f).0);
    case CheckpointStep =>
      A.CheckpointMaps(f);
      StepKeepsLog(f, s);
      SameInodesMatch(f, CheckpointFs(f).0);
    case SyncStep =>
      SyncKeeps(f.log);
      SameInodesMatch(f, f.(log := Sync(f.log)));
    case TickStep(now) => assert forall ino: nat :: Matches(f, ino) ==> Matches(f.(now := now), ino);
    case FreeEmptyStep(k) => assert forall ino: nat :: Matches(f, ino) ==> Matches(f.(log := FreeEmpty(f.log, k)), ino);
  }

  // ------------------------------------------------------------- the cleaner

  /** The cleaner changes a cached inode only if it also marks it dirty. */
  lemma {:induction false} ChangedIsDirty(f: Fs, k: nat, bs: seq<Block>, i: nat, n: nat)
    requires Valid(f.log) && |bs| == SEGMENT_BLOCKS && 1 <= i <= n <= SEGMENT_BLOCKS && Allocates(f, k, bs, i, n)
    ensures var f' := CleanFrom(f, k, bs, i, n).0;
            && f'.icache.Keys == f.icache.Keys
            && forall ino :: ino in f.icache ==> f'.icache[ino] == f.icache[ino] || f'.icache[ino].dirty
    decreases n - i
  {
    if i < n {
      var r, a := RecordAt(bs[0], i - 1), SegmentToBlock(k, i);
      if Live(f, r, a) {
        AppendFsFacts(f, bs[i], r);
      }
      ChangedIsDirty(CleanBlock(f, bs[i], r, a).0, k, bs, i + 1, n);
    }
  }

  /** Copying a segment keeps clean inodes and their images together. */
  lemma CleaningKeepsMatches(f: Fs, k: nat)
    requires Truth(f) && Cleanable(f, k) && CleaningAllocates(f, k) && CleanIsImage(f)
    ensures CleanIsImage(CleanSegment(f, k).0)
  {
    hide CleanFrom, Allocates;
    CleaningPreservesContents(f, k);
    var bs := ReadSegment(f.log.disk, k);
    StartFacts(f, k);
    ChangedIsDirty(Started(f, k), k, bs, 1, BlocksToVisit(bs[0]));
    var f' := CleanSegment(f, k).0;
    forall ino: nat
      ensures Matches(f', ino)
    {
      assert Matches(f, ino);
    }
  }

  lemma AccountedIsInUse(f: Fs, m: A.Slots)
    requires A.Inv(f, m)
    ensures MapInUse(f)
  {
    forall ino | ino in f.inodeMap
      ensures Occupied(f.log, f.inodeMap[ino])
    {
      assert m[A.ImageSlot(ino)] == f.inodeMap[ino];
    }
  }

  lemma EventKeepsMatches(f: Fs, m: A.Slots, e: CleanerRuns.Event)
    requires Truth(f) && A.Inv(f, m) && CleanerRuns.Possible(f, m, e) && CleanIsImage(f)
    ensures CleanIsImage(CleanerRuns.Occur(f, m, e))
  {
    hide Truth, A.Inv, CleanIsImage, CleanSegment, Apply;
    match e
    case FileEvent(s) =>
      A.InvIsValid(f, m);
      AccountedIsInUse(f, m);
      StepKeepsMatches(f, s);
    case CleanEvent(k) => CleaningKeepsMatches(f, k);
  }

  /** In every state of every run of file operations and cleanings, a clean inode is its image. */
  lemma {:induction false} RunKeepsMatches(fs: seq<Fs>, ms: seq<A.Slots>, es: seq<CleanerRuns.Event>, n: nat)
    requires CleanerRuns.Run(fs, ms, es) && CleanIsImage(fs[0]) && n <= |es|
    ensures CleanIsImage(fs[n])
  {
    hide Truth, A.Inv, CleanIsImage, CleanerRuns.Possible, CleanerRuns.Occur, CleanerRuns.NextSlots;
    if n > 0 {
      RunKeepsMatches(fs, ms, es, n - 1);
      CleanerRuns.RunKeepsTruth(fs, ms, es, n - 1);
      EventKeepsMatches(fs[n - 1], ms[n - 1], es[n - 1]);
    }
  }

  // ------------------------------------------------------- written to the disk

  /** A block write, the write of its inode, and a flush, each of which finds room. */
  predicate CanPersist(f: Fs, ino: nat, idx: nat, data: Block)
  {
    && CanWrite(f, ino, idx, data) && !f.icache[ino].disk.deleted
    && var f1 := WriteBlock(f, ino, idx, data).0;
       && CanAppend(f1.log) && ino in f1.icache
       && CanFlush(WriteInode(f1, ino).0.log)
  }

  function Persisted(f: Fs, ino: nat, idx: nat, data: Block): Fs
    requires CanPersist(f, ino, idx, data)
  {
    FlushFs(WriteInode(WriteBlock(f, ino, idx, data).0, ino).0).0
  }

  /**
   * After a block write, the write of its inode and a flush, the disk has at the inode's
   * mapped location an image with the inode's pointers, and reading through this image gives
   * the new block at its index and what was there at every other.
   */
  lemma WriteReachesDisk(f: Fs, ino: nat, idx: nat, data: Block)
    requires CanPersist(f, ino, idx, data)
    requires PointersInUse(f.log, f.icache[ino].disk) && IndirectOnDisk(f.log, f.icache[ino].disk)
    ensures var f' := Persisted(f, ino, idx, data);
            && ino in f'.inodeMap && ino in f'.icache
            && var image := DiskAt(f'.log.disk, f'.inodeMap[ino]);
               && image == InodeImage(f'.icache[ino].disk) && WellFormed(image.inode)
               && forall j :: 0 <= j < MAPPED_BLOCKS ==>
                    ReadBlock(f'.log, image.inode, j, false) ==
                      if j == idx then Contents(data) else ReadBlock(f.log, f.icache[ino].disk, j, true)
  {
    hide WriteBlock, WriteInode, FlushFs, PointersInUse, ReadBlock;
    WriteUpdatesOverlay(f, ino, idx, data);
    WrittenIsDirty(f, ino, idx, data);
    var f1 := WriteBlock(f, ino, idx, data).0;
    ImageAppended(f1, ino);
    var f2 := WriteInode(f1, ino).0;
    ExtendsKeepsReads(f1.log, f2.log, f1.icache[ino].disk);
    FlushFsFacts(f2);
    FlushMakesReadable(f2, f2.icache[ino].disk);
  }
}
