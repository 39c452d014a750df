/**
 * Completed checkpoints point only at durable blocks (src/checkpoint.c,
 * src/segment.c): whenever a complete marker is written, every inode location it
 * saves has been flushed and synced, and stays as it was from then on.
 */
module Durability {
  import opened Layout
  import opened Log
  import opened FileSystem
  import opened FsRuns

  /** On disk, outside the segment being filled, and synced. */
  predicate Durable(l: State, a: nat)
  {
    Occupied(l, a) && SegOf(a) != l.seg && a !in l.unsynced
  }

  /** The block at `a` is an image of inode `ino`. */
  predicate ImageOf(b: Block, ino: nat)
  {
    b.InodeImage? && b.inode.ino == ino
  }

  /** The inode has a pointer to `p`, directly or to its pointer block. */
  predicate PointsTo(d: DiskInode, p: nat)
  {
    p != 0 && (p in d.direct || p == d.indirect)
  }

  /** Every pointer of the inode leads to a block in use. */
  ghost predicate InUse(l: State, d: DiskInode)
  {
    forall p: nat :: PointsTo(d, p) ==> Occupied(l, p)
  }

  /** The block was synced when the checkpoint was saved, and is unchanged in `l`. */
  predicate Unchanged(s: Saved, l: State, a: nat)
  {
    a !in s.unsynced && Durable(l, a) && DiskAt(l.disk, a) == DiskAt(s.disk, a)
  }

  /** A saved location holds an image of its inode; it and the blocks that the image points at are unchanged. */
  ghost predicate ImageStays(s: Saved, l: State, ino: nat)
    requires ino in s.inodeMap
  {
    var a := s.inodeMap[ino];
    && ImageOf(DiskAt(s.disk, a), ino) && Unchanged(s, l, a)
    && forall p: nat :: PointsTo(DiskAt(s.disk, a).inode, p) ==> Unchanged(s, l, p)
  }

  ghost predicate StillThere(s: Saved, l: State)
  {
    forall ino :: ino in s.inodeMap ==> ImageStays(s, l, ino)
  }

  /** The block is an image of the inode, and what it points at is in use. */
  ghost predicate GoodImage(l: State, a: nat, ino: nat)
  {
    Occupied(l, a) && ImageOf(Overlay(l, a), ino) && InUse(l, Overlay(l, a).inode)
  }

  ghost predicate Inv(f: Fs)
  {
    && Valid(f.log)
    && (forall ino :: ino in f.icache ==> f.icache[ino].disk.ino == ino && InUse(f.log, f.icache[ino].disk))
    && (forall ino :: ino in f.inodeMap ==> GoodImage(f.log, f.inodeMap[ino], ino))
    && (forall i :: 0 <= i < |f.checkpoints| ==> StillThere(f.checkpoints[i], f.log))
  }

  lemma KeepsStillThere(s: Saved, l: State, l': State)
    requires StillThere(s, l) && Keeps(l, l')
    ensures StillThere(s, l')
  {
    forall ino | ino in s.inodeMap
      ensures ImageStays(s, l', ino)
    {
      assert ImageStays(s, l, ino);
      forall p: nat | Unchanged(s, l, p)
        ensures Unchanged(s, l', p)
      {
        assert Durable(l, p);
      }
    }
  }

  lemma KeepsImage(l: State, l': State, a: nat, ino: nat)
    requires GoodImage(l, a, ino) && Extends(l, l')
    ensures GoodImage(l', a, ino)
  {
    KeepsInUse(l, l', Overlay(l, a).inode);
  }

  lemma KeepsInUse(l: State, l': State, d: DiskInode)
    requires InUse(l, d) && Extends(l, l')
    ensures InUse(l', d)
  {
    forall p: nat | PointsTo(d, p)
      ensures Occupied(l', p)
    {
      assert Occupied(l, p);
    }
  }

  /** What holds of the cached inodes and of the inode map. */
  ghost predicate CacheGood(f: Fs, ino: nat)
  {
    ino in f.icache ==> f.icache[ino].disk.ino == ino && InUse(f.log, f.icache[ino].disk)
  }

  /** A change of the log, and of one inode, keeps the invariant. */
  lemma KeepsInvExcept(f: Fs, f': Fs, ino: nat)
    requires Inv(f) && Keeps(f.log, f'.log) && Valid(f'.log) && f'.checkpoints == f.checkpoints
    requires forall i :: i in f'.icache && i != ino ==> i in f.icache && f'.icache[i].disk == f.icache[i].disk
    requires forall i :: i in f'.inodeMap && i != ino ==> i in f.inodeMap && f'.inodeMap[i] == f.inodeMap[i]
    requires CacheGood(f', ino) && (ino in f'.inodeMap ==> GoodImage(f'.log, f'.inodeMap[ino], ino))
    ensures Inv(f')
  {
    hide Keeps, StillThere, GoodImage, InUse;
    KeepsExtends(f.log, f'.log);
    forall i | 0 <= i < |f.checkpoints|
      ensures StillThere(f'.checkpoints[i], f'.log)
    {
      KeepsStillThere(f.checkpoints[i], f.log, f'.log);
    }
    forall i | i in f'.icache && i != ino
      ensures f'.icache[i].disk.ino == i && InUse(f'.log, f'.icache[i].disk)
    {
      KeepsInUse(f.log, f'.log, f.icache[i].disk);
    }
    forall i | i in f'.inodeMap && i != ino
      ensures GoodImage(f'.log, f'.inodeMap[i], i)
    {
      KeepsImage(f.log, f'.log, f.inodeMap[i], i);
    }
  }

  lemma KeepsExtends(l: State, l': State)
    requires Keeps(l, l')
    ensures Extends(l, l')
  {
  }

  /** A change of the log alone keeps the invariant. */
  lemma KeepsInv(f: Fs, f': Fs)
    requires Inv(f) && Keeps(f.log, f'.log) && Valid(f'.log)
    requires f'.inodeMap == f.inodeMap && f'.icache == f.icache && f'.checkpoints == f.checkpoints
    ensures Inv(f')
  {
    hide Keeps, StillThere;
    KeepsExtends(f.log, f'.log);
    if 0 in f.icache {
      KeepsInUse(f.log, f'.log, f.icache[0].disk);
    }
    if 0 in f.inodeMap {
      KeepsImage(f.log, f'.log, f.inodeMap[0], 0);
    }
    KeepsInvExcept(f, f', 0);
  }

  /** What lies outside the buffer is durable once synced. */
  lemma SyncMakesDurable(l: State, a: nat)
    requires |l.buf| == 1 && Occupied(l, a)
    ensures Durable(Sync(l), a) && DiskAt(l.disk, a) == Overlay(l, a)
  {
  }

  /** With an empty buffer, a sync makes everything that the inode map leads to durable. */
  lemma SavedIsThere(f: Fs)
    requires Inv(f) && |f.log.buf| == 1
    ensures StillThere(Saved(f.inodeMap, f.log.disk, {}), Sync(f.log))
  {
    var s := Saved(f.inodeMap, f.log.disk, {});
    forall ino | ino in f.inodeMap
      ensures ImageStays(s, Sync(f.log), ino)
    {
      assert GoodImage(f.log, f.inodeMap[ino], ino);
      SyncMakesDurable(f.log, f.inodeMap[ino]);
      forall p: nat | PointsTo(DiskAt(s.disk, s.inodeMap[ino]).inode, p)
        ensures Unchanged(s, Sync(f.log), p)
      {
        SyncMakesDurable(f.log, p);
      }
    }
  }

  /** The sync of a checkpoint, with an empty buffer. */
  function SyncAndSave(f: Fs): Fs
  {
    f.(log := Sync(f.log), checkpoints := f.checkpoints + [Saved(f.inodeMap, f.log.disk, {})])
  }

  lemma SyncKeepsInv(f: Fs)
    requires Inv(f)
    ensures Inv(f.(log := Sync(f.log)))
  {
    SyncKeeps(f.log);
    KeepsInv(f, f.(log := Sync(f.log)));
  }

  lemma SavingKeeps(f: Fs)
    requires Inv(f) && |f.log.buf| == 1
    ensures Inv(SyncAndSave(f))
  {
    SavedIsThere(f);
    SyncKeepsInv(f);
  }

  /** The save itself, with an empty buffer: sync, then the marker. */
  lemma SaveKeeps(f: Fs)
    requires Inv(f) && |f.log.buf| == 1
    ensures Inv(CheckpointFs(f).0)
  {
    var f' := CheckpointFs(f).0;
    if f' != f {
      SavingKeeps(f);
      assert f' == SyncAndSave(f).(lastCheckpoint := f.now, writes := 0);
    }
  }

  lemma FlushKeepsInv(f: Fs)
    requires Inv(f) && CanFlush(f.log)
    ensures Inv(FlushFs(f).0) && |FlushFs(f).0.log.buf| == 1
  {
    if |f.log.buf| > 1 {
      var f1 := f.(log := Flush(f.log, f.now).0);
      FlushFacts(f.log, f.now);
      KeepsInv(f, f1);
      SaveKeeps(f1);
      FlushFsFacts(f);
    }
  }

  lemma AppendKeepsInv(f: Fs, data: Block, i: BlockInfo)
    requires Inv(f) && CanAppend(f.log)
    ensures var (f', a) := AppendFs(f, data, i);
            && Inv(f') && Holds(f'.log, a, data, i) && a > 0
            && f'.inodeMap == f.inodeMap && f'.icache == f.icache
  {
    AppendFsFacts(f, data, i);
    if |f.log.buf| == SEGMENT_BLOCKS {
      FlushKeepsInv(f);
    }
    var f1 := if |f.log.buf| < SEGMENT_BLOCKS then f else FlushFs(f).0;
    FlushOrSame(f);
    PutFacts(f1.log, data, i);
    KeepsInv(f1, PutFs(f1, data, i).0);
  }

  lemma FlushOrSame(f: Fs)
    requires Valid(f.log) && CanAppend(f.log)
    ensures |f.log.buf| == SEGMENT_BLOCKS ==> FlushFs(f).1 && Valid(FlushFs(f).0.log)
  {
    if |f.log.buf| == SEGMENT_BLOCKS {
      FlushFsFacts(f);
    }
  }

  lemma ReplaceKeepsInv(f: Fs, was: nat, data: Block, i: BlockInfo)
    requires Inv(f) && CanAppend(f.log)
    ensures var (f', a) := AppendFs(MarkDeadFs(f, was), data, i);
            && Inv(f') && Holds(f'.log, a, data, i) && a > 0
            && f'.inodeMap == f.inodeMap && f'.icache == f.icache
  {
    MarkDeadKeepsFs(f, was);
    KeepsInv(f, MarkDeadFs(f, was));
    AppendKeepsInv(MarkDeadFs(f, was), data, i);
  }

  /** Pointing a cached inode at a block in use. */
  lemma PointKeepsInv(f: Fs, ino: nat, n: Inode, a: nat)
    requires Inv(f) && ino in f.icache && Occupied(f.log, a) && n.disk.ino == ino
    requires forall p: nat :: PointsTo(n.disk, p) ==> PointsTo(f.icache[ino].disk, p) || p == a
    ensures Inv(f.(icache := f.icache[ino := n]))
  {
    var f' := f.(icache := f.icache[ino := n]);
    assert InUse(f.log, f.icache[ino].disk);
    assert CacheGood(f', ino);
    KeepsInvExcept(f, f', ino);
  }

  lemma WriteBlockKeepsInv(f: Fs, ino: nat, idx: nat, data: Block)
    requires Inv(f) && Enabled(f, WriteBlockStep(ino, idx, data))
    ensures Inv(WriteBlock(f, ino, idx, data).0)
  {
    hide AppendFs, MarkDeadFs, Inv;
    InvIsValid(f);
    var n := f.icache[ino];
    var d := n.disk;
    InvOwns(f, ino);
    ReplaceKeepsInv(f, if idx < DIRECT_BLOCKS then d.direct[idx] else 0, data, BlockInfo(ino, idx % UINT32, DataBlock));
    var (f1, a) := AppendData(f, ino, idx, data);
    if idx < DIRECT_BLOCKS {
      PointKeepsInv(f1, ino, Touch(n.(disk := d.(direct := d.direct[idx := a])), idx), a);
    } else if idx < MAPPED_BLOCKS {
      var words := if d.indirect == 0 then Zeros(WORDS_PER_BLOCK) else Words(DiskAt(f1.log.disk, d.indirect));
      ReplaceKeepsInv(f1, d.indirect, Payload(words[idx - DIRECT_BLOCKS := a]), BlockInfo(ino, 0, IndirectBlock));
      var (f2, p) := AppendPointers(f1, ino, d, idx, a);
      PointKeepsInv(f2, ino, Touch(n.(disk := d.(indirect := p)), idx), p);
    }
  }

  lemma InvIsValid(f: Fs)
    requires Inv(f)
    ensures Valid(f.log)
  {
  }

  lemma InvOwns(f: Fs, ino: nat)
    requires Inv(f) && ino in f.icache
    ensures f.icache[ino].disk.ino == ino
  {
  }

  /** Entering a block that holds the cached inode. */
  lemma EnterKeepsInv(f: Fs, ino: nat, a: nat, n: Inode)
    requires Inv(f) && ino in f.icache && n.disk == f.icache[ino].disk
    requires Occupied(f.log, a) && Overlay(f.log, a) == InodeImage(n.disk)
    ensures Inv(f.(inodeMap := f.inodeMap[ino := a], icache := f.icache[ino := n]))
  {
    var f' := f.(inodeMap := f.inodeMap[ino := a], icache := f.icache[ino := n]);
    assert f.icache[ino].disk.ino == ino && InUse(f.log, f.icache[ino].disk);
    KeepsInvExcept(f, f', ino);
  }

  lemma WriteInodeKeepsInv(f: Fs, ino: nat)
    requires Inv(f) && Enabled(f, WriteInodeStep(ino))
    ensures Inv(WriteInode(f, ino).0)
  {
    hide AppendFs, MarkDeadFs, Inv;
    InvIsValid(f);
    var n := f.icache[ino];
    if n.dirty {
      ReplaceKeepsInv(f, n.location, InodeImage(n.disk), BlockInfo(ino, 0, InodeBlock));
      var (f1, a) := AppendFs(MarkDeadFs(f, n.location), InodeImage(n.disk), BlockInfo(ino, 0, InodeBlock));
      EnterKeepsInv(f1, ino, a, n.(location := a, dirty := false));
    }
  }

  /** An inode that has no pointers, and is not mapped, or mapped as before. */
  lemma BlankKeepsInv(f: Fs, f': Fs, ino: nat)
    requires Inv(f) && f'.log == f.log && f'.checkpoints == f.checkpoints
    requires ino in f'.icache && f'.icache == f.icache[ino := f'.icache[ino]]
    requires var d := f'.icache[ino].disk; d.ino == ino && d.direct == Zeros(DIRECT_BLOCKS) && d.indirect == 0
    requires f'.inodeMap == f.inodeMap - {ino}
    ensures Inv(f')
  {
    assert forall p: nat :: !PointsTo(f'.icache[ino].disk, p);
    KeepsInvExcept(f, f', ino);
  }

  lemma FreeInodeKeepsInv(f: Fs, ino: nat)
    requires Inv(f) && Enabled(f, FreeInodeStep(ino))
    ensures Inv(FreeInode(f, ino))
  {
    var n := f.icache[ino];
    var addrs := n.disk.direct + [n.disk.indirect, n.disk.doubleIndirect, n.location];
    MarkAllDeadKeeps(f, addrs);
    KeepsInv(f, MarkAllDead(f, addrs));
    BlankKeepsInv(MarkAllDead(f, addrs), FreeInode(f, ino), ino);
  }

  lemma StepKeepsInv(f: Fs, s: Step)
    requires Inv(f) && Enabled(f, s) && !s.FreeEmptyStep?
    ensures Inv(Apply(f, s))
  {
    hide WriteBlock, WriteInode, FreeInode;
    match s
    case WriteBlockStep(ino, idx, data) => WriteBlockKeepsInv(f, ino, idx, data);
    case WriteInodeStep(ino) => WriteInodeKeepsInv(f, ino);
    case FreeInodeStep(ino) => FreeInodeKeepsInv(f, ino);
    case FlushStep => FlushKeepsInv(f);
    case CheckpointStep =>
      FlushKeepsInv(f);
      SaveKeeps(if |f.log.buf| > 1 then FlushFs(f).0 else f);
    case SyncStep => SyncKeepsInv(f);
    case NewInodeStep(ino) => BlankKeepsInv(f, NewInode(f, ino), ino);
    case _ =>
  }

  /** A run without cleaning, from a state whose inode map points at images in the log. */
  ghost predicate Run(fs: seq<Fs>, steps: seq<Step>)
  {
    && |fs| == |steps| + 1
    && Inv(fs[0])
    && forall i :: 0 <= i < |steps| ==>
         Sound(fs[i]) && Enabled(fs[i], steps[i]) && !steps[i].FreeEmptyStep? && fs[i + 1] == Apply(fs[i], steps[i])
  }

  /**
   * In every state of every run, each location saved by each checkpoint completed so
   * far, whether asked for or nested in a flush, was synced when its marker was
   * written, held an image of its inode, and still holds the same block, synced.
   */
  lemma {:induction false} CheckpointsAreDurable(fs: seq<Fs>, steps: seq<Step>, n: nat)
    requires Run(fs, steps) && n <= |steps|
    ensures Inv(fs[n])
    ensures forall i :: 0 <= i < |fs[n].checkpoints| ==> StillThere(fs[n].checkpoints[i], fs[n].log)
  {
    if n > 0 {
      CheckpointsAreDurable(fs, steps, n - 1);
      StepKeepsInv(fs[n - 1], steps[n - 1]);
    }
  }
}
