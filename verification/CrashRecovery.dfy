/**
 * A crash and the two halves of what survives it (src/checkpoint.c, src/segment.c): the
 * checkpoint that is loaded, and the blocks that its inode map points at. File operations
 * and the operations of lsfs_checkpoint_write interleave in the order of the code.
 */
module CrashRecovery {
  import opened Layout
  import opened Log
  import opened FileSystem
  import opened Durability
  import FsRuns
  import CheckpointFormat
  import Regions = CheckpointCrash

  /** A checkpoint on disk, and what the file system saved with it. */
  predicate SavedAs(snap: CheckpointFormat.Snapshot, saved: Saved)
  {
    forall i :: 0 <= i < |snap.inodes| ==>
      snap.inodes[i].ino in saved.inodeMap && saved.inodeMap[snap.inodes[i].ino] == snap.inodes[i].location
  }

  /** The file system has synced the blocks that the checkpoint points at. */
  ghost predicate WasSaved(f: Fs, snap: CheckpointFormat.Snapshot)
  {
    exists i :: 0 <= i < |f.checkpoints| && SavedAs(snap, f.checkpoints[i])
  }

  /** The entries of an inode map, each inode once. */
  ghost predicate Lists(es: seq<CheckpointFormat.Entry>, m: map<nat, nat>)
  {
    && (forall i :: 0 <= i < |es| ==> es[i].ino in m && m[es[i].ino] == es[i].location)
    && (forall ino :: ino in m ==> exists i :: 0 <= i < |es| && es[i].ino == ino)
    && (forall i, j :: 0 <= i < j < |es| ==> es[i].ino != es[j].ino)
  }

  lemma {:induction false} ListsSize(es: seq<CheckpointFormat.Entry>, m: map<nat, nat>)
    requires Lists(es, m)
    ensures |es| == |m|
    decreases |es|
  {
    if es == [] {
      assert m == map[];
    } else {
      var n := |es| - 1;
      var m' := m - {es[n].ino};
      forall ino | ino in m'
        ensures exists i :: 0 <= i < |es[..n]| && es[..n][i].ino == ino
      {
        var i :| 0 <= i < |es| && es[i].ino == ino;
        assert es[..n][i].ino == ino;
      }
      ListsSize(es[..n], m');
      assert m.Keys == m'.Keys + {es[n].ino};
      assert |m| == |m.Keys| && |m'| == |m'.Keys|;
    }
  }

  /** The inode map can be saved if and only if its entries fit the blocks behind a checkpoint header. */
  lemma SavedIfFits(es: seq<CheckpointFormat.Entry>, m: map<nat, nat>)
    requires Lists(es, m)
    ensures |m| <= MAX_SAVED <==> CheckpointFormat.Fits(es)
  {
    ListsSize(es, m);
  }

  /**
   * A checkpoint succeeds if and only if the mount is writable and the inode map fits a
   * region; then everything is flushed and synced, and this inode map is the one saved last.
   */
  lemma CheckpointSucceeds(f: Fs, es: seq<CheckpointFormat.Entry>)
    requires Sound(f) && Lists(es, f.inodeMap)
    ensures CheckpointFs(f).1 <==> !f.log.readonly && CheckpointFormat.Fits(es)
    ensures var (f', ok) := CheckpointFs(f);
            ok ==> && |f'.log.buf| <= 1 && f'.log.unsynced == {} && f'.inodeMap == f.inodeMap
                   && f'.checkpoints != [] && f'.checkpoints[|f'.checkpoints| - 1].inodeMap == f.inodeMap
                   && f'.lastCheckpoint == f'.now && f'.writes == 0
  {
    FlushLeaves(f);
    SavedIfFits(es, f.inodeMap);
  }

  /**
   * Every checkpoint that the regions may give is one whose blocks were synced. While one is
   * being written nothing is buffered and its entries are those of the inode map; from its
   * first sync on, its blocks are synced too.
   */
  ghost predicate Joint(f: Fs, s: Regions.State)
  {
    && Inv(f) && Regions.Inv(s) && WasSaved(f, s.committed)
    && (s.loose.Some? ==> WasSaved(f, s.loose.value))
    && (!Regions.Idle(s) ==>
          && |f.log.buf| == 1 && Lists(s.target.inodes, f.inodeMap)
          && (CheckpointFormat.Fits(s.target.inodes) && Regions.Left(s) <= 3 ==> WasSaved(f, s.target)))
  }

  /** A disk that a crash may leave: whatever was synced is on it. */
  ghost predicate Survives(l: State, d: Disk)
  {
    forall a: nat :: a !in l.unsynced ==> DiskAt(d, a) == DiskAt(l.disk, a)
  }

  /** An image of the inode, whose pointers lead to the blocks that the log has there. */
  ghost predicate Readable(l: State, d: Disk, a: nat, ino: nat)
  {
    && ImageOf(DiskAt(d, a), ino)
    && forall p: nat :: PointsTo(DiskAt(d, a).inode, p) ==> Durable(l, p) && DiskAt(d, p) == DiskAt(l.disk, p)
  }

  /**
   * After any crash, a checkpoint is loaded, and every location in the loaded inode map
   * holds an image of its inode, with the blocks that it points at.
   */
  lemma LoadedInodesAreThere(f: Fs, s: Regions.State, keep: set<nat>, d: Disk)
    requires Joint(f, s) && Survives(f.log, d)
    ensures var loaded := CheckpointFormat.Load(Regions.Survivor(s.dev.durable, s.dev.pending, keep));
            && loaded.Some?
            && forall i :: 0 <= i < |loaded.value.inodes| ==>
                 Readable(f.log, d, loaded.value.inodes[i].location, loaded.value.inodes[i].ino)
  {
    hide Regions.Inv, CheckpointFormat.Load, Regions.Survivor;
    Regions.LoadAfterCrash(s, keep);
    var snap := CheckpointFormat.Load(Regions.Survivor(s.dev.durable, s.dev.pending, keep)).value;
    assert WasSaved(f, snap);
    var n :| 0 <= n < |f.checkpoints| && SavedAs(snap, f.checkpoints[n]);
    forall i | 0 <= i < |snap.inodes|
      ensures Readable(f.log, d, snap.inodes[i].location, snap.inodes[i].ino)
    {
      assert StillThere(f.checkpoints[n], f.log);
      SavedIsReadable(f.checkpoints[n], f.log, d, snap.inodes[i].ino);
    }
  }

  lemma SavedIsReadable(s: Saved, l: State, d: Disk, ino: nat)
    requires ino in s.inodeMap && ImageStays(s, l, ino) && Survives(l, d)
    ensures Readable(l, d, s.inodeMap[ino], ino)
  {
    forall p: nat | Unchanged(s, l, p)
      ensures DiskAt(d, p) == DiskAt(l.disk, p) == DiskAt(s.disk, p)
    {
    }
  }

  // ------------------------------------------------------- parts of operations

  /**
   * What file operations consist of. A flush may come between any two parts, and a
   * checkpoint behind it.
   */
  datatype Part =
    | Retire(a: nat)
    | PutBlock(ino: nat, data: Block, info: BlockInfo, inode: Inode)
    | PutImage(ino: nat)
    | Rotate
    | Create(ino: nat)
    | Drop(ino: nat)
    | Tick(now: nat)

  /** A block that is put may become a pointer of its inode; every other pointer was one before. */
  ghost predicate CanDo(f: Fs, p: Part)
  {
    match p
    case PutBlock(ino, _, _, n) =>
      && |f.log.buf| < SEGMENT_BLOCKS && ino in f.icache && n.disk.ino == ino
      && forall q: nat :: PointsTo(n.disk, q) ==>
           PointsTo(f.icache[ino].disk, q) || q == SegmentToBlock(f.log.seg, |f.log.buf|)
    case PutImage(ino) => |f.log.buf| < SEGMENT_BLOCKS && ino in f.icache
    case Rotate => |f.log.buf| > 1 && CanFlush(f.log)
    case Create(ino) => ino !in f.inodeMap
    case Drop(ino) => ino in f.icache
    case _ => true
  }

  function Done(f: Fs, p: Part): Fs
    requires Sound(f)
    requires p.PutImage? || p.Drop? ==> p.ino in f.icache
  {
    match p
    case Retire(a) => MarkDeadFs(f, a)
    case PutBlock(ino, data, info, n) =>
      var f1 := PutFs(f, data, info).0;
      f1.(icache := f1.icache[ino := n])
    case PutImage(ino) =>
      var n := f.icache[ino];
      var (f1, a) := PutFs(f, InodeImage(n.disk), BlockInfo(ino, 0, InodeBlock));
      f1.(inodeMap := f1.inodeMap[ino := a], icache := f1.icache[ino := n.(location := a, dirty := false)])
    case Rotate => f.(log := Flush(f.log, f.now).0)
    case Create(ino) => NewInode(f, ino)
    case Drop(ino) =>
      var n := f.icache[ino];
      var d := DiskInode(n.disk.ino, n.disk.blocks, Zeros(DIRECT_BLOCKS), 0, 0, true);
      f.(inodeMap := f.inodeMap - {ino}, icache := f.icache[ino := Inode(d, n.location, false)])
    case Tick(now) => f.(now := now)
  }

  lemma PutKeepsInv(f: Fs, data: Block, info: BlockInfo)
    requires Inv(f) && |f.log.buf| < SEGMENT_BLOCKS
    ensures var (f', a) := PutFs(f, data, info);
            Inv(f') && Occupied(f'.log, a) && Overlay(f'.log, a) == data
  {
    hide Inv;
    InvIsValid(f);
    PutFacts(f.log, data, info);
    KeepsInv(f, PutFs(f, data, info).0);
  }

  lemma PartKeepsInv(f: Fs, p: Part)
    requires Inv(f) && CanDo(f, p)
    ensures Inv(Done(f, p)) && Done(f, p).checkpoints == f.checkpoints
  {
    hide Inv, Flush;
    InvIsValid(f);
    match p
    case Retire(a) =>
      FsRuns.MarkDeadKeepsFs(f, a);
      KeepsInv(f, MarkDeadFs(f, a));
    case PutBlock(ino, data, info, n) =>
      PutKeepsInv(f, data, info);
      var (f1, a) := PutFs(f, data, info);
      PointKeepsInv(f1, ino, n, a);
    case PutImage(ino) =>
      var n := f.icache[ino];
      PutKeepsInv(f, InodeImage(n.disk), BlockInfo(ino, 0, InodeBlock));
      var (f1, a) := PutFs(f, InodeImage(n.disk), BlockInfo(ino, 0, InodeBlock));
      EnterKeepsInv(f1, ino, a, n.(location := a, dirty := false));
    case Rotate =>
      FlushFacts(f.log, f.now);
      KeepsInv(f, Done(f, p));
    case Create(ino) => BlankKeepsInv(f, NewInode(f, ino), ino);
    case Drop(ino) =>
      InvOwns(f, ino);
      BlankKeepsInv(f, Done(f, p), ino);
    case Tick(now) => KeepsItself(f.log);
      KeepsInv(f, f.(now := now));
  }

  lemma KeepsItself(l: State)
    ensures Keeps(l, l)
  {
  }

  // ------------------------------------------------------------------- runs

  /**
   * Between checkpoints, parts of file operations and syncs. `Start` begins a checkpoint
   * when its flush is done; `Next` is its next operation and `Abort` one that fails. File
   * operations wait until the checkpoint is done.
   */
  datatype Move =
    | FileMove(part: Part)
    | SyncMove
    | Start(entries: seq<CheckpointFormat.Entry>, table: seq<CheckpointFormat.Block>, superblock: CheckpointFormat.Block)
    | Next
    | Abort

  /** The only condition on checkpoints is that a header write waits for the sync of a loose one. */
  ghost predicate CanMove(f: Fs, s: Regions.State, m: Move)
  {
    match m
    case FileMove(p) => Regions.Idle(s) && Sound(f) && CanDo(f, p)
    case SyncMove => Regions.Idle(s)
    case Start(es, _, _) => Regions.Idle(s) && |f.log.buf| == 1 && Lists(es, f.inodeMap)
    case Next => s.pc < |s.script| && Regions.Careful(s, Regions.Advance)
    case Abort => s.pc < |s.script|
  }

  /** The machine that writes the regions. */
  ghost function RegionsAfter(f: Fs, s: Regions.State, m: Move): Regions.State
    requires CanMove(f, s, m)
  {
    match m
    case FileMove(_) => s
    case SyncMove => Regions.Apply(s, Regions.SyncStep)
    case Start(es, table, superblock) => Regions.Apply(s, Regions.Begin(f.now, f.log.logHead, es, table, superblock))
    case Next => Regions.Apply(s, Regions.Advance)
    case Abort => Regions.Apply(s, Regions.Fail)
  }

  /**
   * The file system. A sync is one of the whole disk; the first sync of a checkpoint is the
   * one that its marker waits for, and its last operation restarts the checkpoint interval.
   */
  ghost function FilesAfter(f: Fs, s: Regions.State, m: Move): Fs
    requires CanMove(f, s, m)
  {
    match m
    case FileMove(p) => Done(f, p)
    case SyncMove => f.(log := Sync(f.log))
    case Next =>
      if !s.script[s.pc].SyncOp? then f
      else if Regions.Left(s) > 1 then SyncAndSave(f)
      else f.(log := Sync(f.log), lastCheckpoint := f.now, writes := 0)
    case _ => f
  }

  ghost predicate Run(fs: seq<Fs>, ss: seq<Regions.State>, ms: seq<Move>)
  {
    && |fs| == |ms| + 1 && |ss| == |ms| + 1
    && Joint(fs[0], ss[0])
    && forall i :: 0 <= i < |ms| ==>
         CanMove(fs[i], ss[i], ms[i]) && fs[i + 1] == FilesAfter(fs[i], ss[i], ms[i]) && ss[i + 1] == RegionsAfter(fs[i], ss[i], ms[i])
  }

  lemma StaysSaved(f: Fs, f': Fs, snap: CheckpointFormat.Snapshot)
    requires WasSaved(f, snap) && f.checkpoints <= f'.checkpoints
    ensures WasSaved(f', snap)
  {
    var i :| 0 <= i < |f.checkpoints| && SavedAs(snap, f.checkpoints[i]);
    assert f'.checkpoints[i] == f.checkpoints[i];
  }

  /** The first sync of a checkpoint is a sync of everything that its entries lead to. */
  lemma CheckpointIsSaved(f: Fs, snap: CheckpointFormat.Snapshot)
    requires Lists(snap.inodes, f.inodeMap)
    ensures WasSaved(SyncAndSave(f), snap)
  {
    var f' := SyncAndSave(f);
    assert SavedAs(snap, f'.checkpoints[|f'.checkpoints| - 1]);
  }

  /** The checkpoints that may be loaded later were loadable before. */
  lemma LoadableBefore(s: Regions.State, step: Regions.Step)
    requires Regions.Inv(s) && Regions.Enabled(s, step) && !step.Crash? && Regions.Careful(s, step)
    ensures var s' := Regions.Apply(s, step);
            && Regions.Acceptable(s, Some(s'.committed))
            && (s'.loose.Some? ==> Regions.Acceptable(s, s'.loose))
  {
    hide Regions.Progress, Regions.Complete, Regions.Hanging, Regions.Script;
    assert !Regions.Idle(s) ==> Regions.Running(s);
  }

  lemma AcceptableIsSaved(f: Fs, s: Regions.State, l: Option<CheckpointFormat.Snapshot>)
    requires Joint(f, s) && Regions.Acceptable(s, l)
    ensures WasSaved(f, l.value)
  {
  }

  /** What a move does to the part of the joint state that is about loadable checkpoints. */
  lemma MoveKeepsSaved(f: Fs, s: Regions.State, step: Regions.Step, f': Fs)
    requires Joint(f, s) && Regions.Enabled(s, step) && !step.Crash? && Regions.Careful(s, step)
    requires f.checkpoints <= f'.checkpoints
    ensures var s' := Regions.Apply(s, step);
            && Regions.Inv(s') && WasSaved(f', s'.committed) && (s'.loose.Some? ==> WasSaved(f', s'.loose.value))
  {
    hide Joint, Regions.Inv, Regions.Apply, Regions.Acceptable, WasSaved;
    JointIsInv(f, s);
    Regions.StepKeepsInv(s, step);
    LoadableBefore(s, step);
    var s' := Regions.Apply(s, step);
    AcceptableIsSaved(f, s, Some(s'.committed));
    StaysSaved(f, f', s'.committed);
    if s'.loose.Some? {
      AcceptableIsSaved(f, s, s'.loose);
      StaysSaved(f, f', s'.loose.value);
    }
  }

  lemma JointIsInv(f: Fs, s: Regions.State)
    requires Joint(f, s)
    ensures Inv(f) && Regions.Inv(s)
  {
  }

  lemma FileMoveKeeps(f: Fs, s: Regions.State, p: Part)
    requires Joint(f, s) && CanMove(f, s, FileMove(p))
    ensures Joint(Done(f, p), s)
  {
    hide Inv, Regions.Inv, Done, WasSaved;
    PartKeepsInv(f, p);
    var f' := Done(f, p);
    StaysSaved(f, f', s.committed);
    if s.loose.Some? {
      StaysSaved(f, f', s.loose.value);
    }
  }

  lemma StartKeeps(f: Fs, s: Regions.State, m: Move)
    requires Joint(f, s) && m.Start? && CanMove(f, s, m)
    ensures Joint(f, RegionsAfter(f, s, m))
  {
    hide Inv, Regions.Inv, WasSaved, Lists, Regions.Script;
    var step := Regions.Begin(f.now, f.log.logHead, m.entries, m.table, m.superblock);
    MoveKeepsSaved(f, s, step, f);
    var s' := Regions.Apply(s, step);
    Regions.ScriptShape(!s.active, s'.target, m.table, m.superblock);
    Regions.ScriptLength(s'.script, !s.active, s'.target);
  }

  lemma SyncMoveKeeps(f: Fs, s: Regions.State)
    requires Joint(f, s) && Regions.Idle(s)
    ensures Joint(f.(log := Sync(f.log)), Regions.Apply(s, Regions.SyncStep))
  {
    hide Inv, Regions.Inv, WasSaved;
    SyncKeepsInv(f);
    MoveKeepsSaved(f, s, Regions.SyncStep, f.(log := Sync(f.log)));
  }

  lemma AbortKeeps(f: Fs, s: Regions.State)
    requires Joint(f, s) && s.pc < |s.script|
    ensures Joint(f, Regions.Apply(s, Regions.Fail))
  {
    hide Inv, Regions.Inv, WasSaved;
    MoveKeepsSaved(f, s, Regions.Fail, f);
  }

  lemma NextFiles(f: Fs, s: Regions.State)
    requires Joint(f, s) && CanMove(f, s, Next)
    ensures var f' := FilesAfter(f, s, Next);
            && Inv(f') && f.checkpoints <= f'.checkpoints && |f'.log.buf| == 1 && f'.inodeMap == f.inodeMap
            && (s.script[s.pc].SyncOp? && Regions.Left(s) > 1 ==> WasSaved(f', s.target))
  {
    hide Inv, Regions.Inv, WasSaved, Lists;
    if s.script[s.pc].SyncOp? {
      if Regions.Left(s) > 1 {
        SavingKeeps(f);
        CheckpointIsSaved(f, s.target);
      } else {
        SyncKeepsInv(f);
        var f1 := f.(log := Sync(f.log));
        KeepsItself(f1.log);
        InvIsValid(f1);
        KeepsInv(f1, FilesAfter(f, s, Next));
      }
    }
  }

  /** Before its last three operations a script comes to its first sync. */
  lemma FirstSyncPlace(s: Regions.State)
    requires Regions.Inv(s) && !Regions.Idle(s) && CheckpointFormat.Fits(s.target.inodes)
    ensures Regions.Left(s) == 4 ==> s.script[s.pc].SyncOp?
  {
    assert Regions.Running(s);
  }

  lemma NextKeeps(f: Fs, s: Regions.State)
    requires Joint(f, s) && CanMove(f, s, Next)
    ensures Joint(FilesAfter(f, s, Next), RegionsAfter(f, s, Next))
  {
    hide Inv, Regions.Inv, WasSaved, Lists, FilesAfter;
    NextFiles(f, s);
    var f' := FilesAfter(f, s, Next);
    MoveKeepsSaved(f, s, Regions.Advance, f');
    var s' := Regions.Apply(s, Regions.Advance);
    if CheckpointFormat.Fits(s.target.inodes) {
      FirstSyncPlace(s);
      if Regions.Left(s) <= 3 {
        StaysSaved(f, f', s.target);
      }
    }
  }

  lemma MoveKeepsJoint(f: Fs, s: Regions.State, m: Move)
    requires Joint(f, s) && CanMove(f, s, m)
    ensures Joint(FilesAfter(f, s, m), RegionsAfter(f, s, m))
  {
    hide Joint;
    match m
    case FileMove(p) => FileMoveKeeps(f, s, p);
    case SyncMove => SyncMoveKeeps(f, s);
    case Start(_, _, _) => StartKeeps(f, s, m);
    case Next => NextKeeps(f, s);
    case Abort => AbortKeeps(f, s);
  }

  lemma {:induction false} JointRun(fs: seq<Fs>, ss: seq<Regions.State>, ms: seq<Move>, n: nat)
    requires Run(fs, ss, ms) && n <= |ms|
    ensures Joint(fs[n], ss[n])
  {
    hide Joint, CanMove, FilesAfter, RegionsAfter;
    if n > 0 {
      JointRun(fs, ss, ms, n - 1);
      assert CanMove(fs[n - 1], ss[n - 1], ms[n - 1]) && fs[n - 1 + 1] == FilesAfter(fs[n - 1], ss[n - 1], ms[n - 1]);
      MoveKeepsJoint(fs[n - 1], ss[n - 1], ms[n - 1]);
    }
  }

  /**
   * Over every run of file operations and whole checkpoints, which may fail at any operation:
   * a crash at any moment, whatever subset of the unsynced writes survives it, is followed by
   * the load of a checkpoint whose every location holds an image of its inode, with the
   * blocks that it points at.
   */
  lemma {:induction false} CrashAnywhere(fs: seq<Fs>, ss: seq<Regions.State>, ms: seq<Move>, n: nat, keep: set<nat>, d: Disk)
    requires Run(fs, ss, ms) && n <= |ms| && Survives(fs[n].log, d)
    ensures var loaded := CheckpointFormat.Load(Regions.Survivor(ss[n].dev.durable, ss[n].dev.pending, keep));
            && loaded.Some?
            && forall i :: 0 <= i < |loaded.value.inodes| ==>
                 Readable(fs[n].log, d, loaded.value.inodes[i].location, loaded.value.inodes[i].ino)
  {
    JointRun(fs, ss, ms, n);
    LoadedInodesAreThere(fs[n], ss[n], keep, d);
  }

  /** A formatted disk: one complete checkpoint, whose blocks are all there. */
  lemma FormattedIsJoint(f: Fs, d: map<nat, CheckpointFormat.Block>, snap: CheckpointFormat.Snapshot)
    requires Inv(f) && f.checkpoints == [Saved(f.inodeMap, f.log.disk, {})] && Lists(snap.inodes, f.inodeMap)
    requires |snap.inodes| == 1 && CheckpointFormat.At(d, CHECKPOINT0_START) == CheckpointFormat.HeaderOf(snap, 1)
    requires CheckpointFormat.At(d, CHECKPOINT0_START + 1) == CheckpointFormat.Entries(snap.inodes)
    requires !CheckpointFormat.ValidHeader(CheckpointFormat.At(d, CHECKPOINT1_START))
    ensures Joint(f, Regions.State(Regions.Device(d, []), snap.sequence, false, [], 0, snap, snap, None))
  {
    Regions.FormattedIsSound(d, snap);
    assert SavedAs(snap, f.checkpoints[0]);
  }

  // ---------------------------------------------- operations as their parts

  /** A script has two syncs: before the marker, and at its end. */
  lemma SyncsOfScript(ops: seq<Regions.Op>, r: bool, t: CheckpointFormat.Snapshot, x: nat)
    requires Regions.IsScript(ops, r, t) && CheckpointFormat.Fits(t.inodes) && x < |ops|
    ensures |ops| > 4 && (ops[x].SyncOp? <==> x == |ops| - 4 || x == |ops| - 1)
  {
    var saved := CheckpointFormat.SaveEntries(t.inodes);
    if 1 <= x <= |saved| {
      assert ops[x - 1 + 1] == Regions.WriteOp(Regions.Write(CheckpointFormat.RegionStart(r) + 1 + (x - 1), saved[x - 1]));
    }
  }

  /** The file system while a checkpoint of `n` operations is written, `c` of them done. */
  function During(f: Fs, n: nat, c: nat): Fs
  {
    if c + 4 <= n then f
    else if c < n then SyncAndSave(f)
    else SyncAndSave(f).(lastCheckpoint := f.now, writes := 0)
  }

  lemma OperationDone(f0: Fs, f: Fs, s: Regions.State, r: bool)
    requires Regions.IsScript(s.script, r, s.target) && CheckpointFormat.Fits(s.target.inodes) && CanMove(f, s, Next)
    requires f == During(f0, |s.script|, s.pc)
    ensures var s' := RegionsAfter(f, s, Next);
            && s'.script == s.script && s'.pc == s.pc + 1 && s'.target == s.target
            && FilesAfter(f, s, Next) == During(f0, |s.script|, s.pc + 1)
  {
    hide Regions.IsScript;
    SyncsOfScript(s.script, r, s.target, s.pc);
  }

  lemma Started(f: Fs, s: Regions.State, m: Move)
    requires CanMove(f, s, m) && m.Start? && CheckpointFormat.Fits(m.entries)
    ensures var s' := RegionsAfter(f, s, m);
            && s'.pc == 0 && s'.target.inodes == m.entries && Regions.IsScript(s'.script, !s.active, s'.target)
            && |s'.script| > 4 && FilesAfter(f, s, m) == f
  {
    hide Regions.IsScript, Regions.Script;
    var s' := RegionsAfter(f, s, m);
    Regions.ScriptShape(!s.active, s'.target, m.table, m.superblock);
    Regions.ScriptLength(s'.script, !s.active, s'.target);
  }

  lemma {:induction false} CheckpointMoves(fs: seq<Fs>, ss: seq<Regions.State>, ms: seq<Move>, i: nat, c: nat)
    requires Run(fs, ss, ms) && i + 1 + c <= |ms| && ms[i].Start? && CheckpointFormat.Fits(ms[i].entries)
    requires c <= |ss[i + 1].script| && forall x :: i < x <= i + c ==> ms[x] == Next
    ensures var s0, s := ss[i + 1], ss[i + 1 + c];
            && s.script == s0.script && s.pc == c && s.target == s0.target
            && fs[i + 1 + c] == During(fs[i], |s0.script|, c)
  {
    hide Regions.IsScript, CanMove, FilesAfter, RegionsAfter;
    OneMove(fs, ss, ms, i);
    Started(fs[i], ss[i], ms[i]);
    if c > 0 {
      CheckpointMoves(fs, ss, ms, i, c - 1);
      OneMove(fs, ss, ms, i + c);
      OperationDone(fs[i], fs[i + c], ss[i + c], !ss[i].active);
    }
  }

  lemma OneMove(fs: seq<Fs>, ss: seq<Regions.State>, ms: seq<Move>, i: nat)
    requires Run(fs, ss, ms) && i < |ms|
    ensures CanMove(fs[i], ss[i], ms[i])
    ensures fs[i + 1] == FilesAfter(fs[i], ss[i], ms[i]) && ss[i + 1] == RegionsAfter(fs[i], ss[i], ms[i])
  {
  }

  /** A checkpoint that runs to its end is, for the file system, lsfs_checkpoint_write behind its flush. */
  lemma WholeCheckpoint(fs: seq<Fs>, ss: seq<Regions.State>, ms: seq<Move>, i: nat)
    requires Run(fs, ss, ms) && i < |ms| && ms[i].Start? && CheckpointFormat.Fits(ms[i].entries)
    requires i + 1 + |ss[i + 1].script| <= |ms| && forall x :: i < x <= i + |ss[i + 1].script| ==> ms[x] == Next
    requires !fs[i].log.readonly
    ensures var j := i + 1 + |ss[i + 1].script|;
            Sound(fs[i]) && fs[j] == CheckpointFs(fs[i]).0 && Regions.Idle(ss[j])
  {
    hide Joint, Inv, CanMove, FilesAfter, RegionsAfter, FlushFs;
    CheckpointMoves(fs, ss, ms, i, |ss[i + 1].script|);
    OneMove(fs, ss, ms, i);
    BufferIsEmpty(fs[i], ss[i], ms[i]);
    SavedIfFits(ms[i].entries, fs[i].inodeMap);
    JointRun(fs, ss, ms, i);
    JointIsInv(fs[i], ss[i]);
    InvIsValid(fs[i]);
    LongScript(fs, ss, ms, i);
  }

  lemma BufferIsEmpty(f: Fs, s: Regions.State, m: Move)
    requires CanMove(f, s, m) && m.Start?
    ensures |f.log.buf| == 1 && Lists(m.entries, f.inodeMap)
  {
  }

  lemma LongScript(fs: seq<Fs>, ss: seq<Regions.State>, ms: seq<Move>, i: nat)
    requires Run(fs, ss, ms) && i < |ms| && ms[i].Start? && CheckpointFormat.Fits(ms[i].entries)
    ensures |ss[i + 1].script| > 4
  {
    hide Regions.IsScript, CanMove, FilesAfter, RegionsAfter;
    OneMove(fs, ss, ms, i);
    Started(fs[i], ss[i], ms[i]);
  }

  /** A part of a file operation, or a whole checkpoint. */
  datatype Piece = APart(part: Part) | Whole

  ghost predicate CanPiece(f: Fs, p: Piece)
  {
    Sound(f) && match p
                case APart(q) => CanDo(f, q)
                case Whole => |f.log.buf| == 1
  }

  ghost function PieceDone(f: Fs, p: Piece): Fs
    requires CanPiece(f, p)
  {
    match p
    case APart(q) => Done(f, q)
    case Whole => CheckpointFs(f).0
  }

  /** The pieces lead from one state to the other. */
  ghost predicate Leads(f: Fs, ps: seq<Piece>, f': Fs)
    decreases |ps|
  {
    if ps == [] then f' == f else CanPiece(f, ps[0]) && Leads(PieceDone(f, ps[0]), ps[1..], f')
  }

  lemma {:induction false} LeadsOn(f: Fs, ps: seq<Piece>, g: Fs, qs: seq<Piece>, h: Fs)
    requires Leads(f, ps, g) && Leads(g, qs, h)
    ensures Leads(f, ps + qs, h)
    decreases |ps|
  {
    if ps == [] {
      assert ps + qs == qs;
    } else {
      LeadsOn(PieceDone(f, ps[0]), ps[1..], g, qs, h);
      assert (ps + qs)[1..] == ps[1..] + qs;
    }
  }

  lemma OnePiece(f: Fs, p: Piece)
    requires CanPiece(f, p)
    ensures Leads(f, [p], PieceDone(f, p))
  {
    assert [p][1..] == [];
  }

  /** A flush is a rotation, and a checkpoint if one is due. */
  lemma FlushInPieces(f: Fs) returns (ps: seq<Piece>)
    requires Valid(f.log) && CanFlush(f.log)
    ensures Leads(f, ps, FlushFs(f).0)
  {
    if |f.log.buf| <= 1 {
      return [];
    }
    FlushFacts(f.log, f.now);
    var f1 := f.(log := Flush(f.log, f.now).0);
    OnePiece(f, APart(Rotate));
    if CheckpointNeeded(f1) {
      OnePiece(f1, Whole);
      LeadsOn(f, [APart(Rotate)], f1, [Whole], CheckpointFs(f1).0);
      return [APart(Rotate)] + [Whole];
    }
    return [APart(Rotate)];
  }

  /** An append retires a block, flushes if the buffer is full, and puts its block. */
  lemma AppendInPieces(f: Fs, was: nat, data: Block, i: BlockInfo) returns (ps: seq<Piece>, g: Fs)
    requires Valid(f.log) && CanAppend(f.log)
    ensures Leads(f, ps, g) && Valid(g.log) && |g.log.buf| < SEGMENT_BLOCKS
    ensures g.icache == f.icache && g.inodeMap == f.inodeMap
    ensures AppendFs(MarkDeadFs(f, was), data, i) == PutFs(g, data, i)
  {
    var f1 := MarkDeadFs(f, was);
    MarkDeadFacts(f, was);
    OnePiece(f, APart(Retire(was)));
    ps, g := [APart(Retire(was))], f1;
    if |f1.log.buf| == SEGMENT_BLOCKS {
      var qs := FlushInPieces(f1);
      FlushFsFacts(f1);
      LeadsOn(f, ps, f1, qs, FlushFs(f1).0);
      ps, g := ps + qs, FlushFs(f1).0;
    }
  }

  /** Writing an inode is such pieces. */
  lemma WriteInodeInPieces(f: Fs, ino: nat) returns (ps: seq<Piece>)
    requires Valid(f.log) && FsRuns.Enabled(f, FsRuns.WriteInodeStep(ino))
    ensures Leads(f, ps, WriteInode(f, ino).0)
  {
    hide AppendFs, MarkDeadFs, Leads;
    var n := f.icache[ino];
    if !n.dirty {
      NoPieces(f);
      return [];
    }
    var g;
    ps, g := AppendInPieces(f, n.location, InodeImage(n.disk), BlockInfo(ino, 0, InodeBlock));
    OnePiece(g, APart(PutImage(ino)));
    LeadsOn(f, ps, g, [APart(PutImage(ino))], WriteInode(f, ino).0);
    ps := ps + [APart(PutImage(ino))];
  }

  lemma NoPieces(f: Fs)
    ensures Leads(f, [], f)
  {
  }

  lemma PutInPieces(f: Fs, ps: seq<Piece>, g: Fs, ino: nat, data: Block, i: BlockInfo, n: Inode)
    requires Leads(f, ps, g) && Sound(g) && |g.log.buf| < SEGMENT_BLOCKS && ino in g.icache && n.disk.ino == ino
    requires forall q: nat :: PointsTo(n.disk, q) ==> PointsTo(g.icache[ino].disk, q) || q == PutFs(g, data, i).1
    ensures var f1 := PutFs(g, data, i).0;
            Leads(f, ps + [APart(PutBlock(ino, data, i, n))], f1.(icache := f1.icache[ino := n]))
  {
    hide Leads;
    OnePiece(g, APart(PutBlock(ino, data, i, n)));
    LeadsOn(f, ps, g, [APart(PutBlock(ino, data, i, n))], Done(g, PutBlock(ino, data, i, n)));
  }

  /** So is writing a block, with one or two appends. */
  lemma WriteBlockInPieces(f: Fs, ino: nat, idx: nat, data: Block) returns (ps: seq<Piece>)
    requires Valid(f.log) && FsRuns.Enabled(f, FsRuns.WriteBlockStep(ino, idx, data)) && f.icache[ino].disk.ino == ino
    ensures Leads(f, ps, WriteBlock(f, ino, idx, data).0)
  {
    hide AppendFs, MarkDeadFs, Leads;
    var n := f.icache[ino];
    var d, i := n.disk, BlockInfo(ino, idx % UINT32, DataBlock);
    var g;
    ps, g := AppendInPieces(f, if idx < DIRECT_BLOCKS then d.direct[idx] else 0, data, i);
    var a := PutFs(g, data, i).1;
    if idx < DIRECT_BLOCKS {
      var n' := Touch(n.(disk := d.(direct := d.direct[idx := a])), idx);
      PutInPieces(f, ps, g, ino, data, i, n');
      return ps + [APart(PutBlock(ino, data, i, n'))];
    }
    PutInPieces(f, ps, g, ino, data, i, n);
    ps := ps + [APart(PutBlock(ino, data, i, n))];
    var f1 := AppendData(f, ino, idx, data).0;
    DataPut(g, ino, data, i, n);
    if idx < MAPPED_BLOCKS {
      PutFacts(g.log, data, i);
      var words := if d.indirect == 0 then Zeros(WORDS_PER_BLOCK) else Words(DiskAt(f1.log.disk, d.indirect));
      var b, j := Payload(words[idx - DIRECT_BLOCKS := a]), BlockInfo(ino, 0, IndirectBlock);
      var qs, h := AppendInPieces(f1, d.indirect, b, j);
      LeadsOn(f, ps, f1, qs, h);
      var n' := Touch(n.(disk := d.(indirect := PutFs(h, b, j).1)), idx);
      PutInPieces(f, ps + qs, h, ino, b, j, n');
      ps := (ps + qs) + [APart(PutBlock(ino, b, j, n'))];
    }
  }

  lemma DataPut(g: Fs, ino: nat, data: Block, i: BlockInfo, n: Inode)
    requires ino in g.icache && g.icache[ino] == n
    ensures var f1 := PutFs(g, data, i).0; f1.(icache := f1.icache[ino := n]) == f1
  {
    assert g.icache[ino := n] == g.icache;
  }
}
