/**
 * Runs of file operations: block writes, inode writes and frees, flushes,
 * checkpoints and syncs in any order, and what each of them keeps of the log.
 */
module FsRuns {
  import opened Layout
  import opened Log
  import opened FileSystem

  datatype Step =
    | WriteBlockStep(ino: nat, idx: nat, data: Block)
    | WriteInodeStep(ino: nat)
    | FreeInodeStep(ino: nat)
    | NewInodeStep(ino: nat)
    | FlushStep
    | CheckpointStep
    | SyncStep
    | TickStep(now: nat)
    | FreeEmptyStep(k: nat)

  function Apply(f: Fs, s: Step): (r: Fs)
    requires Sound(f) && Enabled(f, s)
    ensures Sound(r)
  {
    match s
    case WriteBlockStep(ino, idx, data) => WriteBlock(f, ino, idx, data).0
    case WriteInodeStep(ino) => WriteInode(f, ino).0
    case FreeInodeStep(ino) => FreeInode(f, ino)
    case NewInodeStep(ino) => NewInode(f, ino)
    case FlushStep => FlushFs(f).0
    case CheckpointStep => CheckpointFs(f).0
    case SyncStep => f.(log := Sync(f.log))
    case TickStep(now) => f.(now := now)
    case FreeEmptyStep(k) => f.(log := FreeEmpty(f.log, k))
  }

  /**
   * Operations work on cached inodes that have not been freed, a new inode gets a
   * number that is not in use, and every flush that has to allocate can.
   */
  predicate Enabled(f: Fs, s: Step)
    requires Sound(f)
  {
    match s
    case WriteBlockStep(ino, idx, data) =>
      && Usable(f, ino) && CanAppend(f.log)
      && (DIRECT_BLOCKS <= idx < MAPPED_BLOCKS ==> CanAppend(AppendData(f, ino, idx, data).0.log))
    case WriteInodeStep(ino) => Usable(f, ino) && CanAppend(f.log)
    case FreeInodeStep(ino) => Usable(f, ino)
    case NewInodeStep(ino) => ino !in f.inodeMap && (ino in f.icache ==> f.icache[ino].disk.deleted)
    case FlushStep => CanFlush(f.log)
    case CheckpointStep => CanFlush(f.log)
    case _ => true
  }

  predicate Usable(f: Fs, ino: nat)
  {
    ino in f.icache && WellFormed(f.icache[ino].disk) && !f.icache[ino].disk.deleted
  }

  lemma FlushKeepsFs(f: Fs)
    requires Valid(f.log) && CanFlush(f.log)
    ensures Keeps(f.log, FlushFs(f).0.log) && Valid(FlushFs(f).0.log)
  {
    FlushFsFacts(f);
  }

  lemma AppendKeepsFs(f: Fs, data: Block, i: BlockInfo)
    requires Valid(f.log) && CanAppend(f.log)
    ensures var (f', a) := AppendFs(f, data, i);
            Keeps(f.log, f'.log) && Valid(f'.log) && f'.icache == f.icache && f'.inodeMap == f.inodeMap && a > 0
  {
    AppendFsFacts(f, data, i);
  }

  lemma MarkDeadKeepsFs(f: Fs, a: nat)
    requires Valid(f.log)
    ensures var f' := MarkDeadFs(f, a);
            && Keeps(f.log, f'.log) && Valid(f'.log) && f' == f.(log := f'.log)
            && (CanAppend(f.log) ==> CanAppend(f'.log))
  {
    MarkDeadFacts(f, a);
  }

  lemma {:induction false} MarkAllDeadKeeps(f: Fs, addrs: seq<nat>)
    requires Valid(f.log)
    ensures var f' := MarkAllDead(f, addrs);
            Keeps(f.log, f'.log) && Valid(f'.log) && f' == f.(log := f'.log)
    decreases |addrs|
  {
    if addrs != [] {
      MarkDeadKeepsFs(f, addrs[0]);
      MarkAllDeadKeeps(MarkDeadFs(f, addrs[0]), addrs[1..]);
      KeepsTransitive(f.log, MarkDeadFs(f, addrs[0]).log, MarkAllDead(f, addrs).log);
    }
  }

  /** Retiring a block and appending another. */
  lemma ReplaceKeeps(f: Fs, was: nat, data: Block, i: BlockInfo)
    requires Valid(f.log) && CanAppend(f.log)
    ensures var (f', a) := AppendFs(MarkDeadFs(f, was), data, i);
            Keeps(f.log, f'.log) && Valid(f'.log) && f'.icache == f.icache && f'.inodeMap == f.inodeMap && a > 0
  {
    MarkDeadKeepsFs(f, was);
    AppendKeepsFs(MarkDeadFs(f, was), data, i);
    KeepsTransitive(f.log, MarkDeadFs(f, was).log, AppendFs(MarkDeadFs(f, was), data, i).0.log);
  }

  lemma WriteBlockKeepsLog(f: Fs, ino: nat, idx: nat, data: Block)
    requires Valid(f.log) && Enabled(f, WriteBlockStep(ino, idx, data))
    ensures var f' := WriteBlock(f, ino, idx, data).0;
            Keeps(f.log, f'.log) && Valid(f'.log) && f'.inodeMap == f.inodeMap
  {
    var d := f.icache[ino].disk;
    ReplaceKeeps(f, if idx < DIRECT_BLOCKS then d.direct[idx] else 0, data, BlockInfo(ino, idx % UINT32, DataBlock));
    var (f1, a) := AppendData(f, ino, idx, data);
    if DIRECT_BLOCKS <= idx < MAPPED_BLOCKS {
      var words := if d.indirect == 0 then Zeros(WORDS_PER_BLOCK) else Words(DiskAt(f1.log.disk, d.indirect));
      ReplaceKeeps(f1, d.indirect, Payload(words[idx - DIRECT_BLOCKS := a]), BlockInfo(ino, 0, IndirectBlock));
      KeepsTransitive(f.log, f1.log, WriteBlock(f, ino, idx, data).0.log);
    }
  }

  lemma CheckpointKeepsLog(f: Fs)
    requires Valid(f.log) && CanFlush(f.log)
    ensures Keeps(f.log, CheckpointFs(f).0.log) && Valid(CheckpointFs(f).0.log)
  {
    FlushKeepsFs(f);
    var f1 := if |f.log.buf| > 1 then FlushFs(f).0 else f;
    SyncKeeps(f1.log);
    KeepsTransitive(f.log, f1.log, CheckpointFs(f).0.log);
  }

  /** Every step but freeing a segment keeps all blocks in use, where they are. */
  lemma StepKeepsLog(f: Fs, s: Step)
    requires Valid(f.log) && Enabled(f, s) && !s.FreeEmptyStep?
    ensures Keeps(f.log, Apply(f, s).log) && Valid(Apply(f, s).log)
  {
    match s
    case WriteBlockStep(ino, idx, data) => WriteBlockKeepsLog(f, ino, idx, data);
    case WriteInodeStep(ino) =>
      ReplaceKeeps(f, f.icache[ino].location, InodeImage(f.icache[ino].disk), BlockInfo(ino, 0, InodeBlock));
    case FreeInodeStep(ino) =>
      var n := f.icache[ino];
      MarkAllDeadKeeps(f, n.disk.direct + [n.disk.indirect, n.disk.doubleIndirect, n.location]);
    case FlushStep => FlushKeepsFs(f);
    case CheckpointStep => CheckpointKeepsLog(f);
    case SyncStep => SyncKeeps(f.log);
    case _ =>
  }
}
