/**
 * Files over the log (src/inode.c, and the flush that nests a checkpoint in
 * src/segment.c and src/checkpoint.c): the inode map, the cached inodes and the
 * operations that append blocks and move pointers.
 */
module FileSystem {
  import opened Layout
  import opened Log

  /** A cached inode; `location` is where its latest image was written, 0 if nowhere. */
  datatype Inode = Inode(disk: DiskInode, location: nat, dirty: bool)

  /** What a completed checkpoint saved, with the disk as it was when the marker was written. */
  datatype Saved = Saved(inodeMap: map<nat, nat>, disk: Disk, unsynced: set<nat>)

  datatype Fs = Fs(
    log: State, inodeMap: map<nat, nat>, icache: map<nat, Inode>,
    now: nat, lastCheckpoint: nat, writes: nat, checkpoints: seq<Saved>)

  const CHECKPOINT_INTERVAL := 100
  const CHECKPOINT_SECONDS := 30

  /** Inode map entries that fit the 255 blocks behind a checkpoint header. */
  const MAX_SAVED := (CHECKPOINT_BLOCKS - 1) * 256

  /** Unsigned subtraction: a clock that went backwards also asks for a checkpoint. */
  predicate CheckpointNeeded(f: Fs)
  {
    || f.writes >= CHECKPOINT_INTERVAL
    || f.now < f.lastCheckpoint
    || f.now - f.lastCheckpoint >= CHECKPOINT_SECONDS
  }

  predicate Sound(f: Fs)
  {
    f.log.seg < |f.log.table|
  }

  /** lsfs_segment_flush, nesting a checkpoint when one is due. */
  function FlushFs(f: Fs): (r: (Fs, bool))
    requires Sound(f)
    ensures Sound(r.0)
    decreases |f.log.buf|, 0
  {
    if |f.log.buf| <= 1 then (f, true)
    else if f.log.readonly then (f, false)
    else
      var f1 := f.(log := Flush(f.log, f.now).0);
      if CheckpointNeeded(f1) then (CheckpointFs(f1).0, true) else (f1, true)
  }

  /** lsfs_checkpoint_write: flush, save the inode map, sync, then write the complete marker. */
  function CheckpointFs(f: Fs): (r: (Fs, bool))
    requires Sound(f)
    ensures Sound(r.0)
    decreases |f.log.buf|, 1
  {
    var (f1, ok) := if |f.log.buf| > 1 then FlushFs(f) else (f, true);
    if !ok || f1.log.readonly || |f1.inodeMap| > MAX_SAVED then (f1, false)
    else
      var l := Sync(f1.log);
      (f1.(log := l, checkpoints := f1.checkpoints + [Saved(f1.inodeMap, l.disk, l.unsynced)],
           lastCheckpoint := f1.now, writes := 0), true)
  }

  function PutFs(f: Fs, data: Block, i: BlockInfo): (Fs, nat)
  {
    var (l, a) := Put(f.log, data, i);
    (f.(log := l, writes := f.writes + 1), a)
  }

  /** lsfs_segment_append_block over the whole state. */
  function AppendFs(f: Fs, data: Block, i: BlockInfo): (r: (Fs, nat))
    requires Sound(f)
    ensures Sound(r.0)
  {
    if |f.log.buf| < SEGMENT_BLOCKS then PutFs(f, data, i)
    else
      var (f1, ok) := FlushFs(f);
      if ok then PutFs(f1, data, i) else (f1, 0)
  }

  function MarkDeadFs(f: Fs, a: nat): (r: Fs)
    ensures Sound(f) ==> Sound(r)
  {
    if a == 0 then f else f.(log := MarkDead(f.log, a))
  }

  // ------------------------------------------------------------- block maps

  predicate WellFormed(d: DiskInode)
  {
    |d.direct| == DIRECT_BLOCKS
  }

  /** A block read as 512 pointers. */
  function Words(b: Block): (w: seq<nat>)
    ensures |w| == WORDS_PER_BLOCK
  {
    if b.Payload? && |b.words| == WORDS_PER_BLOCK then b.words else Zeros(WORDS_PER_BLOCK)
  }

  /** What the disk holds, or what the log holds when the buffer is looked at too. */
  function BlockAt(l: State, a: nat, buffered: bool): Block
  {
    if buffered then Overlay(l, a) else DiskAt(l.disk, a)
  }

  /** The address behind a block index; 0 is a hole. */
  function PointerTo(l: State, d: DiskInode, idx: nat, buffered: bool): nat
    requires WellFormed(d)
  {
    if idx < DIRECT_BLOCKS then d.direct[idx]
    else if idx < MAPPED_BLOCKS then
      if d.indirect == 0 then 0 else Words(BlockAt(l, d.indirect, buffered))[idx - DIRECT_BLOCKS]
    else
      var i := idx - MAPPED_BLOCKS;
      var outer := i / WORDS_PER_BLOCK;
      if d.doubleIndirect == 0 || outer >= WORDS_PER_BLOCK then 0
      else
        var p := Words(BlockAt(l, d.doubleIndirect, buffered))[outer];
        if p == 0 then 0 else Words(BlockAt(l, p, buffered))[i % WORDS_PER_BLOCK]
  }

  datatype ReadResult = Contents(block: Block) | InvalidIndex

  /** lsfs_inode_read_block, which reads the disk: `buffered` is false in the code. */
  function ReadBlock(l: State, d: DiskInode, idx: nat, buffered: bool): ReadResult
    requires WellFormed(d)
  {
    if idx >= READ_BLOCKS then InvalidIndex
    else
      var a := PointerTo(l, d, idx, buffered);
      Contents(if a == 0 then ZERO_BLOCK else BlockAt(l, a, buffered))
  }

  /** The inode once block `idx` has been rewritten. */
  function Touch(n: Inode, idx: nat): Inode
  {
    n.(disk := n.disk.(blocks := if n.disk.blocks > idx then n.disk.blocks else idx + 1), dirty := true)
  }

  /** The first part of a block write: retire a direct block and append the new one. */
  function AppendData(f: Fs, ino: nat, idx: nat, data: Block): (r: (Fs, nat))
    requires Sound(f) && ino in f.icache && WellFormed(f.icache[ino].disk)
    ensures Sound(r.0)
  {
    var was := if idx < DIRECT_BLOCKS then f.icache[ino].disk.direct[idx] else 0;
    AppendFs(MarkDeadFs(f, was), data, BlockInfo(ino, idx % UINT32, DataBlock))
  }

  /** The second part for an indirect index: rewrite the pointer block, read back from disk. */
  function AppendPointers(f: Fs, ino: nat, d: DiskInode, idx: nat, a: nat): (r: (Fs, nat))
    requires Sound(f) && DIRECT_BLOCKS <= idx < MAPPED_BLOCKS
    ensures Sound(r.0)
  {
    var words := if d.indirect == 0 then Zeros(WORDS_PER_BLOCK) else Words(DiskAt(f.log.disk, d.indirect));
    AppendFs(MarkDeadFs(f, d.indirect), Payload(words[idx - DIRECT_BLOCKS := a]), BlockInfo(ino, 0, IndirectBlock))
  }

  /** lsfs_inode_write_block. */
  function WriteBlock(f: Fs, ino: nat, idx: nat, data: Block): (r: (Fs, bool))
    requires Sound(f) && ino in f.icache && WellFormed(f.icache[ino].disk)
    ensures Sound(r.0)
  {
    var n := f.icache[ino];
    var (f1, a) := AppendData(f, ino, idx, data);
    if a == 0 || idx >= MAPPED_BLOCKS then (f1, false)
    else if idx < DIRECT_BLOCKS then
      var d := n.disk.(direct := n.disk.direct[idx := a]);
      (f1.(icache := f1.icache[ino := Touch(n.(disk := d), idx)]), true)
    else
      var (f2, p) := AppendPointers(f1, ino, n.disk, idx, a);
      if p == 0 then (f2, false)
      else
        var d := n.disk.(indirect := p);
        (f2.(icache := f2.icache[ino := Touch(n.(disk := d), idx)]), true)
  }

  /** lsfs_inode_write: append the inode image and move the inode map entry. */
  function WriteInode(f: Fs, ino: nat): (r: (Fs, bool))
    requires Sound(f) && ino in f.icache
    ensures Sound(r.0)
  {
    var n := f.icache[ino];
    if !n.dirty then (f, true)
    else
      var (f1, a) := AppendFs(MarkDeadFs(f, n.location), InodeImage(n.disk), BlockInfo(ino, 0, InodeBlock));
      if a == 0 then (f1, false)
      else
        (f1.(inodeMap := f1.inodeMap[ino := a],
             icache := f1.icache[ino := n.(location := a, dirty := false)]), true)
  }

  /** Marks the nonzero addresses of `addrs` dead, in order. */
  function MarkAllDead(f: Fs, addrs: seq<nat>): (r: Fs)
    ensures Sound(f) ==> Sound(r)
    decreases |addrs|
  {
    if addrs == [] then f else MarkAllDead(MarkDeadFs(f, addrs[0]), addrs[1..])
  }

  /** lsfs_inode_free: the inode stays cached, without blocks and flagged deleted. */
  function FreeInode(f: Fs, ino: nat): (r: Fs)
    requires Sound(f) && ino in f.icache
    ensures Sound(r)
  {
    var n := f.icache[ino];
    var d := n.disk;
    var f1 := MarkAllDead(f, d.direct + [d.indirect, d.doubleIndirect, n.location]);
    var d' := DiskInode(d.ino, d.blocks, Zeros(DIRECT_BLOCKS), 0, 0, true);
    f1.(inodeMap := f1.inodeMap - {ino}, icache := f1.icache[ino := Inode(d', n.location, false)])
  }

  /** lsfs_inode_alloc, given the number that the inode map handed out. */
  function NewInode(f: Fs, ino: nat): (r: Fs)
    ensures Sound(f) ==> Sound(r)
  {
    f.(icache := f.icache[ino := Inode(DiskInode(ino, 0, Zeros(DIRECT_BLOCKS), 0, 0, false), 0, true)])
  }

  // ------------------------------------------------------------- frame facts

  /** A checkpoint with an empty buffer changes the log by a sync at most. */
  lemma CheckpointShape(f: Fs)
    requires Sound(f) && |f.log.buf| <= 1
    ensures var f' := CheckpointFs(f).0;
            && f'.inodeMap == f.inodeMap && f'.icache == f.icache && f'.now == f.now
            && (f'.log == f.log || f'.log == Sync(f.log))
  {
  }

  /** Flushing touches neither the inode map nor the cache, and acts on the log as Log.Flush, perhaps synced. */
  lemma FlushShape(f: Fs)
    requires Valid(f.log) && CanFlush(f.log)
    ensures var (f', ok) := FlushFs(f);
            && ok && f'.inodeMap == f.inodeMap && f'.icache == f.icache && f'.now == f.now
            && (f'.log == Flush(f.log, f.now).0 || f'.log == Sync(Flush(f.log, f.now).0))
  {
    if |f.log.buf| > 1 {
      CheckpointShape(f.(log := Flush(f.log, f.now).0));
    }
  }

  /** A flush fails if and only if there is something to write on a read-only mount. */
  lemma FlushLeaves(f: Fs)
    requires Sound(f)
    ensures var (f', ok) := FlushFs(f);
            && f'.inodeMap == f.inodeMap && f'.icache == f.icache && f'.log.readonly == f.log.readonly
            && ok == (|f.log.buf| <= 1 || !f.log.readonly) && (ok ==> |f'.log.buf| <= 1)
  {
    hide Flush;
    if |f.log.buf| > 1 && !f.log.readonly {
      RotationLeaves(f.log, f.now);
      SavingLeaves(f.(log := Flush(f.log, f.now).0));
    }
  }

  lemma RotationLeaves(l: State, now: nat)
    requires l.seg < |l.table| && |l.buf| > 1 && !l.readonly
    ensures !Flush(l, now).0.readonly && |Flush(l, now).0.buf| == 1
  {
  }

  lemma SavingLeaves(f: Fs)
    requires Sound(f) && |f.log.buf| <= 1
    ensures var f' := CheckpointFs(f).0;
            && f'.inodeMap == f.inodeMap && f'.icache == f.icache && f'.log.readonly == f.log.readonly
            && f'.log.buf == f.log.buf
  {
  }

  /** An append fails if and only if the buffer is full and cannot be written. */
  lemma AppendLeaves(f: Fs, data: Block, i: BlockInfo)
    requires Sound(f)
    ensures var (f', a) := AppendFs(f, data, i);
            && (a == 0 <==> |f.log.buf| >= SEGMENT_BLOCKS && f.log.readonly)
            && f'.inodeMap == f.inodeMap && f'.icache == f.icache && f'.log.readonly == f.log.readonly
            && (|f.log.buf| < SEGMENT_BLOCKS ==> |f'.log.buf| == |f.log.buf| + 1)
  {
    hide FlushFs;
    if |f.log.buf| >= SEGMENT_BLOCKS {
      FlushLeaves(f);
    }
  }

  /** A successful flush never leaves a hundred writes or thirty seconds without a checkpoint. */
  lemma FlushKeepsInterval(f: Fs)
    requires Sound(f) && |f.log.buf| > 1 && !f.log.readonly && |f.inodeMap| <= MAX_SAVED
    ensures var (f', ok) := FlushFs(f);
            ok && f'.writes < 100 && f'.lastCheckpoint <= f'.now < f'.lastCheckpoint + 30
  {
  }

  /** A flush saves a checkpoint exactly when a hundred writes or thirty seconds have passed, or the clock went back. */
  lemma FlushSavesWhenDue(f: Fs)
    requires Sound(f) && |f.log.buf| > 1 && !f.log.readonly && |f.inodeMap| <= MAX_SAVED
    ensures var due := f.writes >= 100 || f.now < f.lastCheckpoint || f.now - f.lastCheckpoint >= 30;
            |FlushFs(f).0.checkpoints| == |f.checkpoints| + if due then 1 else 0
  {
  }

  /** Writes are counted from the last checkpoint: an append is one more, unless it had to flush and save. */
  lemma AppendIsCounted(f: Fs, data: Block, i: BlockInfo)
    requires Sound(f) && AppendFs(f, data, i).1 != 0
    ensures var f' := AppendFs(f, data, i).0;
            && |f.checkpoints| <= |f'.checkpoints|
            && f'.writes == (if f'.checkpoints == f.checkpoints then f.writes else 0) + 1
  {
    if |f.log.buf| >= SEGMENT_BLOCKS {
      FlushIsCounted(f);
    }
  }

  lemma FlushIsCounted(f: Fs)
    requires Sound(f)
    ensures var f' := FlushFs(f).0;
            && |f.checkpoints| <= |f'.checkpoints|
            && f'.writes == (if f'.checkpoints == f.checkpoints then f.writes else 0)
            && f'.lastCheckpoint == (if f'.checkpoints == f.checkpoints then f.lastCheckpoint else f.now)
  {
  }

  lemma SyncKeeps(l: State)
    ensures Valid(l) ==> Valid(Sync(l))
    ensures Extends(l, Sync(l))
  {
  }

  lemma FlushFsFacts(f: Fs)
    requires Valid(f.log) && CanFlush(f.log)
    ensures var (f', ok) := FlushFs(f);
            && ok && f'.inodeMap == f.inodeMap && f'.icache == f.icache && f'.now == f.now
            && Valid(f'.log) && |f'.log.buf| == 1 && Extends(f.log, f'.log)
            && (forall a: nat :: Occupied(f.log, a) ==>
                  DiskAt(f'.log.disk, a) == Overlay(f.log, a) && SegOf(a) != f'.log.seg)
            && (forall a: nat :: Occupied(f.log, a) && !Buffered(f.log, a) && a !in f.log.unsynced ==> a !in f'.log.unsynced)
  {
    FlushShape(f);
    FlushFacts(f.log, f.now);
    SyncKeeps(Flush(f.log, f.now).0);
    ExtendsTransitive(f.log, Flush(f.log, f.now).0, FlushFs(f).0.log);
  }

  lemma AppendFsFacts(f: Fs, data: Block, i: BlockInfo)
    requires Valid(f.log) && CanAppend(f.log)
    ensures var (f', a) := AppendFs(f, data, i);
            && f'.inodeMap == f.inodeMap && f'.icache == f.icache && f'.now == f.now
            && Valid(f'.log) && Extends(f.log, f'.log)
            && Holds(f'.log, a, data, i) && !Occupied(f.log, a) && Buffered(f'.log, a)
            && a > 0
            && (forall x: nat :: Occupied(f.log, x) && !Buffered(f.log, x) && x !in f.log.unsynced ==> x !in f'.log.unsynced)
            && (forall x: nat :: Occupied(f.log, x) && SegOf(x) != f.log.seg ==>
                  SegOf(x) != f'.log.seg && DiskAt(f'.log.disk, x) == DiskAt(f.log.disk, x))
  {
    if |f.log.buf| == SEGMENT_BLOCKS {
      FlushFsFacts(f);
      AppendFacts(f.log, data, i, f.now);
    }
    var f1 := if |f.log.buf| < SEGMENT_BLOCKS then f else FlushFs(f).0;
    PutFacts(f1.log, data, i);
  }

  lemma MarkDeadFacts(f: Fs, a: nat)
    requires Valid(f.log)
    ensures var f' := MarkDeadFs(f, a);
            && Valid(f'.log) && Extends(f.log, f'.log)
            && f' == f.(log := f'.log) && f'.log == f.log.(table := f'.log.table)
  {
    if a != 0 {
      MarkDeadKeeps(f.log, a);
    }
  }

  /** Appending leaves every other segment in use as it is, on disk and in the table. */
  lemma AppendTouches(f: Fs, data: Block, i: BlockInfo, k: nat)
    requires Valid(f.log) && CanAppend(f.log) && k < |f.log.table| && k != f.log.seg && !f.log.table[k].state.Free?
    ensures var f' := AppendFs(f, data, i).0;
            && |f'.log.table| == |f.log.table| && f'.log.table[k] == f.log.table[k] && k != f'.log.seg
            && (forall a: nat :: a >= LOG_START && SegOf(a) == k ==> DiskAt(f'.log.disk, a) == DiskAt(f.log.disk, a))
  {
    if |f.log.buf| == SEGMENT_BLOCKS {
      FlushShape(f);
      FlushTouches(f.log, f.now, k);
    }
  }
}
