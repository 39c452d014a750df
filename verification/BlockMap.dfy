/**
 * A file as a map from block index to block (src/inode.c): writing a block and
 * flushing the log updates that map at one index, through direct and single
 * indirect pointers.
 */
module BlockMap {
  import opened Layout
  import opened Log
  import opened FileSystem

  /** Every pointer of the inode is 0 or the address of a block in use. */
  ghost predicate PointersInUse(l: State, d: DiskInode)
  {
    && WellFormed(d)
    && (forall i :: 0 <= i < DIRECT_BLOCKS && d.direct[i] != 0 ==> Occupied(l, d.direct[i]))
    && (d.indirect != 0 ==>
          && Occupied(l, d.indirect)
          && forall i :: 0 <= i < WORDS_PER_BLOCK && Words(Overlay(l, d.indirect))[i] != 0
               ==> Occupied(l, Words(Overlay(l, d.indirect))[i]))
  }

  /** The block write reads the pointer block from disk, so it must have been flushed. */
  predicate IndirectOnDisk(l: State, d: DiskInode)
  {
    d.indirect == 0 || !Buffered(l, d.indirect)
  }

  /** Both appends of a block write find room, or a segment to continue in. */
  predicate WriteAllocates(f: Fs, ino: nat, idx: nat, data: Block)
    requires Sound(f) && ino in f.icache && WellFormed(f.icache[ino].disk)
  {
    && CanAppend(f.log)
    && (DIRECT_BLOCKS <= idx < MAPPED_BLOCKS ==> CanAppend(AppendData(f, ino, idx, data).0.log))
  }

  predicate CanWrite(f: Fs, ino: nat, idx: nat, data: Block)
  {
    && Valid(f.log) && ino in f.icache && WellFormed(f.icache[ino].disk)
    && idx < MAPPED_BLOCKS
    && WriteAllocates(f, ino, idx, data)
  }

  lemma AppendDataFacts(f: Fs, ino: nat, idx: nat, data: Block)
    requires CanWrite(f, ino, idx, data)
    ensures var (f1, a) := AppendData(f, ino, idx, data);
            && f1.inodeMap == f.inodeMap && f1.icache == f.icache && f1.now == f.now
            && Valid(f1.log) && Extends(f.log, f1.log)
            && Occupied(f1.log, a) && Overlay(f1.log, a) == data && a > 0
            && (forall x: nat :: Occupied(f.log, x) && SegOf(x) != f.log.seg ==> DiskAt(f1.log.disk, x) == DiskAt(f.log.disk, x))
            && (forall x: nat :: Occupied(f.log, x) && SegOf(x) != f.log.seg ==> SegOf(x) != f1.log.seg)
  {
    var was := if idx < DIRECT_BLOCKS then f.icache[ino].disk.direct[idx] else 0;
    MarkDeadFacts(f, was);
    AppendFsFacts(MarkDeadFs(f, was), data, BlockInfo(ino, idx % UINT32, DataBlock));
  }

  /** What a growing log keeps of one inode: its pointers and what they lead to. */
  lemma ExtendsKeepsReads(l: State, l': State, d: DiskInode)
    requires PointersInUse(l, d) && Extends(l, l')
    ensures PointersInUse(l', d)
    ensures forall j :: 0 <= j < MAPPED_BLOCKS ==> ReadBlock(l', d, j, true) == ReadBlock(l, d, j, true)
  {
  }

  /** The file of `d'` in `l'` is the file of `d` in `l` with `data` at `idx`. */
  ghost predicate Updated(l: State, d: DiskInode, l': State, d': DiskInode, idx: nat, data: Block)
    requires WellFormed(d)
  {
    && PointersInUse(l', d')
    && forall j :: 0 <= j < MAPPED_BLOCKS ==>
         ReadBlock(l', d', j, true) == if j == idx then Contents(data) else ReadBlock(l, d, j, true)
  }

  lemma DirectUpdate(l: State, l': State, d: DiskInode, idx: nat, a: nat, blocks: nat)
    requires PointersInUse(l, d) && Extends(l, l') && idx < DIRECT_BLOCKS
    requires a != 0 && Occupied(l', a)
    ensures Updated(l, d, l', d.(direct := d.direct[idx := a], blocks := blocks), idx, Overlay(l', a))
  {
    ExtendsKeepsReads(l, l', d);
  }

  lemma IndirectUpdate(l: State, l': State, d: DiskInode, idx: nat, a: nat, p: nat, blocks: nat)
    requires PointersInUse(l, d) && Extends(l, l') && DIRECT_BLOCKS <= idx < MAPPED_BLOCKS
    requires a != 0 && Occupied(l', a) && p != 0 && Occupied(l', p)
    requires var words := if d.indirect == 0 then Zeros(WORDS_PER_BLOCK) else Words(Overlay(l, d.indirect));
             Words(Overlay(l', p)) == words[idx - DIRECT_BLOCKS := a]
    ensures Updated(l, d, l', d.(indirect := p, blocks := blocks), idx, Overlay(l', a))
  {
    ExtendsKeepsReads(l, l', d);
  }

  /** The second append of an indirect write. */
  lemma AppendPointersFacts(f: Fs, ino: nat, d: DiskInode, idx: nat, a: nat)
    requires Valid(f.log) && CanAppend(f.log) && DIRECT_BLOCKS <= idx < MAPPED_BLOCKS
    ensures var (f', p) := AppendPointers(f, ino, d, idx, a);
            && f'.inodeMap == f.inodeMap && f'.icache == f.icache
            && Valid(f'.log) && Extends(f.log, f'.log) && p != 0 && Occupied(f'.log, p)
            && var words := if d.indirect == 0 then Zeros(WORDS_PER_BLOCK) else Words(DiskAt(f.log.disk, d.indirect));
               Words(Overlay(f'.log, p)) == words[idx - DIRECT_BLOCKS := a]
  {
    MarkDeadFacts(f, d.indirect);
    var words := if d.indirect == 0 then Zeros(WORDS_PER_BLOCK) else Words(DiskAt(f.log.disk, d.indirect));
    AppendFsFacts(MarkDeadFs(f, d.indirect), Payload(words[idx - DIRECT_BLOCKS := a]), BlockInfo(ino, 0, IndirectBlock));
  }

  /** Through the buffer, a block write is a map update. */
  lemma WriteUpdatesOverlay(f: Fs, ino: nat, idx: nat, data: Block)
    requires CanWrite(f, ino, idx, data)
    requires PointersInUse(f.log, f.icache[ino].disk) && IndirectOnDisk(f.log, f.icache[ino].disk)
    ensures var (f', ok) := WriteBlock(f, ino, idx, data);
            && ok && Valid(f'.log) && Extends(f.log, f'.log)
            && f'.inodeMap == f.inodeMap && f'.icache.Keys == f.icache.Keys
            && (forall n :: n in f.icache && n != ino ==> f'.icache[n] == f.icache[n])
            && Updated(f.log, f.icache[ino].disk, f'.log, f'.icache[ino].disk, idx, data)
  {
    AppendDataFacts(f, ino, idx, data);
    var d := f.icache[ino].disk;
    var (f1, a) := AppendData(f, ino, idx, data);
    var blocks := if d.blocks > idx then d.blocks else idx + 1;
    if idx < DIRECT_BLOCKS {
      DirectUpdate(f.log, f1.log, d, idx, a, blocks);
    } else {
      AppendPointersFacts(f1, ino, d, idx, a);
      var (f2, p) := AppendPointers(f1, ino, d, idx, a);
      ExtendsTransitive(f.log, f1.log, f2.log);
      IndirectUpdate(f.log, f2.log, d, idx, a, p, blocks);
    }
  }

  /** After a flush the disk alone gives what the buffer and the disk gave before. */
  lemma FlushMakesReadable(f: Fs, d: DiskInode)
    requires Valid(f.log) && CanFlush(f.log) && PointersInUse(f.log, d)
    ensures var l' := FlushFs(f).0.log;
            && PointersInUse(l', d) && IndirectOnDisk(l', d)
            && forall j :: 0 <= j < MAPPED_BLOCKS ==> ReadBlock(l', d, j, false) == ReadBlock(f.log, d, j, true)
  {
    FlushFsFacts(f);
    ExtendsKeepsReads(f.log, FlushFs(f).0.log, d);
  }

  /** Write one block, then flush. */
  function WriteAndFlush(f: Fs, ino: nat, idx: nat, data: Block): Fs
    requires Sound(f) && ino in f.icache && WellFormed(f.icache[ino].disk)
  {
    FlushFs(WriteBlock(f, ino, idx, data).0).0
  }

  predicate CanWriteAndFlush(f: Fs, ino: nat, idx: nat, data: Block)
  {
    CanWrite(f, ino, idx, data) && CanFlush(WriteBlock(f, ino, idx, data).0.log)
  }

  /**
   * Write, flush, read is map update: afterwards the disk returns the new block at
   * `idx` and at every other index what was there, although the segment may have
   * filled up between the data block and the pointer block.
   */
  lemma WriteFlushRead(f: Fs, ino: nat, idx: nat, data: Block)
    requires CanWriteAndFlush(f, ino, idx, data)
    requires PointersInUse(f.log, f.icache[ino].disk) && IndirectOnDisk(f.log, f.icache[ino].disk)
    ensures var f' := WriteAndFlush(f, ino, idx, data);
            && ino in f'.icache
            && PointersInUse(f'.log, f'.icache[ino].disk) && IndirectOnDisk(f'.log, f'.icache[ino].disk)
            && forall j :: 0 <= j < MAPPED_BLOCKS ==>
                 ReadBlock(f'.log, f'.icache[ino].disk, j, false) ==
                   if j == idx then Contents(data) else ReadBlock(f.log, f.icache[ino].disk, j, true)
  {
    WriteUpdatesOverlay(f, ino, idx, data);
    var f1 := WriteBlock(f, ino, idx, data).0;
    FlushMakesReadable(f1, f1.icache[ino].disk);
    FlushFsFacts(f1);
  }

  datatype Write = Write(idx: nat, data: Block)

  function WriteAll(f: Fs, ino: nat, ws: seq<Write>): Fs
    requires AllCanWrite(f, ino, ws)
    decreases |ws|
  {
    if ws == [] then f else WriteAll(WriteAndFlush(f, ino, ws[0].idx, ws[0].data), ino, ws[1..])
  }

  predicate AllCanWrite(f: Fs, ino: nat, ws: seq<Write>)
    decreases |ws|
  {
    ws == [] || (
      && CanWriteAndFlush(f, ino, ws[0].idx, ws[0].data)
      && AllCanWrite(WriteAndFlush(f, ino, ws[0].idx, ws[0].data), ino, ws[1..]))
  }

  /** The block at `j` after the writes: the last one written there, or the one before them all. */
  function LastWritten(before: ReadResult, ws: seq<Write>, j: nat): ReadResult
    decreases |ws|
  {
    if ws == [] then before
    else LastWritten(if ws[0].idx == j then Contents(ws[0].data) else before, ws[1..], j)
  }

  /** Over a whole run of flushed writes the disk returns, at every index, the last block written there. */
  lemma {:induction false} RunOfWrites(f: Fs, ino: nat, ws: seq<Write>, j: nat)
    requires AllCanWrite(f, ino, ws) && j < MAPPED_BLOCKS
    requires ino in f.icache && Valid(f.log) && |f.log.buf| == 1
    requires PointersInUse(f.log, f.icache[ino].disk)
    ensures var f' := WriteAll(f, ino, ws);
            && ino in f'.icache && WellFormed(f'.icache[ino].disk)
            && ReadBlock(f'.log, f'.icache[ino].disk, j, false) ==
                 LastWritten(ReadBlock(f.log, f.icache[ino].disk, j, false), ws, j)
    decreases |ws|
  {
    assert ReadBlock(f.log, f.icache[ino].disk, j, false) == ReadBlock(f.log, f.icache[ino].disk, j, true);
    if ws != [] {
      var f1 := WriteAndFlush(f, ino, ws[0].idx, ws[0].data);
      WriteFlushRead(f, ino, ws[0].idx, ws[0].data);
      WriteUpdatesOverlay(f, ino, ws[0].idx, ws[0].data);
      FlushFsFacts(WriteBlock(f, ino, ws[0].idx, ws[0].data).0);
      RunOfWrites(f1, ino, ws[1..], j);
    }
  }

  /** The pointers that an indirect write finds on disk, once its data block is appended. */
  lemma PointersFound(f: Fs, ino: nat, idx: nat, data: Block)
    requires CanWrite(f, ino, idx, data) && DIRECT_BLOCKS <= idx
    requires f.icache[ino].disk.indirect != 0 && Occupied(f.log, f.icache[ino].disk.indirect)
    ensures var p := f.icache[ino].disk.indirect;
            DiskAt(AppendData(f, ino, idx, data).0.log.disk, p) ==
              if Buffered(f.log, p) && |f.log.buf| < SEGMENT_BLOCKS then DiskAt(f.log.disk, p) else Overlay(f.log, p)
  {
    AppendDataFacts(f, ino, idx, data);
    MarkDeadFacts(f, 0);
    if |f.log.buf| == SEGMENT_BLOCKS {
      FlushFsFacts(f);
    }
  }

  /**
   * A block write reads the pointer block from disk. Another index of it survives the write
   * if and only if the pointer block was not in the buffer, or the buffer was full, so that
   * the first append flushed it, or the disk happens to hold the same pointer at its place.
   */
  lemma UnflushedPointersAreLost(f: Fs, ino: nat, idx: nat, data: Block, j: nat)
    requires CanWrite(f, ino, idx, data) && DIRECT_BLOCKS <= idx
    requires f.icache[ino].disk.indirect != 0 && Occupied(f.log, f.icache[ino].disk.indirect)
    requires DIRECT_BLOCKS <= j < MAPPED_BLOCKS && j != idx
    ensures var p := f.icache[ino].disk.indirect;
            var f' := WriteBlock(f, ino, idx, data).0;
            && WellFormed(f'.icache[ino].disk)
            && (PointerTo(f'.log, f'.icache[ino].disk, j, true) == PointerTo(f.log, f.icache[ino].disk, j, true) <==>
                  || !Buffered(f.log, p) || |f.log.buf| == SEGMENT_BLOCKS
                  || Words(DiskAt(f.log.disk, p))[j - DIRECT_BLOCKS] == Words(Overlay(f.log, p))[j - DIRECT_BLOCKS])
  {
    AppendDataFacts(f, ino, idx, data);
    PointersFound(f, ino, idx, data);
    hide AppendData, AppendPointers;
    var d := f.icache[ino].disk;
    var (f1, a) := AppendData(f, ino, idx, data);
    AppendPointersFacts(f1, ino, d, idx, a);
  }

  /** Reads see what is on disk: they give the file's block whenever its pointers and itself are flushed. */
  lemma ReadWhenFlushed(l: State, d: DiskInode, j: nat)
    requires WellFormed(d) && j < MAPPED_BLOCKS && IndirectOnDisk(l, d) && !Buffered(l, PointerTo(l, d, j, true))
    ensures ReadBlock(l, d, j, false) == ReadBlock(l, d, j, true)
  {
  }

  // ----------------------------------------------------- results and records

  lemma RetireLeaves(f: Fs, was: nat)
    ensures var f' := MarkDeadFs(f, was);
            && f'.inodeMap == f.inodeMap && f'.icache == f.icache && f'.log.readonly == f.log.readonly && f'.log.buf == f.log.buf
  {
  }

  /**
   * A block write succeeds if and only if its index has a pointer and the blocks it appends
   * fit the buffer or the mount is writable. Then the inode is dirty and as long as the block
   * needs; one that fails leaves the inode as it was.
   */
  lemma WriteSucceeds(f: Fs, ino: nat, idx: nat, data: Block)
    requires Sound(f) && ino in f.icache && WellFormed(f.icache[ino].disk) && |f.log.buf| <= SEGMENT_BLOCKS
    ensures var (f', ok) := WriteBlock(f, ino, idx, data);
            && (ok <==> && idx < MAPPED_BLOCKS
                        && (!f.log.readonly || |f.log.buf| + (if idx < DIRECT_BLOCKS then 1 else 2) <= SEGMENT_BLOCKS))
            && f'.inodeMap == f.inodeMap && (!ok ==> f'.icache == f.icache)
            && (ok ==> && ino in f'.icache && f'.icache[ino].dirty
                       && f'.icache[ino].disk.blocks == if f.icache[ino].disk.blocks > idx then f.icache[ino].disk.blocks else idx + 1)
  {
    hide AppendFs, MarkDeadFs;
    var d := f.icache[ino].disk;
    var was := if idx < DIRECT_BLOCKS then d.direct[idx] else 0;
    RetireLeaves(f, was);
    AppendLeaves(MarkDeadFs(f, was), data, BlockInfo(ino, idx % UINT32, DataBlock));
    var (f1, a) := AppendData(f, ino, idx, data);
    if DIRECT_BLOCKS <= idx < MAPPED_BLOCKS && a != 0 {
      RetireLeaves(f1, d.indirect);
      var words := if d.indirect == 0 then Zeros(WORDS_PER_BLOCK) else Words(DiskAt(f1.log.disk, d.indirect));
      AppendLeaves(MarkDeadFs(f1, d.indirect), Payload(words[idx - DIRECT_BLOCKS := a]), BlockInfo(ino, 0, IndirectBlock));
    }
  }

  /** Writing an inode succeeds if and only if it is clean, or its image finds room; a clean one is not written. */
  lemma InodeWriteSucceeds(f: Fs, ino: nat)
    requires Sound(f) && ino in f.icache
    ensures var (f', ok) := WriteInode(f, ino);
            && (ok <==> !f.icache[ino].dirty || |f.log.buf| < SEGMENT_BLOCKS || !f.log.readonly)
            && (!f.icache[ino].dirty ==> f' == f) && (!ok ==> f'.inodeMap == f.inodeMap && f'.icache == f.icache)
  {
    hide AppendFs, MarkDeadFs;
    var n := f.icache[ino];
    RetireLeaves(f, n.location);
    AppendLeaves(MarkDeadFs(f, n.location), InodeImage(n.disk), BlockInfo(ino, 0, InodeBlock));
  }

  /** The log records a written block, and the pointer block written with it, as what they are. */
  lemma WriteIsRecorded(f: Fs, ino: nat, idx: nat, data: Block)
    requires CanWrite(f, ino, idx, data)
    ensures var f' := WriteBlock(f, ino, idx, data).0;
            && ino in f'.icache && WellFormed(f'.icache[ino].disk)
            && Recorded(f'.log, PointerTo(f'.log, f'.icache[ino].disk, idx, true), BlockInfo(ino, idx, DataBlock))
            && (DIRECT_BLOCKS <= idx ==> Recorded(f'.log, f'.icache[ino].disk.indirect, BlockInfo(ino, 0, IndirectBlock)))
  {
    hide AppendFs, MarkDeadFs, Recorded, Overlay;
    if idx < DIRECT_BLOCKS {
      ReplaceRecords(f, f.icache[ino].disk.direct[idx], data, BlockInfo(ino, idx, DataBlock));
    } else {
      IndirectIsRecorded(f, ino, idx, data);
    }
  }

  lemma IndirectIsRecorded(f: Fs, ino: nat, idx: nat, data: Block)
    requires CanWrite(f, ino, idx, data) && DIRECT_BLOCKS <= idx
    ensures var f' := WriteBlock(f, ino, idx, data).0;
            && ino in f'.icache && WellFormed(f'.icache[ino].disk)
            && Recorded(f'.log, PointerTo(f'.log, f'.icache[ino].disk, idx, true), BlockInfo(ino, idx, DataBlock))
            && Recorded(f'.log, f'.icache[ino].disk.indirect, BlockInfo(ino, 0, IndirectBlock))
  {
    hide AppendFs, MarkDeadFs, Recorded, Overlay, Occupied, CanAppend;
    var d := f.icache[ino].disk;
    ReplaceRecords(f, 0, data, BlockInfo(ino, idx % UINT32, DataBlock));
    var (f1, a) := AppendData(f, ino, idx, data);
    var words := if d.indirect == 0 then Zeros(WORDS_PER_BLOCK) else Words(DiskAt(f1.log.disk, d.indirect));
    ReplaceRecords(f1, d.indirect, Payload(words[idx - DIRECT_BLOCKS := a]), BlockInfo(ino, 0, IndirectBlock));
  }

  lemma ReplaceRecords(f: Fs, was: nat, data: Block, i: BlockInfo)
    requires Valid(f.log) && CanAppend(f.log)
    ensures var (f', a) := AppendFs(MarkDeadFs(f, was), data, i);
            && Valid(f'.log) && a > 0 && f'.icache == f.icache && Occupied(f'.log, a)
            && Recorded(f'.log, a, i) && Overlay(f'.log, a) == data
            && forall x: nat, j :: Occupied(f.log, x) && Recorded(f.log, x, j) ==> Recorded(f'.log, x, j)
  {
    MarkDeadFacts(f, was);
    AppendFsFacts(MarkDeadFs(f, was), data, i);
    ExtendsTransitive(f.log, MarkDeadFs(f, was).log, AppendFs(MarkDeadFs(f, was), data, i).0.log);
  }

  /** Blocks behind two levels of pointers: block `i` of the `o`-th pointer block that the inode's table lists. */
  lemma DoubleIndirectRead(l: State, d: DiskInode, o: nat, i: nat, buffered: bool)
    requires WellFormed(d) && o < WORDS_PER_BLOCK && i < WORDS_PER_BLOCK
    ensures var p := if d.doubleIndirect == 0 then 0 else Words(BlockAt(l, d.doubleIndirect, buffered))[o];
            var a := if p == 0 then 0 else Words(BlockAt(l, p, buffered))[i];
            ReadBlock(l, d, 524 + 512 * o + i, buffered) == Contents(if a == 0 then ZERO_BLOCK else BlockAt(l, a, buffered))
  {
    assert (512 * o + i) / 512 == o && (512 * o + i) % 512 == i;
  }

  /** The last block of a file is number 262667; there is nothing behind it. */
  lemma BeyondTheFile(l: State, d: DiskInode, idx: nat, buffered: bool)
    requires WellFormed(d)
    ensures ReadBlock(l, d, idx, buffered) == InvalidIndex <==> idx >= 262668
  {
  }

  /** A freed inode is unmapped and clean: writing it while it is still cached does nothing. */
  lemma FreedIsNotWritten(f: Fs, ino: nat)
    requires Sound(f) && ino in f.icache
    ensures var f' := FreeInode(f, ino);
            ino !in f'.inodeMap && ino in f'.icache && f'.icache[ino].disk.deleted && WriteInode(f', ino) == (f', true)
  {
    hide MarkAllDead;
  }
}
