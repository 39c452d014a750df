/**
 * Reads between a write and the next flush (lsfs_inode_read_block in src/inode.c, and the
 * read that a partial write makes first in src/fuse_ops.c): they go to the disk, which does
 * not have the buffered blocks yet.
 */
module StaleReads {
  import opened Layout
  import opened Log
  import opened FileSystem
  import opened BlockMap

  /** The address that the next append returns. */
  function NextAddress(l: State): nat
  {
    if |l.buf| < SEGMENT_BLOCKS then SegmentToBlock(l.seg, |l.buf|) else SegmentToBlock(FirstFree(l.table), 1)
  }

  /** The disk once the next append has found room. */
  function DiskWithRoom(l: State, now: nat): Disk
    requires l.seg < |l.table| && 1 <= |l.buf|
  {
    if |l.buf| < SEGMENT_BLOCKS then l.disk else WriteOut(l, now).disk
  }

  /** The table entries that are FREE decide which is the first. */
  lemma FirstFreeSame(t: seq<Usage>, t': seq<Usage>)
    requires |t| == |t'| && forall k :: 0 <= k < |t| ==> (t[k].state.Free? <==> t'[k].state.Free?)
    ensures FirstFree(t) == FirstFree(t')
  {
  }

  /** Where an append goes, and what it does to the disk. */
  lemma AppendPlace(f: Fs, data: Block, i: BlockInfo)
    requires Valid(f.log) && CanAppend(f.log)
    ensures var (f', a) := AppendFs(f, data, i);
            && a == NextAddress(f.log) && f'.log.disk == DiskWithRoom(f.log, f.now) && Valid(f'.log)
            && f'.icache == f.icache && f'.now == f.now
            && |f'.log.buf| == (if |f.log.buf| < SEGMENT_BLOCKS then |f.log.buf| else 1) + 1
            && Overlay(f'.log, a) == data && a > 0
  {
    AppendFsFacts(f, data, i);
    if |f.log.buf| == SEGMENT_BLOCKS {
      FlushShape(f);
      FlushMovesOn(f.log, f.now);
      FirstFreeSame(f.log.table, WriteOut(f.log, f.now).table);
    }
  }

  /** The same after a block was marked dead. */
  lemma ReplacePlace(f: Fs, was: nat, data: Block, i: BlockInfo)
    requires Valid(f.log) && CanAppend(f.log)
    ensures var (f', a) := AppendFs(MarkDeadFs(f, was), data, i);
            && a == NextAddress(f.log) && f'.log.disk == DiskWithRoom(f.log, f.now) && Valid(f'.log)
            && f'.icache == f.icache && f'.now == f.now
            && |f'.log.buf| == (if |f.log.buf| < SEGMENT_BLOCKS then |f.log.buf| else 1) + 1
            && Overlay(f'.log, a) == data && a > 0
  {
    MarkDeadFacts(f, was);
    MarkDeadStates(f.log, was);
    var g := MarkDeadFs(f, was);
    FirstFreeSame(f.log.table, g.log.table);
    AppendPlace(g, data, i);
    assert SummaryOf(g.log, f.now) == SummaryOf(f.log, f.now);
  }

  lemma MarkDeadStates(l: State, a: nat)
    ensures |MarkDead(l, a).table| == |l.table|
    ensures forall k :: 0 <= k < |l.table| ==> MarkDead(l, a).table[k].state == l.table[k].state
  {
  }

  /** The segment that an append moves on to is not the one it writes out. */
  lemma NextUntouched(l: State, now: nat, off: nat)
    requires Valid(l) && |l.buf| == SEGMENT_BLOCKS && CanFlush(l) && off < SEGMENT_BLOCKS
    ensures var a := SegmentToBlock(FirstFree(l.table), off);
            DiskAt(DiskWithRoom(l, now), a) == DiskAt(l.disk, a)
  {
    FreeExists(l.table);
    var start := SegmentToBlock(l.seg, 0);
    assert FirstFree(l.table) != l.seg;
    assert !(start <= SegmentToBlock(FirstFree(l.table), off) < start + SEGMENT_BLOCKS);
  }

  /** The log after the data block of a write is appended. */
  function WithData(f: Fs, ino: nat, idx: nat, data: Block): State
    requires Sound(f) && ino in f.icache && WellFormed(f.icache[ino].disk)
  {
    AppendData(f, ino, idx, data).0.log
  }

  /** Where the pointer block of an indirect write goes. */
  function PointerPlace(l: State): nat
  {
    if |l.buf| + 1 < SEGMENT_BLOCKS then SegmentToBlock(l.seg, |l.buf| + 1)
    else if |l.buf| + 1 == SEGMENT_BLOCKS then SegmentToBlock(FirstFree(l.table), 1)
    else SegmentToBlock(FirstFree(l.table), 2)
  }

  /** The disk when the pointer block of an indirect write is appended: a buffer that fills up is written out. */
  function DiskBehind(l: State, ino: nat, idx: nat, data: Block, now: nat): Disk
    requires l.seg < |l.table| && 1 <= |l.buf|
  {
    if |l.buf| + 1 < SEGMENT_BLOCKS then l.disk
    else if |l.buf| + 1 == SEGMENT_BLOCKS then WriteOut(Put(l, data, BlockInfo(ino, idx % UINT32, DataBlock)).0, now).disk
    else WriteOut(l, now).disk
  }

  /** What a read of block `idx` returns once it is written and not flushed, as the state before the write has it. */
  function FoundBefore(l: State, ino: nat, idx: nat, data: Block, now: nat): Block
    requires l.seg < |l.table| && 1 <= |l.buf| && idx < MAPPED_BLOCKS
  {
    if idx < DIRECT_BLOCKS then DiskAt(l.disk, NextAddress(l))
    else
      var w := Words(DiskAt(l.disk, PointerPlace(l)))[idx - DIRECT_BLOCKS];
      if w == 0 then ZERO_BLOCK else DiskAt(DiskBehind(l, ino, idx, data, now), w)
  }

  lemma DirectBefore(f: Fs, ino: nat, idx: nat, data: Block)
    requires CanWrite(f, ino, idx, data) && idx < DIRECT_BLOCKS
    ensures var f' := WriteBlock(f, ino, idx, data).0;
            && ino in f'.icache && WellFormed(f'.icache[ino].disk)
            && ReadBlock(f'.log, f'.icache[ino].disk, idx, false) == Contents(DiskAt(f.log.disk, NextAddress(f.log)))
  {
    ReplacePlace(f, f.icache[ino].disk.direct[idx], data, BlockInfo(ino, idx % UINT32, DataBlock));
    if |f.log.buf| == SEGMENT_BLOCKS {
      NextUntouched(f.log, f.now, 1);
    }
  }

  /** The place and the disk of the pointer block. */
  lemma PointersPlace(f: Fs, ino: nat, idx: nat, data: Block)
    requires CanWrite(f, ino, idx, data) && DIRECT_BLOCKS <= idx
    ensures var l1 := WithData(f, ino, idx, data);
            && Valid(l1) && CanAppend(l1) && NextAddress(l1) == PointerPlace(f.log)
            && DiskWithRoom(l1, f.now) == DiskBehind(f.log, ino, idx, data, f.now)
            && DiskAt(DiskBehind(f.log, ino, idx, data, f.now), PointerPlace(f.log)) == DiskAt(f.log.disk, PointerPlace(f.log))
  {
    var i := BlockInfo(ino, idx % UINT32, DataBlock);
    ReplacePlace(f, 0, data, i);
    if |f.log.buf| == SEGMENT_BLOCKS {
      FlushShape(f);
      FlushMovesOn(f.log, f.now);
      FirstFreeSame(f.log.table, WriteOut(f.log, f.now).table);
      NextUntouched(f.log, f.now, 2);
    } else if |f.log.buf| + 1 == SEGMENT_BLOCKS {
      NextUntouched(Put(f.log, data, i).0, f.now, 1);
    }
  }

  lemma IndirectBefore(f: Fs, ino: nat, idx: nat, data: Block)
    requires CanWrite(f, ino, idx, data) && DIRECT_BLOCKS <= idx
    ensures var f' := WriteBlock(f, ino, idx, data).0;
            && ino in f'.icache && WellFormed(f'.icache[ino].disk)
            && ReadBlock(f'.log, f'.icache[ino].disk, idx, false) == Contents(FoundBefore(f.log, ino, idx, data, f.now))
  {
    hide AppendFs, MarkDeadFs, DiskWithRoom, DiskBehind, PointerPlace, NextAddress;
    var d := f.icache[ino].disk;
    AppendDataFacts(f, ino, idx, data);
    PointersPlace(f, ino, idx, data);
    var (f1, a) := AppendData(f, ino, idx, data);
    var words := if d.indirect == 0 then Zeros(WORDS_PER_BLOCK) else Words(DiskAt(f1.log.disk, d.indirect));
    ReplacePlace(f1, d.indirect, Payload(words[idx - DIRECT_BLOCKS := a]), BlockInfo(ino, 0, IndirectBlock));
  }

  /**
   * Between a write and the next flush a read returns what the disk had before at the place
   * the write goes to, through the words that it had at the place of the pointer block. It
   * returns the block just written if and only if this is what the disk had.
   */
  lemma ReadBeforeFlush(f: Fs, ino: nat, idx: nat, data: Block)
    requires CanWrite(f, ino, idx, data)
    ensures var f' := WriteBlock(f, ino, idx, data).0;
            && ino in f'.icache && WellFormed(f'.icache[ino].disk)
            && var found := FoundBefore(f.log, ino, idx, data, f.now);
               && ReadBlock(f'.log, f'.icache[ino].disk, idx, false) == Contents(found)
               && (ReadBlock(f'.log, f'.icache[ino].disk, idx, false) == Contents(data) <==> found == data)
  {
    if idx < DIRECT_BLOCKS {
      DirectBefore(f, ino, idx, data);
    } else {
      IndirectBefore(f, ino, idx, data);
    }
  }

  /** The failing input: a place on disk that was never written, and a block that is not zero. */
  lemma UnwrittenIsLost(f: Fs, ino: nat, idx: nat, data: Block)
    requires CanWrite(f, ino, idx, data) && data != ZERO_BLOCK
    requires (if idx < DIRECT_BLOCKS then NextAddress(f.log) else PointerPlace(f.log)) !in f.log.disk
    ensures var f' := WriteBlock(f, ino, idx, data).0;
            && ino in f'.icache && WellFormed(f'.icache[ino].disk)
            && ReadBlock(f'.log, f'.icache[ino].disk, idx, false) == Contents(ZERO_BLOCK)
  {
    ReadBeforeFlush(f, ino, idx, data);
  }

  // --------------------------------------------------------- partial writes

  /** A block with the words from `o` on replaced. */
  function Patched(b: Block, o: nat, xs: seq<nat>): Block
    requires o + |xs| <= WORDS_PER_BLOCK
  {
    Payload(Words(b)[..o] + xs + Words(b)[o + |xs|..])
  }

  /** A buffered block is on disk once the buffer is written out. */
  lemma WrittenOut(l: State, now: nat, a: nat)
    requires Valid(l) && |l.buf| == SEGMENT_BLOCKS && Buffered(l, a)
    ensures DiskAt(DiskWithRoom(l, now), a) == Overlay(l, a)
  {
    Address(a);
    assert DiskAt(DiskWithRoom(l, now), a) == ([SummaryOf(l, now)] + l.buf[1..])[OffOf(a)];
  }

  /** What the disk gives for a direct block when its write and the inode write behind it are done. */
  lemma AfterInodeWrite(f: Fs, ino: nat, idx: nat, data: Block)
    requires CanWrite(f, ino, idx, data) && idx < DIRECT_BLOCKS && CanAppend(WriteBlock(f, ino, idx, data).0.log)
    ensures var f1 := WriteBlock(f, ino, idx, data).0;
            && ino in f1.icache
            && var f2 := WriteInode(f1, ino).0;
               && ino in f2.icache && WellFormed(f2.icache[ino].disk)
               && ReadBlock(f2.log, f2.icache[ino].disk, idx, false) ==
                    Contents(if |f.log.buf| + 1 == SEGMENT_BLOCKS then data else DiskAt(f.log.disk, NextAddress(f.log)))
  {
    hide AppendFs, MarkDeadFs;
    ReplacePlace(f, f.icache[ino].disk.direct[idx], data, BlockInfo(ino, idx % UINT32, DataBlock));
    var f1 := WriteBlock(f, ino, idx, data).0;
    var n := f1.icache[ino];
    ReplacePlace(f1, n.location, InodeImage(n.disk), BlockInfo(ino, 0, InodeBlock));
    if |f.log.buf| == SEGMENT_BLOCKS {
      NextUntouched(f.log, f.now, 1);
    } else if |f.log.buf| + 1 == SEGMENT_BLOCKS {
      AppendedLast(f, ino, idx, data);
      WrittenOut(f1.log, f.now, NextAddress(f.log));
    }
  }

  lemma AppendedLast(f: Fs, ino: nat, idx: nat, data: Block)
    requires CanWrite(f, ino, idx, data) && idx < DIRECT_BLOCKS
    ensures Buffered(WriteBlock(f, ino, idx, data).0.log, NextAddress(f.log))
  {
    var was := f.icache[ino].disk.direct[idx];
    ReplacePlace(f, was, data, BlockInfo(ino, idx % UINT32, DataBlock));
    MarkDeadFacts(f, was);
    AppendFsFacts(MarkDeadFs(f, was), data, BlockInfo(ino, idx % UINT32, DataBlock));
  }

  /**
   * Two partial writes into one direct block: the second reads the block first, from disk.
   * What the first wrote outside the range of the second survives if and only if the inode
   * write between them had to flush, or the disk had the same before at the block's new place.
   */
  lemma PartialWrites(f: Fs, ino: nat, idx: nat, first: Block, o: nat, xs: seq<nat>, i: nat)
    requires CanWrite(f, ino, idx, first) && idx < DIRECT_BLOCKS && CanAppend(WriteBlock(f, ino, idx, first).0.log)
    requires o + |xs| <= WORDS_PER_BLOCK && i < WORDS_PER_BLOCK && !(o <= i < o + |xs|)
    ensures var f1 := WriteBlock(f, ino, idx, first).0;
            && ino in f1.icache
            && var f2 := WriteInode(f1, ino).0;
               && ino in f2.icache && WellFormed(f2.icache[ino].disk)
               && var found := ReadBlock(f2.log, f2.icache[ino].disk, idx, false);
                  && found.Contents?
                  && (Words(Patched(found.block, o, xs))[i] == Words(first)[i] <==>
                        || |f.log.buf| + 1 == SEGMENT_BLOCKS
                        || Words(DiskAt(f.log.disk, NextAddress(f.log)))[i] == Words(first)[i])
  {
    hide WriteBlock, WriteInode, NextAddress;
    AfterInodeWrite(f, ino, idx, first);
  }
}
