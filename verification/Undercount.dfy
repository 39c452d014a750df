/**
 * Where the live counts fail (src/inode.c, src/gc.c): an inode that is written after it
 * was freed, or whose cached location the cleaner has left behind, marks a block dead
 * that is not its own. When that makes a count too low, exactly, and runs in which a
 * count reaches zero in a segment that is still in use.
 */
module Undercount {
  import opened Layout
  import opened Log
  import opened FileSystem
  import opened FsRuns
  import opened Accounting
  import Cleaner
  import StaleReads

  function Minus(x: nat, y: nat): nat
  {
    if x > y then x - y else 0
  }

  /** How many of the addresses lie in segment `k`. */
  function CountIn(addrs: seq<nat>, k: nat): nat
  {
    if addrs == [] then 0
    else (if addrs[0] != 0 && BlockToSegment(addrs[0]).0 == k then 1 else 0) + CountIn(addrs[1..], k)
  }

  /** The blocks that lsfs_inode_free marks dead. */
  function Marked(n: Inode): seq<nat>
  {
    n.disk.direct + [n.disk.indirect, n.disk.doubleIndirect, n.location]
  }

  lemma {:induction false} LiveAfterMarks(f: Fs, addrs: seq<nat>, k: nat)
    requires k < |f.log.table|
    ensures var l := MarkAllDead(f, addrs).log;
            && |l.table| == |f.log.table| && l.table[k].state == f.log.table[k].state
            && l.table[k].live == Minus(f.log.table[k].live, CountIn(addrs, k))
    decreases |addrs|
  {
    if addrs != [] {
      LiveAfterMarks(MarkDeadFs(f, addrs[0]), addrs[1..], k);
    }
  }

  /** The slots of other inodes in a segment. */
  function Others(m: Slots, ino: nat, k: nat): set<Slot>
  {
    set s | s in m && SegOf(m[s]) == k && s.ino != ino
  }

  /** An append leaves the counts of the segments it does not fill alone. */
  lemma AppendLeaves(f: Fs, data: Block, i: BlockInfo, k: nat)
    requires Valid(f.log) && CanAppend(f.log) && k < |f.log.table| && f.log.table[k].state.Full?
    ensures var (f', a) := AppendFs(f, data, i);
            && Valid(f'.log) && a > 0 && k < |f'.log.table| && f'.log.table[k] == f.log.table[k] && SegOf(a) != k
            && f'.icache == f.icache && f'.inodeMap == f.inodeMap
  {
    AppendFsFacts(f, data, i);
    AppendTouches(f, data, i, k);
  }

  /** A block write into an inode without blocks marks nothing dead. */
  lemma WriteIntoEmpty(f: Fs, ino: nat, idx: nat, data: Block, k: nat)
    requires Valid(f.log) && ino in f.icache && f.icache[ino].disk.direct == Zeros(DIRECT_BLOCKS)
    requires f.icache[ino].disk.indirect == 0 && idx < MAPPED_BLOCKS
    requires CanAppend(f.log) && (idx >= DIRECT_BLOCKS ==> CanAppend(AppendData(f, ino, idx, data).0.log))
    requires k < |f.log.table| && f.log.table[k].state.Full?
    ensures var f' := WriteBlock(f, ino, idx, data).0;
            && Valid(f'.log) && k < |f'.log.table| && f'.log.table[k] == f.log.table[k]
            && ino in f'.icache && f'.icache[ino].location == f.icache[ino].location && f'.icache[ino].dirty
            && f'.inodeMap == f.inodeMap
  {
    hide AppendFs;
    AppendLeaves(f, data, BlockInfo(ino, idx % UINT32, DataBlock), k);
    if idx >= DIRECT_BLOCKS {
      var (f1, a) := AppendData(f, ino, idx, data);
      AppendLeaves(f1, Payload(Zeros(WORDS_PER_BLOCK)[idx - DIRECT_BLOCKS := a]), BlockInfo(ino, 0, IndirectBlock), k);
    }
  }

  /** Writing an inode takes one off the count of the segment of its cached location. */
  lemma WriteMarks(f: Fs, ino: nat, k: nat)
    requires Valid(f.log) && CanAppend(f.log) && ino in f.icache && f.icache[ino].dirty
    requires k < |f.log.table| && f.log.table[k].state.Full?
    requires f.icache[ino].location >= LOG_START && SegOf(f.icache[ino].location) == k
    ensures var f' := WriteInode(f, ino).0;
            && k < |f'.log.table| && f'.log.table[k].state.Full? && f'.log.table[k].live == Minus(f.log.table[k].live, 1)
            && f'.inodeMap == f.inodeMap[ino := f'.inodeMap[ino]] && SegOf(f'.inodeMap[ino]) != k
  {
    hide AppendFs;
    var n := f.icache[ino];
    MarkDeadKeepsFs(f, n.location);
    MarkDeadKeeps(f.log, n.location);
    AppendLeaves(MarkDeadFs(f, n.location), InodeImage(n.disk), BlockInfo(ino, 0, InodeBlock), k);
  }

  /** The block that a write at this index replaces: the direct block, or the pointer block. */
  function Replaced(d: DiskInode, idx: nat): nat
    requires WellFormed(d)
  {
    if idx < DIRECT_BLOCKS then d.direct[idx] else d.indirect
  }

  /** Taking a block off and appending another changes the count of a FULL segment by that block alone. */
  lemma ReplaceCounts(f: Fs, was: nat, data: Block, i: BlockInfo, k: nat)
    requires Valid(f.log) && CanAppend(f.log) && k < |f.log.table| && f.log.table[k].state.Full?
    ensures var (f', a) := AppendFs(MarkDeadFs(f, was), data, i);
            && Valid(f'.log) && k < |f'.log.table| && f'.icache == f.icache && f'.inodeMap == f.inodeMap && a > 0
            && f'.log.table[k] == f.log.table[k].(live := Minus(f.log.table[k].live, CountIn([was], k)))
  {
    MarkDeadFacts(f, was);
    assert [was][1..] == [];
    AppendLeaves(MarkDeadFs(f, was), data, i, k);
  }

  /** A block write takes exactly the block that it replaces off the live counts. */
  lemma WriteCounts(f: Fs, ino: nat, idx: nat, data: Block, k: nat)
    requires Valid(f.log) && Enabled(f, WriteBlockStep(ino, idx, data)) && idx < MAPPED_BLOCKS
    requires k < |f.log.table| && f.log.table[k].state.Full?
    ensures var f' := WriteBlock(f, ino, idx, data).0;
            && k < |f'.log.table|
            && f'.log.table[k] ==
                 f.log.table[k].(live := Minus(f.log.table[k].live, CountIn([Replaced(f.icache[ino].disk, idx)], k)))
  {
    hide AppendFs, MarkDeadFs, CountIn;
    var d := f.icache[ino].disk;
    NothingCounted(k);
    ReplaceCounts(f, if idx < DIRECT_BLOCKS then d.direct[idx] else 0, data, BlockInfo(ino, idx % UINT32, DataBlock), k);
    if DIRECT_BLOCKS <= idx {
      var (f1, a) := AppendData(f, ino, idx, data);
      var words := if d.indirect == 0 then Zeros(WORDS_PER_BLOCK) else Words(DiskAt(f1.log.disk, d.indirect));
      ReplaceCounts(f1, d.indirect, Payload(words[idx - DIRECT_BLOCKS := a]), BlockInfo(ino, 0, IndirectBlock), k);
    }
  }

  lemma NothingCounted(k: nat)
    ensures CountIn([0], k) == 0
  {
    assert [0][1..] == [];
  }

  /** Writing a dirty inode takes exactly the block at its cached location off. */
  lemma InodeWriteCounts(f: Fs, ino: nat, k: nat)
    requires Valid(f.log) && CanAppend(f.log) && ino in f.icache && f.icache[ino].dirty
    requires k < |f.log.table| && f.log.table[k].state.Full?
    ensures var f' := WriteInode(f, ino).0;
            && k < |f'.log.table|
            && f'.log.table[k] == f.log.table[k].(live := Minus(f.log.table[k].live, CountIn([f.icache[ino].location], k)))
  {
    hide AppendFs, MarkDeadFs, CountIn;
    var n := f.icache[ino];
    ReplaceCounts(f, n.location, InodeImage(n.disk), BlockInfo(ino, 0, InodeBlock), k);
  }

  /** Freeing an inode takes exactly its direct blocks, its pointer blocks and its image off, and unmaps it. */
  lemma FreeCounts(f: Fs, ino: nat, k: nat)
    requires Sound(f) && ino in f.icache && k < |f.log.table|
    ensures var f' := FreeInode(f, ino);
            && k < |f'.log.table| && f'.log.table[k].state == f.log.table[k].state
            && f'.log.table[k].live == Minus(f.log.table[k].live, CountIn(Marked(f.icache[ino]), k))
            && f'.inodeMap == f.inodeMap - {ino}
  {
    LiveAfterMarks(f, Marked(f.icache[ino]), k);
    MarksKeepMap(f, Marked(f.icache[ino]));
  }

  lemma {:induction false} MarksKeepMap(f: Fs, addrs: seq<nat>)
    ensures MarkAllDead(f, addrs).inodeMap == f.inodeMap
    decreases |addrs|
  {
    if addrs != [] {
      MarksKeepMap(MarkDeadFs(f, addrs[0]), addrs[1..]);
    }
  }

  /** Free, then a block write, then the write of the inode, on an inode that is still cached. */
  function FreeWriteWrite(f: Fs, ino: nat, idx: nat, data: Block): (r: Fs)
    requires Sound(f) && Usable(f, ino)
  {
    var f2 := WriteBlock(FreeInode(f, ino), ino, idx, data).0;
    if ino in f2.icache then WriteInode(f2, ino).0 else f2
  }

  predicate Appends(f: Fs, ino: nat, idx: nat, data: Block)
    requires Sound(f) && Usable(f, ino)
  {
    var f1 := FreeInode(f, ino);
    && CanAppend(f1.log) && (idx >= DIRECT_BLOCKS ==> CanAppend(AppendData(f1, ino, idx, data).0.log))
    && CanAppend(WriteBlock(f1, ino, idx, data).0.log)
  }

  lemma FreeWriteWriteCount(f: Fs, ino: nat, idx: nat, data: Block)
    requires Valid(f.log) && Usable(f, ino) && idx < MAPPED_BLOCKS && Appends(f, ino, idx, data)
    requires f.icache[ino].location >= LOG_START
    requires var k := SegOf(f.icache[ino].location); k < |f.log.table| && f.log.table[k].state.Full?
    ensures var k := SegOf(f.icache[ino].location);
            var f' := FreeWriteWrite(f, ino, idx, data);
            && k < |f'.log.table| && f'.log.table[k].state.Full?
            && f'.log.table[k].live == Minus(f.log.table[k].live, CountIn(Marked(f.icache[ino]), k) + 1)
            && ino in f'.inodeMap && f'.inodeMap == f.inodeMap[ino := f'.inodeMap[ino]] && SegOf(f'.inodeMap[ino]) != k
  {
    hide WriteBlock, WriteInode, MarkAllDead;
    var n := f.icache[ino];
    var k := SegOf(n.location);
    var f1 := FreeInode(f, ino);
    LiveAfterMarks(f, Marked(n), k);
    MarkAllDeadKeeps(f, Marked(n));
    WriteIntoEmpty(f1, ino, idx, data, k);
    WriteMarks(WriteBlock(f1, ino, idx, data).0, ino, k);
  }

  /**
   * Writing an inode after it was freed, from any accounted state: the count of the
   * segment of its old image still covers the blocks of the other inodes if and only if
   * before the free there were none, or the count was above the inode's own blocks and
   * theirs together.
   */
  lemma WriteAfterFree(f: Fs, m: Slots, ino: nat, idx: nat, data: Block)
    requires Inv(f, m) && Usable(f, ino) && Fresh(f, ino) && ino in f.inodeMap
    requires idx < MAPPED_BLOCKS && Appends(f, ino, idx, data)
    requires f.log.table[SegOf(f.inodeMap[ino])].state.Full?
    ensures var k := SegOf(f.inodeMap[ino]);
            var f' := FreeWriteWrite(f, ino, idx, data);
            && k < |f'.log.table|
            && (f'.log.table[k].live >= |Others(m, ino, k)| <==>
                  Others(m, ino, k) == {} || f.log.table[k].live > CountIn(Marked(f.icache[ino]), k) + |Others(m, ino, k)|)
  {
    hide FreeWriteWrite, Appends, CountIn;
    assert m[ImageSlot(ino)] == f.icache[ino].location;
    FreeWriteWriteCount(f, ino, idx, data);
  }

  // ------------------------------------------------- a run that reaches zero

  /** A new inode, written as the next block of the buffer. */
  function WriteNew(f: Fs, ino: nat): (r: Fs)
    requires Sound(f)
    ensures Sound(r)
  {
    WriteInode(NewInode(f, ino), ino).0
  }

  lemma WriteNewFacts(f: Fs, ino: nat)
    requires Valid(f.log) && |f.log.buf| < SEGMENT_BLOCKS
    ensures var f' := WriteNew(f, ino);
            var a := SegmentToBlock(f.log.seg, |f.log.buf|);
            && Valid(f'.log) && |f'.log.buf| == |f.log.buf| + 1 && f'.log.table == f.log.table && f'.log.seg == f.log.seg
            && f'.log.readonly == f.log.readonly && f'.log.freeCount == f.log.freeCount && f'.now == f.now
            && f'.inodeMap == f.inodeMap[ino := a]
            && f'.icache == f.icache[ino := Inode(DiskInode(ino, 0, Zeros(DIRECT_BLOCKS), 0, 0, false), a, false)]
  {
    PutFacts(f.log, InodeImage(NewInode(f, ino).icache[ino].disk), BlockInfo(ino, 0, InodeBlock));
  }

  lemma FlushCounts(f: Fs)
    requires Valid(f.log) && |f.log.buf| > 1 && CanFlush(f.log)
    ensures var f' := FlushFs(f).0;
            && Valid(f'.log) && |f'.log.buf| == 1 && f'.inodeMap == f.inodeMap && f'.icache == f.icache
            && |f'.log.table| == |f.log.table| && f'.log.table[f.log.seg] == Usage(Full, |f.log.buf| - 1, f.now)
            && FirstFree(f.log.table) < |f.log.table| && f'.log.seg == FirstFree(f.log.table)
            && f'.log.readonly == f.log.readonly && f'.log.freeCount == f.log.freeCount - 1
  {
    FlushFsFacts(f);
    FlushShape(f);
    FreeExists(f.log.table);
    var t := f.log.table[f.log.seg := Usage(Full, |f.log.buf| - 1, f.now)];
    CountFreeUpdate(f.log.table, f.log.seg, Usage(Full, |f.log.buf| - 1, f.now));
    FreeExists(t);
    StaleReads.FirstFreeSame(f.log.table, t);
  }

  lemma {:induction false} CountLeadingZeros(z: seq<nat>, rest: seq<nat>, k: nat)
    requires forall i :: 0 <= i < |z| ==> z[i] == 0
    ensures CountIn(z + rest, k) == CountIn(rest, k)
    decreases |z|
  {
    if z == [] {
      assert z + rest == rest;
    } else {
      assert (z + rest)[1..] == z[1..] + rest;
      CountLeadingZeros(z[1..], rest, k);
    }
  }

  /** A written inode without blocks has its image alone. */
  lemma OnlyAnImage(n: Inode, k: nat)
    requires n.disk.direct == Zeros(DIRECT_BLOCKS) && n.disk.indirect == 0 && n.disk.doubleIndirect == 0
    requires n.location != 0 && BlockToSegment(n.location).0 == k
    ensures CountIn(Marked(n), k) == 1
  {
    CountLeadingZeros(n.disk.direct, [0, 0, n.location], k);
    CountLeadingZeros([0, 0], [n.location], k);
    assert [0, 0] + [n.location] == [0, 0, n.location] && [n.location][1..] == [];
  }

  /** Room for the three appends of free, write and write. */
  lemma RoomToAppend(f: Fs, ino: nat, data: Block)
    requires Valid(f.log) && Usable(f, ino) && |f.log.buf| == 1
    ensures Appends(f, ino, 0, data)
  {
    hide MarkAllDead;
    MarkAllDeadKeeps(f, Marked(f.icache[ino]));
    MarkAllDeadBuf(f, Marked(f.icache[ino]));
  }

  lemma {:induction false} MarkAllDeadBuf(f: Fs, addrs: seq<nat>)
    ensures MarkAllDead(f, addrs).log.buf == f.log.buf
    decreases |addrs|
  {
    if addrs != [] {
      MarkAllDeadBuf(MarkDeadFs(f, addrs[0]), addrs[1..]);
    }
  }

  /**
   * Two new inodes are written and flushed into one segment; one is freed and, still
   * cached, written again. The count of the segment is then zero although it holds the
   * other inode, so the cleaner frees it.
   */
  lemma CountReachesZero(f: Fs, x: nat, y: nat, data: Block)
    requires Valid(f.log) && |f.log.buf| == 1 && !f.log.readonly && f.log.freeCount > 0 && x != y
    ensures var k := f.log.seg;
            var g := FlushFs(WriteNew(WriteNew(f, x), y)).0;
            && Sound(g) && Usable(g, x)
            && var h := FreeWriteWrite(g, x, 0, data);
               && k < |h.log.table| && h.log.table[k] == h.log.table[k].(state := Full, live := 0)
               && y in h.inodeMap && SegOf(h.inodeMap[y]) == k
               && FreeEmpty(h.log, k).table[k].state.Free?
  {
    hide WriteNew, FlushFs, FreeWriteWrite, CountIn, Appends;
    var k := f.log.seg;
    WriteNewFacts(f, x);
    var f1 := WriteNew(f, x);
    WriteNewFacts(f1, y);
    var f2 := WriteNew(f1, y);
    FlushCounts(f2);
    var g := FlushFs(f2).0;
    RoomToAppend(g, x, data);
    assert g.icache[x].location == SegmentToBlock(k, 1);
    OnlyAnImage(g.icache[x], k);
    FreeWriteWriteCount(g, x, 0, data);
  }

  // --------------------------------------------------------- stale locations

  /**
   * Writing an inode whose cached location the cleaner has left behind, from any accounted
   * state: the count of the segment that now has this address covers its slots if and
   * only if it had none, or had slack, or lost the inode's real image at the same time.
   */
  lemma StaleWrite(f: Fs, m: Slots, ino: nat)
    requires Inv(f, m) && Usable(f, ino) && f.icache[ino].dirty && CanAppend(f.log) && ino in f.inodeMap
    requires var a := f.icache[ino].location;
             a >= LOG_START && a != f.inodeMap[ino] && SegOf(a) < |f.log.table| && f.log.table[SegOf(a)].state.Full?
    ensures var k := SegOf(f.icache[ino].location);
            var f' := WriteInode(f, ino).0;
            && k < |f'.log.table| && ino in f'.inodeMap
            && (f'.log.table[k].live >= |SlotsIn(m[ImageSlot(ino) := f'.inodeMap[ino]], k)| <==>
                  SlotsIn(m, k) == {} || f.log.table[k].live > |SlotsIn(m, k)| || SegOf(f.inodeMap[ino]) == k)
  {
    hide WriteInode;
    var k := SegOf(f.icache[ino].location);
    WriteMarks(f, ino, k);
    var s := ImageSlot(ino);
    var m' := m[s := WriteInode(f, ino).0.inodeMap[ino]];
    assert m[s] == f.inodeMap[ino];
    if SegOf(f.inodeMap[ino]) == k {
      assert s in SlotsIn(m, k) && SlotsIn(m', k) == SlotsIn(m, k) - {s};
    } else {
      assert SlotsIn(m', k) == SlotsIn(m, k);
    }
    assert f.log.table[k].live >= |SlotsIn(m, k)|;
  }

  /**
   * From a state such as the cleaner leaves: segment `k` is the first FREE one, and the
   * cached location of `x` is still in it. After a flush the log fills `k` again, with a new
   * inode `y`; writing `x` then brings the count of `k` to zero.
   */
  lemma RefilledCountReachesZero(f: Fs, x: nat, y: nat, k: nat, data: Block)
    requires Valid(f.log) && 1 < |f.log.buf| && !f.log.readonly && f.log.freeCount > 1 && x != y
    requires k < |f.log.table| && FirstFree(f.log.table) == k
    requires Usable(f, x) && f.icache[x].disk.direct == Zeros(DIRECT_BLOCKS) && f.icache[x].disk.indirect == 0
    requires f.icache[x].location >= LOG_START && SegOf(f.icache[x].location) == k
    ensures var g := FlushFs(WriteNew(FlushFs(f).0, y)).0;
            && Sound(g) && Usable(g, x)
            && var w := WriteBlock(g, x, 0, data).0;
               && x in w.icache
               && var h := WriteInode(w, x).0;
                  && k < |h.log.table| && h.log.table[k].state.Full? && h.log.table[k].live == 0
                  && y in h.inodeMap && SegOf(h.inodeMap[y]) == k
  {
    hide WriteNew, FlushFs, WriteBlock, WriteInode;
    FlushCounts(f);
    var f1 := FlushFs(f).0;
    WriteNewFacts(f1, y);
    var f2 := WriteNew(f1, y);
    FlushCounts(f2);
    var g := FlushFs(f2).0;
    assert g.icache[x] == f.icache[x];
    WriteIntoEmpty(g, x, 0, data, k);
    RoomAfterWrite(g, x, data);
    WriteMarks(WriteBlock(g, x, 0, data).0, x, k);
  }

  lemma RoomAfterWrite(f: Fs, ino: nat, data: Block)
    requires Valid(f.log) && Usable(f, ino) && |f.log.buf| == 1 && f.icache[ino].disk.direct == Zeros(DIRECT_BLOCKS)
    ensures CanAppend(WriteBlock(f, ino, 0, data).0.log)
  {
  }

  /** What flushing one new inode leaves for the cleaner. */
  lemma OneInodeFlushed(f: Fs, x: nat)
    requires Valid(f.log) && |f.log.buf| == 1 && !f.log.readonly && f.log.freeCount > 1
    ensures var k := f.log.seg;
            var g := FlushFs(WriteNew(f, x)).0;
            && Sound(g) && Valid(g.log) && |g.log.buf| == 1 && g.log.freeCount == f.log.freeCount - 1 && !g.log.readonly
            && |g.log.table| == |f.log.table| && g.log.table[k] == Usage(Full, 1, f.now) && g.log.seg == FirstFree(f.log.table) != k
            && (forall j :: 0 <= j < k ==> g.log.table[j].state == f.log.table[j].state || j == g.log.seg)
            && x in g.inodeMap && g.inodeMap[x] == SegmentToBlock(k, 1)
            && x in g.icache && g.icache[x] == Inode(DiskInode(x, 0, Zeros(DIRECT_BLOCKS), 0, 0, false), SegmentToBlock(k, 1), false)
            && DiskAt(g.log.disk, SegmentToBlock(k, 0)) == Summary(SEGMENT_MAGIC, k, f.now, 2, [BlockInfo(x, 0, InodeBlock)])
  {
    WriteNewFacts(f, x);
    WriteNewRecord(f, x);
    var f1 := WriteNew(f, x);
    hide WriteNew;
    FlushCounts(f1);
    FlushShape(f1);
    FlushMovesOn(f1.log, f1.now);
    assert f1.log.info[1..] == [BlockInfo(x, 0, InodeBlock)];
  }

  lemma WriteNewRecord(f: Fs, ino: nat)
    requires Valid(f.log) && |f.log.buf| == 1
    ensures WriteNew(f, ino).log.info == f.log.info + [BlockInfo(ino, 0, InodeBlock)]
  {
  }

  /** Cleaning that segment copies the image and leaves the cached location in the freed segment. */
  lemma OneInodeCleaned(g: Fs, x: nat, k: nat)
    requires Valid(g.log) && |g.log.buf| == 1 && x > 0 && k < |g.log.table| && k != g.log.seg
    requires g.log.table[k].state.Full? && g.log.table[k].live == 1
    requires x in g.inodeMap && g.inodeMap[x] == SegmentToBlock(k, 1)
    requires DiskAt(g.log.disk, SegmentToBlock(k, 0)).Summary?
    requires var s := DiskAt(g.log.disk, SegmentToBlock(k, 0));
             s.magic == SEGMENT_MAGIC && s.blockCount == 2 && s.infos == [BlockInfo(x, 0, InodeBlock)]
    ensures var c := Cleaner.CleanSegment(g, k).0;
            && Valid(c.log) && |c.log.buf| == 2 && c.log.freeCount == g.log.freeCount + 1 && c.log.readonly == g.log.readonly
            && c.icache == g.icache && c.log.table == g.log.table[k := c.log.table[k]] && c.log.table[k].state.Free?
  {
    var bs := Cleaner.ReadSegment(g.log.disk, k);
    var g1 := Cleaner.Started(g, k);
    CountFreeUpdate(g.log.table, k, g.log.table[k].(state := SegState.Cleaning));
    var r := BlockInfo(x, 0, InodeBlock);
    assert RecordAt(bs[0], 0) == r && Cleaner.BlocksToVisit(bs[0]) == 2;
    assert Cleaner.Live(g1, r, SegmentToBlock(k, 1));
    var g2 := Cleaner.CleanBlock(g1, bs[1], r, SegmentToBlock(k, 1)).0;
    assert Cleaner.CleanFrom(g1, k, bs, 1, 2) == (g2, true);
    CountFreeUpdate(g2.log.table, k, g2.log.table[k].(state := Free, live := 0));
  }

  /**
   * The whole run: a new inode is written and flushed, its segment is cleaned, flushes bring
   * the log back to that segment with another new inode, and the first inode is written. Its
   * cached location is still in the segment, so the count of the segment is zero although it
   * holds the other inode.
   */
  lemma StaleCountReachesZero(f: Fs, x: nat, y: nat, data: Block)
    requires Valid(f.log) && |f.log.buf| == 1 && !f.log.readonly && f.log.freeCount > 1 && x != y && x > 0
    requires f.log.seg < FirstFree(f.log.table)
    ensures var k := f.log.seg;
            && Sound(WriteNew(f, x))
            && var c := Cleaner.CleanSegment(FlushFs(WriteNew(f, x)).0, k).0;
            var g := FlushFs(WriteNew(FlushFs(c).0, y)).0;
            && Sound(g) && Usable(g, x)
            && var w := WriteBlock(g, x, 0, data).0;
               && x in w.icache
               && var h := WriteInode(w, x).0;
                  && k < |h.log.table| && h.log.table[k].state.Full? && h.log.table[k].live == 0
                  && y in h.inodeMap && SegOf(h.inodeMap[y]) == k
                  && FreeEmpty(h.log, k).table[k].state.Free?
  {
    hide WriteNew, FlushFs, WriteBlock, WriteInode, Cleaner.CleanSegment;
    var k := f.log.seg;
    OneInodeFlushed(f, x);
    var g := FlushFs(WriteNew(f, x)).0;
    OneInodeCleaned(g, x, k);
    var c := Cleaner.CleanSegment(g, k).0;
    FirstFreeIs(c.log.table, k);
    RefilledCountReachesZero(c, x, y, k, data);
  }

  lemma FirstFreeIs(t: seq<Usage>, k: nat)
    requires k < |t| && t[k].state.Free? && forall j :: 0 <= j < k ==> !t[j].state.Free?
    ensures FirstFree(t) == k
  {
  }
}
