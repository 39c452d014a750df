/**
 * The segmented log (src/segment.c) as a value: the disk, the segment usage
 * table and the in-memory segment buffer, with the operations that change them.
 */
module Log {
  import opened Layout

  datatype BlockKind = DataBlock | InodeBlock | IndirectBlock | DirentBlock

  /** What the segment summary records about one payload block. */
  datatype BlockInfo = BlockInfo(ino: nat, offset: nat, kind: BlockKind)

  const NO_INFO := BlockInfo(0, 0, DataBlock)

  datatype DiskInode = DiskInode(ino: nat, blocks: nat, direct: seq<nat>, indirect: nat, doubleIndirect: nat, deleted: bool)

  /**
   * A 4096-byte block by what was written to it. `Payload` is 512 words: file
   * data, or the pointers of an indirect block. A summary stores the header and
   * the block info records that fit, the rest of its block being zero.
   */
  datatype Block =
    | Payload(words: seq<nat>)
    | InodeImage(inode: DiskInode)
    | Summary(magic: nat, segId: nat, timestamp: nat, blockCount: nat, infos: seq<BlockInfo>)

  function Zeros(n: nat): (s: seq<nat>)
    ensures |s| == n && forall i :: 0 <= i < n ==> s[i] == 0
  {
    if n == 0 then [] else Zeros(n - 1) + [0]
  }

  const ZERO_BLOCK := Payload(Zeros(WORDS_PER_BLOCK))

  type Disk = map<nat, Block>

  /** Reads a block; a block never written is zero. */
  function DiskAt(disk: Disk, a: nat): Block
  {
    if a in disk then disk[a] else ZERO_BLOCK
  }

  /** Writes consecutive blocks starting at `start`. */
  function WriteBlocks(disk: Disk, start: nat, blocks: seq<Block>): (d: Disk)
    ensures forall a: nat :: DiskAt(d, a) ==
              if start <= a < start + |blocks| then blocks[a - start] else DiskAt(disk, a)
    decreases |blocks|
  {
    if blocks == [] then disk
    else WriteBlocks(disk[start := blocks[0]], start + 1, blocks[1..])
  }

  /** The addresses of `n` consecutive blocks. */
  function Addresses(start: nat, n: nat): (r: set<nat>)
    ensures forall a: nat :: a in r <==> start <= a < start + n
  {
    if n == 0 then {} else Addresses(start, n - 1) + {start + n - 1}
  }

  /** The i-th block info record of a summary block, zero where none was stored. */
  function RecordAt(b: Block, i: nat): BlockInfo
  {
    if b.Summary? && i < |b.infos| then b.infos[i] else NO_INFO
  }

  datatype SegState = Free | Active | Full | Cleaning

  datatype Usage = Usage(state: SegState, live: nat, timestamp: nat)

  /** Number of FREE entries. */
  function CountFree(t: seq<Usage>): nat
  {
    if t == [] then 0 else CountFree(t[..|t| - 1]) + (if t[|t| - 1].state.Free? then 1 else 0)
  }

  /** Changing one entry changes the count by that entry alone. */
  lemma {:induction false} CountFreeUpdate(t: seq<Usage>, k: nat, u: Usage)
    requires k < |t|
    ensures CountFree(t[k := u]) ==
              CountFree(t) - (if t[k].state.Free? then 1 else 0) + (if u.state.Free? then 1 else 0)
  {
    var n := |t| - 1;
    if k == n {
      assert t[k := u][..n] == t[..n];
    } else {
      assert t[k := u][..n] == t[..n][k := u];
      CountFreeUpdate(t[..n], k, u);
    }
  }

  /** The first FREE segment, or the table size. */
  function FirstFree(t: seq<Usage>): (i: nat)
    ensures i <= |t|
    ensures i < |t| ==> t[i].state.Free?
    ensures forall j :: 0 <= j < i ==> !t[j].state.Free?
  {
    if t == [] then 0 else if t[0].state.Free? then 0 else 1 + FirstFree(t[1..])
  }

  lemma {:induction false} FreeExists(t: seq<Usage>)
    ensures CountFree(t) > 0 <==> FirstFree(t) < |t|
  {
    if t != [] {
      var n := |t| - 1;
      FreeExists(t[..n]);
      if CountFree(t) > 0 {
        var k := if t[n].state.Free? then n else FirstFree(t[..n]);
        assert t[k].state.Free?;
      }
      if FirstFree(t) < n {
        assert t[..n][FirstFree(t)].state.Free?;
      }
    }
  }

  /**
   * `buf` and `info` are the used part of the segment buffer, so `|buf|` is its
   * block count; index 0 is the place of the summary. `unsynced` holds the
   * addresses written since the last sync. On a read-only mount every write fails.
   */
  datatype State = State(
    disk: Disk, unsynced: set<nat>, readonly: bool,
    table: seq<Usage>, freeCount: nat,
    seg: nat, buf: seq<Block>, info: seq<BlockInfo>, logHead: nat)

  const EMPTY_BUF: seq<Block> := [ZERO_BLOCK]
  const EMPTY_INFO: seq<BlockInfo> := [NO_INFO]

  /** lsfs_segment_alloc: takes the first FREE segment, or fails without a change. */
  function Alloc(l: State, now: nat): (State, bool)
  {
    var k := FirstFree(l.table);
    if l.freeCount == 0 || k == |l.table| then (l, false)
    else (l.(table := l.table[k := Usage(Active, 0, now)], freeCount := l.freeCount - 1, seg := k), true)
  }

  /** The summary that flush puts in front of the buffered blocks. */
  function SummaryOf(l: State, now: nat): Block
  {
    var infos := if 1 <= |l.info| <= SUMMARY_RECORDS + 1 then l.info[1..] else [];
    Summary(SEGMENT_MAGIC, l.seg, now, |l.buf|, infos)
  }

  /** The part of flush that writes the buffer out and marks its segment FULL. */
  function WriteOut(l: State, now: nat): State
    requires l.seg < |l.table| && |l.buf| > 1
  {
    var start := SegmentToBlock(l.seg, 0);
    l.(disk := WriteBlocks(l.disk, start, [SummaryOf(l, now)] + l.buf[1..]),
       unsynced := l.unsynced + Addresses(start, |l.buf|),
       table := l.table[l.seg := Usage(Full, |l.buf| - 1, now)],
       logHead := start + |l.buf|)
  }

  /**
   * lsfs_segment_flush without the checkpoint it may nest. When no segment can
   * be allocated the buffer is still reset, over the segment just written.
   */
  function Flush(l: State, now: nat): (r: (State, bool))
    requires l.seg < |l.table|
    ensures r.0.seg < |r.0.table|
  {
    if |l.buf| <= 1 then (l, true)
    else if l.readonly then (l, false)
    else
      var l1 := Alloc(WriteOut(l, now), now).0;
      (l1.(buf := EMPTY_BUF, info := EMPTY_INFO), true)
  }

  /** Copies one block into the buffer and returns its address. */
  function Put(l: State, data: Block, i: BlockInfo): (State, nat)
  {
    (l.(buf := l.buf + [data], info := l.info + [i]), SegmentToBlock(l.seg, |l.buf|))
  }

  /** lsfs_segment_append_block, flushing first when the buffer is full; address 0 is failure. */
  function Append(l: State, data: Block, i: BlockInfo, now: nat): (State, nat)
    requires l.seg < |l.table|
  {
    if |l.buf| < SEGMENT_BLOCKS then Put(l, data, i)
    else
      var (l1, ok) := Flush(l, now);
      if ok then Put(l1, data, i) else (l1, 0)
  }

  function SetUsage(l: State, k: nat, u: Usage): State
    requires k < |l.table|
  {
    l.(table := l.table[k := u])
  }

  /** lsfs_gc_mark_block_dead: takes one off the live count of the block's segment. */
  function MarkDead(l: State, a: nat): State
  {
    var k := BlockToSegment(a).0;
    if k < |l.table| && l.table[k].live > 0
    then SetUsage(l, k, l.table[k].(live := l.table[k].live - 1))
    else l
  }

  /** The zero-live path of cleaning: a FULL segment without live blocks becomes FREE. */
  function FreeEmpty(l: State, k: nat): State
  {
    if k < |l.table| && l.table[k].state.Full? && l.table[k].live == 0
    then SetUsage(l, k, l.table[k].(state := Free)).(freeCount := l.freeCount + 1)
    else l
  }

  /** FULL becomes CLEANING when the copying path starts. */
  function StartCleaning(l: State, k: nat): State
  {
    if k < |l.table| && l.table[k].state.Full?
    then SetUsage(l, k, l.table[k].(state := Cleaning))
    else l
  }

  /** The end of the copying path: the segment becomes FREE, whatever state it is in by then. */
  function FinishCleaning(l: State, k: nat): State
  {
    if k < |l.table|
    then SetUsage(l, k, l.table[k].(state := Free, live := 0)).(freeCount := l.freeCount + 1)
    else l
  }

  function Sync(l: State): State
  {
    l.(unsynced := {})
  }

  // ---------------------------------------------------------------- invariant

  /** Kept by every step that finds a segment to allocate. */
  predicate Valid(l: State)
  {
    && |l.table| < UINT32
    && l.seg < |l.table|
    && l.table[l.seg].state.Active?
    && 1 <= |l.buf| <= SEGMENT_BLOCKS
    && |l.info| == |l.buf|
    && l.freeCount == CountFree(l.table)
  }

  /** The next append does not have to flush, or the flush writes and finds a free segment. */
  predicate CanAppend(l: State)
  {
    |l.buf| < SEGMENT_BLOCKS || CanFlush(l)
  }

  predicate CanFlush(l: State)
  {
    |l.buf| <= 1 || (!l.readonly && l.freeCount > 0)
  }

  /** A payload address of a segment in use, and below the fill mark if it is the one being filled. */
  predicate Occupied(l: State, a: nat)
  {
    && a >= LOG_START && OffOf(a) >= 1
    && SegOf(a) < |l.table|
    && !l.table[SegOf(a)].state.Free?
    && (SegOf(a) == l.seg ==> OffOf(a) < |l.buf|)
  }

  predicate Buffered(l: State, a: nat)
  {
    a >= LOG_START && SegOf(a) == l.seg && 1 <= OffOf(a) < |l.buf|
  }

  /** The content the log gives an address: the buffer shadows the disk. */
  function Overlay(l: State, a: nat): Block
  {
    if Buffered(l, a) then l.buf[OffOf(a)] else DiskAt(l.disk, a)
  }

  /** What the log records about an occupied address, as far as the summary could hold it. */
  predicate Recorded(l: State, a: nat, i: BlockInfo)
  {
    if SegOf(a) == l.seg then OffOf(a) < |l.info| && l.info[OffOf(a)] == i
    else
      var s := DiskAt(l.disk, SegmentToBlock(SegOf(a), 0));
      && s.Summary? && s.magic == SEGMENT_MAGIC
      && 1 <= OffOf(a) < s.blockCount <= SEGMENT_BLOCKS
      && (s.blockCount <= SUMMARY_RECORDS + 1 ==> RecordAt(s, OffOf(a) - 1) == i)
  }

  /** Address `a` is in use, holds `b` and is recorded as `i`. */
  predicate Holds(l: State, a: nat, b: Block, i: BlockInfo)
  {
    Occupied(l, a) && Overlay(l, a) == b && Recorded(l, a, i)
  }

  // ------------------------------------------------------------ single steps

  lemma AllocFacts(l: State, now: nat)
    requires |l.table| < UINT32 && l.freeCount == CountFree(l.table)
    ensures var (l', ok) := Alloc(l, now);
            && ok == (l.freeCount > 0)
            && l'.freeCount == CountFree(l'.table)
            && (ok ==> l'.seg < |l.table| && l.table[l'.seg].state.Free? && l'.table[l'.seg].state.Active?)
  {
    FreeExists(l.table);
    var k := FirstFree(l.table);
    if k < |l.table| {
      CountFreeUpdate(l.table, k, Usage(Active, 0, now));
    }
  }

  /** Everything in use in `l` is in use in `l'`, with the same content and the same record. */
  ghost predicate Extends(l: State, l': State)
  {
    && |l'.table| == |l.table|
    && (forall a: nat :: Occupied(l, a) ==> Occupied(l', a) && Overlay(l', a) == Overlay(l, a))
    && (forall a: nat, i :: Occupied(l, a) && Recorded(l, a, i) ==> Recorded(l', a, i))
  }

  lemma ExtendsTransitive(l0: State, l1: State, l2: State)
    requires Extends(l0, l1) && Extends(l1, l2)
    ensures Extends(l0, l2)
  {
  }

  /** Flushing keeps every block in use, on disk, and leaves nothing buffered. */
  lemma FlushFacts(l: State, now: nat)
    requires Valid(l) && CanFlush(l)
    ensures Flush(l, now).1
    ensures var l' := Flush(l, now).0;
            && Valid(l') && |l'.buf| == 1 && Extends(l, l')
            && (forall a: nat :: Occupied(l, a) ==> DiskAt(l'.disk, a) == Overlay(l, a) && SegOf(a) != l'.seg)
            && (forall a: nat :: Occupied(l, a) && !Buffered(l, a) && a !in l.unsynced ==> a !in l'.unsynced)
  {
    if |l.buf| > 1 {
      CountFreeUpdate(l.table, l.seg, Usage(Full, |l.buf| - 1, now));
      AllocFacts(WriteOut(l, now), now);
      var l' := Flush(l, now).0;
      forall a: nat | Occupied(l, a)
        ensures Occupied(l', a) && DiskAt(l'.disk, a) == Overlay(l, a) && SegOf(a) != l'.seg
        ensures forall i :: Recorded(l, a, i) ==> Recorded(l', a, i)
        ensures !Buffered(l, a) && a !in l.unsynced ==> a !in l'.unsynced
      {
        FlushKeeps(l, now, a);
      }
    }
  }

  /** A flush writes the buffer out and moves on to a segment that was FREE. */
  lemma FlushMovesOn(l: State, now: nat)
    requires Valid(l) && CanFlush(l) && |l.buf| > 1
    ensures var (l', w) := (Flush(l, now).0, WriteOut(l, now));
            && l'.disk == w.disk && l'.unsynced == w.unsynced && l'.table == w.table[l'.seg := Usage(Active, 0, now)]
            && l'.seg != l.seg && l.table[l'.seg].state.Free?
  {
    CountFreeUpdate(l.table, l.seg, Usage(Full, |l.buf| - 1, now));
    AllocFacts(WriteOut(l, now), now);
  }

  lemma FlushKeepsBuffered(l: State, now: nat, a: nat)
    requires Valid(l) && CanFlush(l) && |l.buf| > 1 && Occupied(l, a) && SegOf(a) == l.seg
    ensures var l' := Flush(l, now).0;
            && Occupied(l', a) && DiskAt(l'.disk, a) == Overlay(l, a) && SegOf(a) != l'.seg
            && (forall i :: Recorded(l, a, i) ==> Recorded(l', a, i))
  {
    hide Flush, CountFree;
    FlushMovesOn(l, now);
    var l' := Flush(l, now).0;
    Address(a);
    assert DiskAt(l'.disk, a) == ([SummaryOf(l, now)] + l.buf[1..])[OffOf(a)];
    assert DiskAt(l'.disk, SegmentToBlock(l.seg, 0)) == SummaryOf(l, now);
  }

  lemma FlushKeepsFlushed(l: State, now: nat, a: nat)
    requires Valid(l) && CanFlush(l) && |l.buf| > 1 && Occupied(l, a) && SegOf(a) != l.seg
    ensures var l' := Flush(l, now).0;
            && Occupied(l', a) && DiskAt(l'.disk, a) == Overlay(l, a) && SegOf(a) != l'.seg
            && (forall i :: Recorded(l, a, i) ==> Recorded(l', a, i))
            && (a !in l.unsynced ==> a !in l'.unsynced)
  {
    hide Flush, CountFree;
    FlushMovesOn(l, now);
    var start := SegmentToBlock(l.seg, 0);
    Address(a);
    assert !(start <= a < start + |l.buf|);
    assert !(start <= SegmentToBlock(SegOf(a), 0) < start + |l.buf|);
  }

  lemma FlushKeeps(l: State, now: nat, a: nat)
    requires Valid(l) && CanFlush(l) && |l.buf| > 1 && Occupied(l, a)
    ensures var l' := Flush(l, now).0;
            && Occupied(l', a) && DiskAt(l'.disk, a) == Overlay(l, a) && SegOf(a) != l'.seg
            && (forall i :: Recorded(l, a, i) ==> Recorded(l', a, i))
            && (!Buffered(l, a) && a !in l.unsynced ==> a !in l'.unsynced)
  {
    hide Flush, Recorded, Overlay, DiskAt;
    if SegOf(a) == l.seg {
      FlushKeepsBuffered(l, now, a);
    } else {
      FlushKeepsFlushed(l, now, a);
    }
  }

  /**
   * Appending returns the address of a payload block of the log that no one
   * occupied, puts the data there, and keeps every block in use.
   */
  lemma AppendFacts(l: State, data: Block, i: BlockInfo, now: nat)
    requires Valid(l) && CanAppend(l)
    ensures var (l', a) := Append(l, data, i, now);
            && Valid(l') && |l'.buf| > 1 && Extends(l, l')
            && Holds(l', a, data, i) && !Occupied(l, a) && Buffered(l', a)
  {
    if |l.buf| == SEGMENT_BLOCKS {
      FlushFacts(l, now);
      CountFreeUpdate(l.table, l.seg, Usage(Full, |l.buf| - 1, now));
      AllocFacts(WriteOut(l, now), now);
    }
    var l1 := if |l.buf| < SEGMENT_BLOCKS then l else Flush(l, now).0;
    PutFacts(l1, data, i);
  }

  lemma PutFacts(l: State, data: Block, i: BlockInfo)
    requires Valid(l) && |l.buf| < SEGMENT_BLOCKS
    ensures var (l', a) := Put(l, data, i);
            && Valid(l') && Extends(l, l')
            && Holds(l', a, data, i) && !Occupied(l, a) && Buffered(l', a)
  {
  }

  /** Marking a block dead changes live counts only. */
  lemma MarkDeadKeeps(l: State, a: nat)
    requires Valid(l)
    ensures var l' := MarkDead(l, a);
            && Valid(l') && Extends(l, l')
            && l' == l.(table := l'.table)
            && (forall k :: 0 <= k < |l.table| ==> l'.table[k].state == l.table[k].state)
  {
    var k := BlockToSegment(a).0;
    if k < |l.table| && l.table[k].live > 0 {
      CountFreeUpdate(l.table, k, l.table[k].(live := l.table[k].live - 1));
    }
  }

  /**
   * `Extends`, and in addition blocks outside the buffer's segment stay outside it,
   * keep their bytes on disk, and stay synced if they were.
   */
  ghost predicate Keeps(l: State, l': State)
  {
    && Extends(l, l')
    && (forall a: nat :: Occupied(l, a) && SegOf(a) != l.seg ==>
          && SegOf(a) != l'.seg
          && DiskAt(l'.disk, a) == DiskAt(l.disk, a)
          && (a !in l.unsynced ==> a !in l'.unsynced))
  }

  lemma KeepsTransitive(l0: State, l1: State, l2: State)
    requires Keeps(l0, l1) && Keeps(l1, l2)
    ensures Keeps(l0, l2)
  {
    ExtendsTransitive(l0, l1, l2);
  }

  /** Flushing writes one segment, and changes the states of that one and of a FREE one. */
  lemma FlushTouches(l: State, now: nat, k: nat)
    requires Valid(l) && CanFlush(l) && k < |l.table| && k != l.seg && !l.table[k].state.Free?
    ensures var l' := Flush(l, now).0;
            && |l'.table| == |l.table| && l'.table[k] == l.table[k] && k != l'.seg
            && (forall a: nat :: a >= LOG_START && SegOf(a) == k ==> DiskAt(l'.disk, a) == DiskAt(l.disk, a))
  {
    if |l.buf| > 1 {
      CountFreeUpdate(l.table, l.seg, Usage(Full, |l.buf| - 1, now));
      AllocFacts(WriteOut(l, now), now);
      var start := SegmentToBlock(l.seg, 0);
      forall a: nat | a >= LOG_START && SegOf(a) == k
        ensures !(start <= a < start + |l.buf|)
      {
        Address(a);
      }
    }
  }
}
