/**
 * The copying path of the cleaner (src/gc.c): live inode and direct data blocks
 * of a segment are appended to the log again, the inode map and the cached inodes
 * follow them, and the segment becomes FREE.
 */
module Cleaner {
  import opened Layout
  import opened Log
  import opened FileSystem

  datatype CleanResult = Cleaned | InvalidSegment | CorruptSegment | NoSpace | ReadFailed

  /** lsfs_read_blocks of one whole segment. */
  function ReadSegment(disk: Disk, k: nat): (bs: seq<Block>)
    ensures |bs| == SEGMENT_BLOCKS
    ensures forall i :: 0 <= i < SEGMENT_BLOCKS ==> bs[i] == DiskAt(disk, SegmentToBlock(k, i))
  {
    seq(SEGMENT_BLOCKS, i requires 0 <= i < SEGMENT_BLOCKS => DiskAt(disk, SegmentToBlock(k, i)))
  }

  /** The inode map still names `a` as the place of the recorded inode. */
  predicate LiveImage(f: Fs, r: BlockInfo, a: nat)
  {
    r.kind.InodeBlock? && r.ino in f.inodeMap && f.inodeMap[r.ino] == a
  }

  /** A direct pointer of the recorded inode still names `a`; indirect blocks are not looked at. */
  predicate LiveData(f: Fs, r: BlockInfo, a: nat)
  {
    && r.kind.DataBlock? && r.ino in f.icache && WellFormed(f.icache[r.ino].disk)
    && r.offset < DIRECT_BLOCKS && f.icache[r.ino].disk.direct[r.offset] == a
  }

  predicate Live(f: Fs, r: BlockInfo, a: nat)
  {
    r.ino != 0 && (LiveImage(f, r, a) || LiveData(f, r, a))
  }

  function PointAt(n: Inode, idx: nat, a: nat): Inode
    requires idx < |n.disk.direct|
  {
    n.(disk := n.disk.(direct := n.disk.direct[idx := a]), dirty := true)
  }

  /** One round of the cleaning loop: relocate the block if it is live. */
  function CleanBlock(f: Fs, data: Block, r: BlockInfo, a: nat): (res: (Fs, bool))
    requires Sound(f)
    ensures Sound(res.0)
  {
    if !Live(f, r, a) then (f, true)
    else
      var (f1, b) := AppendFs(f, data, r);
      if b == 0 then (f1, false)
      else if LiveImage(f, r, a) then (f1.(inodeMap := f1.inodeMap[r.ino := b]), true)
      else (f1.(icache := f1.icache[r.ino := PointAt(f.icache[r.ino], r.offset, b)]), true)
  }

  /** The rounds from block `i` on, stopping at the first failed append. */
  function CleanFrom(f: Fs, k: nat, bs: seq<Block>, i: nat, n: nat): (res: (Fs, bool))
    requires Sound(f) && |bs| == SEGMENT_BLOCKS && 1 <= i <= n <= SEGMENT_BLOCKS
    ensures Sound(res.0)
    decreases n - i
  {
    if i == n then (f, true)
    else
      var (f1, ok) := CleanBlock(f, bs[i], RecordAt(bs[0], i - 1), SegmentToBlock(k, i));
      if ok then CleanFrom(f1, k, bs, i + 1, n) else (f1, false)
  }

  /** Every relocation finds room in the buffer, or a segment to continue in. */
  predicate Allocates(f: Fs, k: nat, bs: seq<Block>, i: nat, n: nat)
    requires Sound(f) && |bs| == SEGMENT_BLOCKS && 1 <= i <= n <= SEGMENT_BLOCKS
    decreases n - i
  {
    i == n || (
      var r := RecordAt(bs[0], i - 1);
      var a := SegmentToBlock(k, i);
      && (Live(f, r, a) ==> CanAppend(f.log))
      && Allocates(CleanBlock(f, bs[i], r, a).0, k, bs, i + 1, n))
  }

  /** The number of blocks the loop visits, the header's count cut to a segment. */
  function BlocksToVisit(s: Block): (n: nat)
    ensures 1 <= n <= SEGMENT_BLOCKS
  {
    if !s.Summary? || s.blockCount == 0 then 1
    else if s.blockCount > SEGMENT_BLOCKS then SEGMENT_BLOCKS else s.blockCount
  }

  /** A cleaning that has to read the segment. */
  predicate NeedsRead(f: Fs, k: nat)
  {
    k < |f.log.table| && f.log.table[k].state.Full? && f.log.table[k].live > 0
  }

  /** lsfs_gc_clean_segment, when the segment can be read. The segment is freed even when a relocation failed. */
  function CleanSegment(f: Fs, k: nat): (res: (Fs, CleanResult))
    requires Sound(f)
    ensures Sound(res.0)
  {
    if k >= |f.log.table| then (f, InvalidSegment)
    else if !f.log.table[k].state.Full? then (f, Cleaned)
    else if f.log.table[k].live == 0 then (f.(log := FreeEmpty(f.log, k)), Cleaned)
    else
      var f1 := f.(log := StartCleaning(f.log, k));
      var bs := ReadSegment(f1.log.disk, k);
      if !bs[0].Summary? || bs[0].magic != SEGMENT_MAGIC then (f, CorruptSegment)
      else
        var (f2, ok) := CleanFrom(f1, k, bs, 1, BlocksToVisit(bs[0]));
        (f2.(log := FinishCleaning(f2.log, k)), if ok then Cleaned else NoSpace)
  }

  // ------------------------------------------------------------- invariants

  /** The block is in use, and the log's record about it is `i`. */
  ghost predicate Truthful(l: State, a: nat, i: BlockInfo)
  {
    Occupied(l, a) && Recorded(l, a, i)
  }

  /** Inode map locations and direct pointers lead to blocks recorded as what they are. */
  ghost predicate Truth(f: Fs)
  {
    && Valid(f.log)
    && (forall ino :: ino in f.inodeMap ==> ino != 0 && Truthful(f.log, f.inodeMap[ino], BlockInfo(ino, 0, InodeBlock)))
    && (forall ino :: ino in f.icache ==> ino != 0 && WellFormed(f.icache[ino].disk))
    && (forall ino, idx :: ino in f.icache && 0 <= idx < DIRECT_BLOCKS && f.icache[ino].disk.direct[idx] != 0 ==>
          Truthful(f.log, f.icache[ino].disk.direct[idx], BlockInfo(ino, idx, DataBlock)))
  }

  /** Same inodes, same pointers in use, and every one of them leads to the same content. */
  ghost predicate SameContents(f: Fs, f': Fs)
  {
    && f'.inodeMap.Keys == f.inodeMap.Keys && f'.icache.Keys == f.icache.Keys
    && (forall ino :: ino in f.inodeMap ==>
          Overlay(f'.log, f'.inodeMap[ino]) == Overlay(f.log, f.inodeMap[ino]))
    && (forall ino :: ino in f.icache ==> SameFile(f.log, f.icache[ino], f'.log, f'.icache[ino]))
  }

  ghost predicate SameFile(l: State, n: Inode, l': State, n': Inode)
  {
    && WellFormed(n.disk) && WellFormed(n'.disk)
    && n'.location == n.location
    && n'.disk == n.disk.(direct := n'.disk.direct)
    && forall idx :: 0 <= idx < DIRECT_BLOCKS ==>
         && (n'.disk.direct[idx] == 0 <==> n.disk.direct[idx] == 0)
         && (n.disk.direct[idx] != 0 ==> Overlay(l', n'.disk.direct[idx]) == Overlay(l, n.disk.direct[idx]))
  }

  /** Some inode map location or direct pointer is `a`. */
  ghost predicate PointedAt(f: Fs, a: nat)
  {
    || (exists ino :: ino in f.inodeMap && f.inodeMap[ino] == a)
    || (exists ino, idx :: ino in f.icache && 0 <= idx < |f.icache[ino].disk.direct| && f.icache[ino].disk.direct[idx] == a)
  }

  /** The state of the loop before block `i`: what is left in segment `k` lies at `i` or above. */
  ghost predicate Cleaning(f: Fs, k: nat, bs: seq<Block>, i: nat)
  {
    && Truth(f)
    && k < |f.log.table| && k != f.log.seg && f.log.table[k].state.Cleaning?
    && bs == ReadSegment(f.log.disk, k)
    && bs[0].Summary? && bs[0].blockCount <= SUMMARY_RECORDS + 1
    && (forall a: nat :: PointedAt(f, a) && a != 0 && SegOf(a) == k ==> OffOf(a) >= i)
  }

  /** Whatever points at a block of the segment is what the summary records. */
  lemma RecordsTell(f: Fs, k: nat, bs: seq<Block>, i: nat, a: nat)
    requires Cleaning(f, k, bs, i) && a != 0 && SegOf(a) == k
    ensures PointedAt(f, a) ==> a >= LOG_START && 1 <= OffOf(a) < bs[0].blockCount && Live(f, RecordAt(bs[0], OffOf(a) - 1), a)
    ensures forall ino :: ino in f.inodeMap && f.inodeMap[ino] == a ==>
              RecordAt(bs[0], OffOf(a) - 1) == BlockInfo(ino, 0, InodeBlock)
    ensures forall ino, idx :: ino in f.icache && 0 <= idx < DIRECT_BLOCKS && f.icache[ino].disk.direct[idx] == a ==>
              RecordAt(bs[0], OffOf(a) - 1) == BlockInfo(ino, idx, DataBlock)
  {
  }

  /** Appending a copy keeps the loop state and all contents; only the copy's address is new. */
  lemma AppendCopy(f: Fs, k: nat, bs: seq<Block>, i: nat, data: Block, r: BlockInfo)
    requires Cleaning(f, k, bs, i) && CanAppend(f.log)
    ensures var (f1, b) := AppendFs(f, data, r);
            && Cleaning(f1, k, bs, i) && SameContents(f, f1)
            && f1.inodeMap == f.inodeMap && f1.icache == f.icache
            && b != 0 && SegOf(b) != k && Truthful(f1.log, b, r) && Overlay(f1.log, b) == data
            && Extends(f.log, f1.log)
  {
    hide AppendFs;
    AppendFsFacts(f, data, r);
    AppendTouches(f, data, r, k);
    var f1 := AppendFs(f, data, r).0;
    assert ReadSegment(f1.log.disk, k) == bs;
  }

  /** The live image of an inode moves, and with it the inode map. */
  lemma MoveImage(f: Fs, k: nat, bs: seq<Block>, i: nat, ino: nat, b: nat)
    requires Cleaning(f, k, bs, i) && ino in f.inodeMap && f.inodeMap[ino] == SegmentToBlock(k, i) && 1 <= i < SEGMENT_BLOCKS
    requires SegOf(b) != k && b != 0 && Truthful(f.log, b, BlockInfo(ino, 0, InodeBlock))
    requires Overlay(f.log, b) == Overlay(f.log, SegmentToBlock(k, i))
    ensures var f' := f.(inodeMap := f.inodeMap[ino := b]);
            SameContents(f, f') && Cleaning(f', k, bs, i + 1)
  {
    var f' := f.(inodeMap := f.inodeMap[ino := b]);
    forall a: nat | PointedAt(f', a) && a != 0 && SegOf(a) == k
      ensures OffOf(a) >= i + 1
    {
      assert PointedAt(f, a);
      RecordsTell(f, k, bs, i, a);
      RecordsTell(f, k, bs, i, SegmentToBlock(k, i));
      Address(a);
    }
  }

  /** A live direct block moves, and with it the pointer in the cached inode. */
  lemma MoveData(f: Fs, k: nat, bs: seq<Block>, i: nat, ino: nat, idx: nat, b: nat)
    requires Cleaning(f, k, bs, i) && 1 <= i < SEGMENT_BLOCKS
    requires ino in f.icache && idx < DIRECT_BLOCKS && f.icache[ino].disk.direct[idx] == SegmentToBlock(k, i)
    requires SegOf(b) != k && b != 0 && Truthful(f.log, b, BlockInfo(ino, idx, DataBlock))
    requires Overlay(f.log, b) == Overlay(f.log, SegmentToBlock(k, i))
    ensures var f' := f.(icache := f.icache[ino := PointAt(f.icache[ino], idx, b)]);
            SameContents(f, f') && Cleaning(f', k, bs, i + 1)
  {
    hide Overlay, Occupied;
    var f' := f.(icache := f.icache[ino := PointAt(f.icache[ino], idx, b)]);
    assert SameFile(f.log, f.icache[ino], f'.log, f'.icache[ino]);
    forall a: nat | PointedAt(f', a) && a != 0 && SegOf(a) == k
      ensures OffOf(a) >= i + 1
    {
      assert PointedAt(f, a);
      RecordsTell(f, k, bs, i, a);
      RecordsTell(f, k, bs, i, SegmentToBlock(k, i));
      Address(a);
    }
  }

  lemma SameContentsTransitive(f0: Fs, f1: Fs, f2: Fs)
    requires SameContents(f0, f1) && SameContents(f1, f2)
    ensures SameContents(f0, f2)
  {
    forall ino | ino in f0.icache
      ensures SameFile(f0.log, f0.icache[ino], f2.log, f2.icache[ino])
    {
      assert SameFile(f0.log, f0.icache[ino], f1.log, f1.icache[ino]);
      assert SameFile(f1.log, f1.icache[ino], f2.log, f2.icache[ino]);
    }
  }

  /** One round of the loop. */
  lemma CleanBlockKeeps(f: Fs, k: nat, bs: seq<Block>, i: nat)
    requires Cleaning(f, k, bs, i) && 1 <= i < SEGMENT_BLOCKS
    requires Live(f, RecordAt(bs[0], i - 1), SegmentToBlock(k, i)) ==> CanAppend(f.log)
    ensures var (f', ok) := CleanBlock(f, bs[i], RecordAt(bs[0], i - 1), SegmentToBlock(k, i));
            ok && Cleaning(f', k, bs, i + 1) && SameContents(f, f')
  {
    var r := RecordAt(bs[0], i - 1);
    var a := SegmentToBlock(k, i);
    RecordsTell(f, k, bs, i, a);
    if Live(f, r, a) {
      AppendCopy(f, k, bs, i, bs[i], r);
      var (f1, b) := AppendFs(f, bs[i], r);
      if LiveImage(f, r, a) {
        MoveImage(f1, k, bs, i, r.ino, b);
        SameContentsTransitive(f, f1, f1.(inodeMap := f1.inodeMap[r.ino := b]));
      } else {
        MoveData(f1, k, bs, i, r.ino, r.offset, b);
        SameContentsTransitive(f, f1, f1.(icache := f1.icache[r.ino := PointAt(f.icache[r.ino], r.offset, b)]));
      }
    } else {
      DeadBlock(f, k, bs, i);
    }
  }

  lemma DeadBlock(f: Fs, k: nat, bs: seq<Block>, i: nat)
    requires Cleaning(f, k, bs, i) && 1 <= i < SEGMENT_BLOCKS
    requires !Live(f, RecordAt(bs[0], i - 1), SegmentToBlock(k, i))
    ensures Cleaning(f, k, bs, i + 1)
  {
    forall a: nat | PointedAt(f, a) && a != 0 && SegOf(a) == k
      ensures OffOf(a) >= i + 1
    {
      RecordsTell(f, k, bs, i, a);
      Address(a);
    }
  }

  lemma SameContentsReflexive(f: Fs)
    requires Truth(f)
    ensures SameContents(f, f)
  {
  }

  /** The whole loop. */
  lemma {:induction false} CleanFromKeeps(f: Fs, k: nat, bs: seq<Block>, i: nat, n: nat)
    requires Cleaning(f, k, bs, i) && 1 <= i <= n <= SEGMENT_BLOCKS && Allocates(f, k, bs, i, n)
    ensures var (f', ok) := CleanFrom(f, k, bs, i, n);
            ok && Cleaning(f', k, bs, n) && SameContents(f, f')
    decreases n - i
  {
    if i == n {
      SameContentsReflexive(f);
    } else {
      CleanBlockKeeps(f, k, bs, i);
      var f1 := CleanBlock(f, bs[i], RecordAt(bs[0], i - 1), SegmentToBlock(k, i)).0;
      CleanFromKeeps(f1, k, bs, i + 1, n);
      SameContentsTransitive(f, f1, CleanFrom(f, k, bs, i, n).0);
    }
  }

  /** A FULL segment with live blocks whose summary holds all its records. */
  predicate Cleanable(f: Fs, k: nat)
  {
    && k < |f.log.table| && f.log.table[k].state.Full? && f.log.table[k].live > 0
    && var s := DiskAt(f.log.disk, SegmentToBlock(k, 0));
       s.Summary? && s.magic == SEGMENT_MAGIC && s.blockCount <= SUMMARY_RECORDS + 1
  }

  function Started(f: Fs, k: nat): Fs
  {
    f.(log := StartCleaning(f.log, k))
  }

  /** Every append of the cleaning finds room, or a segment to continue in. */
  predicate CleaningAllocates(f: Fs, k: nat)
    requires Sound(f) && Cleanable(f, k)
  {
    var bs := ReadSegment(f.log.disk, k);
    Allocates(Started(f, k), k, bs, 1, BlocksToVisit(bs[0]))
  }

  lemma StartFacts(f: Fs, k: nat)
    requires Truth(f) && Cleanable(f, k)
    ensures Cleaning(Started(f, k), k, ReadSegment(f.log.disk, k), 1) && SameContents(f, Started(f, k))
  {
    CountFreeUpdate(f.log.table, k, f.log.table[k].(state := SegState.Cleaning));
    var f1 := Started(f, k);
    assert f1.log.disk == f.log.disk;
    forall a: nat | PointedAt(f1, a) && a != 0 && SegOf(a) == k
      ensures OffOf(a) >= 1
    {
      assert PointedAt(f, a);
    }
  }

  /** Freeing the segment when nothing points into it any more. */
  lemma FinishFacts(f: Fs, k: nat, bs: seq<Block>, n: nat)
    requires Cleaning(f, k, bs, n) && n >= bs[0].blockCount
    ensures var f' := f.(log := FinishCleaning(f.log, k));
            && Truth(f') && SameContents(f, f') && f'.log.table[k].state.Free?
            && (forall a: nat :: a != 0 && SegOf(a) == k ==> !PointedAt(f', a))
  {
    var f' := f.(log := FinishCleaning(f.log, k));
    CountFreeUpdate(f.log.table, k, f.log.table[k].(state := Free, live := 0));
    forall a: nat | a != 0 && SegOf(a) == k
      ensures !PointedAt(f', a) && !PointedAt(f, a)
    {
      RecordsTell(f, k, bs, n, a);
      assert PointedAt(f', a) <==> PointedAt(f, a);
    }
    forall ino | ino in f.inodeMap
      ensures SegOf(f.inodeMap[ino]) != k
    {
      assert PointedAt(f, f.inodeMap[ino]);
    }
    forall ino, idx | ino in f.icache && 0 <= idx < DIRECT_BLOCKS && f.icache[ino].disk.direct[idx] != 0
      ensures SegOf(f.icache[ino].disk.direct[idx]) != k
    {
      assert PointedAt(f, f.icache[ino].disk.direct[idx]);
    }
  }

  /**
   * Cleaning preserves contents: every mapped inode image and every direct block of a
   * cached inode reads as before, the segment is FREE, nothing points into it, and
   * the records of the log are again truthful.
   */
  lemma CleaningPreservesContents(f: Fs, k: nat)
    requires Truth(f) && Cleanable(f, k) && CleaningAllocates(f, k)
    ensures var (f', r) := CleanSegment(f, k);
            && r == Cleaned && Truth(f') && SameContents(f, f')
            && k < |f'.log.table| && f'.log.table[k].state.Free? && f'.log.table[k].live == 0
            && (forall a: nat :: a != 0 && SegOf(a) == k ==> !PointedAt(f', a))
  {
    var bs := ReadSegment(f.log.disk, k);
    var n := BlocksToVisit(bs[0]);
    var f1 := Started(f, k);
    StartFacts(f, k);
    CleanFromKeeps(f1, k, bs, 1, n);
    var f2 := CleanFrom(f1, k, bs, 1, n).0;
    FinishFacts(f2, k, bs, n);
    var f' := CleanSegment(f, k).0;
    SameContentsTransitive(f, f1, f2);
    SameContentsTransitive(f, f2, f');
  }

  // -------------------------------------------------- cached inode locations

  /** Cleaning leaves the cached location of an inode alone, and its map entry unless that is in segment `k`. */
  predicate Located(f: Fs, f': Fs, k: nat, ino: nat)
  {
    && ino in f.icache && ino in f.inodeMap && ino in f'.icache && ino in f'.inodeMap
    && f'.icache[ino].location == f.icache[ino].location
    && (SegOf(f.inodeMap[ino]) != k ==> f'.inodeMap[ino] == f.inodeMap[ino])
  }

  lemma CleanBlockLocates(f: Fs, k: nat, bs: seq<Block>, i: nat, ino: nat)
    requires Cleaning(f, k, bs, i) && 1 <= i < SEGMENT_BLOCKS && ino in f.icache && ino in f.inodeMap
    requires Live(f, RecordAt(bs[0], i - 1), SegmentToBlock(k, i)) ==> CanAppend(f.log)
    ensures Located(f, CleanBlock(f, bs[i], RecordAt(bs[0], i - 1), SegmentToBlock(k, i)).0, k, ino)
  {
    hide AppendFs;
    var r := RecordAt(bs[0], i - 1);
    if Live(f, r, SegmentToBlock(k, i)) {
      AppendCopy(f, k, bs, i, bs[i], r);
    }
  }

  lemma {:induction false} CleanFromLocates(f: Fs, k: nat, bs: seq<Block>, i: nat, n: nat, ino: nat)
    requires Cleaning(f, k, bs, i) && 1 <= i <= n <= SEGMENT_BLOCKS && Allocates(f, k, bs, i, n)
    requires ino in f.icache && ino in f.inodeMap
    ensures Located(f, CleanFrom(f, k, bs, i, n).0, k, ino)
    decreases n - i
  {
    if i < n {
      hide CleanBlock, Cleaning, Live;
      CleanBlockLocates(f, k, bs, i, ino);
      CleanBlockKeeps(f, k, bs, i);
      CleanFromLocates(CleanBlock(f, bs[i], RecordAt(bs[0], i - 1), SegmentToBlock(k, i)).0, k, bs, i + 1, n, ino);
    }
  }

  /**
   * The cleaner does not tell the cached inode where its image went. A cached location
   * that agreed with the inode map agrees with it afterwards if and only if the image
   * was not in the cleaned segment; otherwise the next write of the inode marks a block
   * of the freed segment dead.
   */
  lemma StaleLocation(f: Fs, k: nat, ino: nat)
    requires Truth(f) && Cleanable(f, k) && CleaningAllocates(f, k)
    requires ino in f.icache && ino in f.inodeMap && f.icache[ino].location == f.inodeMap[ino]
    ensures var f' := CleanSegment(f, k).0;
            && ino in f'.icache && ino in f'.inodeMap
            && (f'.icache[ino].location == f'.inodeMap[ino] <==> SegOf(f.inodeMap[ino]) != k)
  {
    assert Sound(f);
    hide CleanFrom, Cleaning, Truth;
    var bs := ReadSegment(f.log.disk, k);
    var n := BlocksToVisit(bs[0]);
    var f1 := Started(f, k);
    StartFacts(f, k);
    CleanFromLocates(f1, k, bs, 1, n, ino);
    if SegOf(f.inodeMap[ino]) == k {
      CleaningPreservesContents(f, k);
      var f' := CleanSegment(f, k).0;
      assert PointedAt(f', f'.inodeMap[ino]);
      MappedIsNotNull(f', ino);
    }
  }

  lemma MappedIsNotNull(f: Fs, ino: nat)
    requires Truth(f) && ino in f.inodeMap
    ensures f.inodeMap[ino] != 0
  {
  }

  // ------------------------------------------------------ when writes fail

  /** The live blocks among those from `i` on. */
  function LiveFrom(f: Fs, k: nat, bs: seq<Block>, i: nat, n: nat): nat
    requires |bs| == SEGMENT_BLOCKS && 1 <= i <= n <= SEGMENT_BLOCKS
    decreases n - i
  {
    if i == n then 0
    else (if Live(f, RecordAt(bs[0], i - 1), SegmentToBlock(k, i)) then 1 else 0) + LiveFrom(f, k, bs, i + 1, n)
  }

  /** Liveness of the later blocks does not depend on an earlier relocation. */
  lemma {:induction false} LiveUnaffected(f: Fs, f': Fs, k: nat, bs: seq<Block>, i: nat, n: nat)
    requires |bs| == SEGMENT_BLOCKS && 1 <= i <= n <= SEGMENT_BLOCKS
    requires forall r, j :: i <= j < n ==> (Live(f', r, SegmentToBlock(k, j)) <==> Live(f, r, SegmentToBlock(k, j)))
    ensures LiveFrom(f', k, bs, i, n) == LiveFrom(f, k, bs, i, n)
    decreases n - i
  {
    if i < n {
      LiveUnaffected(f, f', k, bs, i + 1, n);
    }
  }

  /** With failing writes, a relocation succeeds exactly while the buffer has room. */
  lemma ReadonlyBlock(f: Fs, k: nat, bs: seq<Block>, i: nat, n: nat)
    requires Cleaning(f, k, bs, i) && f.log.readonly && 1 <= i < n <= SEGMENT_BLOCKS
    requires Live(f, RecordAt(bs[0], i - 1), SegmentToBlock(k, i)) && |f.log.buf| < SEGMENT_BLOCKS
    ensures var f' := CleanBlock(f, bs[i], RecordAt(bs[0], i - 1), SegmentToBlock(k, i)).0;
            && |f'.log.buf| == |f.log.buf| + 1 && f'.log.readonly
            && LiveFrom(f', k, bs, i + 1, n) == LiveFrom(f, k, bs, i + 1, n)
  {
    var r := RecordAt(bs[0], i - 1);
    var a := SegmentToBlock(k, i);
    var (f', _) := CleanBlock(f, bs[i], r, a);
    PutFacts(f.log, bs[i], r);
    var b := AppendFs(f, bs[i], r).1;
    forall q, j | i + 1 <= j < n
      ensures Live(f', q, SegmentToBlock(k, j)) <==> Live(f, q, SegmentToBlock(k, j))
    {
      assert SegOf(SegmentToBlock(k, j)) == k && OffOf(SegmentToBlock(k, j)) == j;
    }
    LiveUnaffected(f, f', k, bs, i + 1, n);
  }

  lemma {:induction false} ReadonlyLoop(f: Fs, k: nat, bs: seq<Block>, i: nat, n: nat)
    requires Cleaning(f, k, bs, i) && f.log.readonly && 1 <= i <= n <= SEGMENT_BLOCKS
    ensures Allocates(f, k, bs, i, n) <==> |f.log.buf| + LiveFrom(f, k, bs, i, n) <= SEGMENT_BLOCKS
    ensures !Allocates(f, k, bs, i, n) ==>
              var (f', ok) := CleanFrom(f, k, bs, i, n);
              !ok && k < |f'.log.table| && f'.log.table[k].state.Cleaning? &&
              exists a: nat :: a != 0 && SegOf(a) == k && PointedAt(f', a)
    decreases n - i
  {
    if i < n {
      var r := RecordAt(bs[0], i - 1);
      var a := SegmentToBlock(k, i);
      if !Live(f, r, a) {
        DeadBlock(f, k, bs, i);
        ReadonlyLoop(f, k, bs, i + 1, n);
      } else if |f.log.buf| < SEGMENT_BLOCKS {
        ReadonlyBlock(f, k, bs, i, n);
        CleanBlockKeeps(f, k, bs, i);
        ReadonlyLoop(CleanBlock(f, bs[i], r, a).0, k, bs, i + 1, n);
      } else {
        ReadonlyFull(f, k, bs, i, n);
      }
    }
  }

  /** A full buffer that cannot be written out stops the loop at the next live block. */
  lemma ReadonlyFull(f: Fs, k: nat, bs: seq<Block>, i: nat, n: nat)
    requires Cleaning(f, k, bs, i) && f.log.readonly && 1 <= i < n <= SEGMENT_BLOCKS
    requires Live(f, RecordAt(bs[0], i - 1), SegmentToBlock(k, i)) && |f.log.buf| == SEGMENT_BLOCKS
    ensures !Allocates(f, k, bs, i, n) && LiveFrom(f, k, bs, i, n) > 0
    ensures var (f', ok) := CleanFrom(f, k, bs, i, n);
            !ok && k < |f'.log.table| && f'.log.table[k].state.Cleaning? &&
            exists a: nat :: a != 0 && SegOf(a) == k && PointedAt(f', a)
  {
    assert PointedAt(f, SegmentToBlock(k, i));
  }

  /**
   * A failed relocation does not stop the cleaner from freeing the segment. When writes
   * fail, the freed segment is left with nothing pointing into it exactly when the
   * buffer had room for all its live blocks.
   */
  lemma CleaningWhenWritesFail(f: Fs, k: nat)
    requires Truth(f) && Cleanable(f, k) && f.log.readonly
    ensures var (f', r) := CleanSegment(f, k);
            var bs := ReadSegment(f.log.disk, k);
            && k < |f'.log.table| && f'.log.table[k].state.Free?
            && r == (if |f.log.buf| + LiveFrom(f, k, bs, 1, BlocksToVisit(bs[0])) <= SEGMENT_BLOCKS then Cleaned else NoSpace)
            && ((forall a: nat :: a != 0 && SegOf(a) == k ==> !PointedAt(f', a)) <==>
                |f.log.buf| + LiveFrom(f, k, bs, 1, BlocksToVisit(bs[0])) <= SEGMENT_BLOCKS)
  {
    var bs := ReadSegment(f.log.disk, k);
    var n := BlocksToVisit(bs[0]);
    var f1 := Started(f, k);
    StartFacts(f, k);
    ReadonlyLoop(f1, k, bs, 1, n);
    LiveUnaffected(f, f1, k, bs, 1, n);
    if Allocates(f1, k, bs, 1, n) {
      CleaningPreservesContents(f, k);
    } else {
      var f2 := CleanFrom(f1, k, bs, 1, n).0;
      var a: nat :| a != 0 && SegOf(a) == k && PointedAt(f2, a);
      assert PointedAt(CleanSegment(f, k).0, a);
    }
  }

  /**
   * Cleanings that copy nothing: there is no such segment; it is not FULL any more; it has no
   * live blocks and becomes FREE; it has no valid summary and stays as it is.
   */
  lemma CleaningRefuses(f: Fs, k: nat)
    requires Sound(f)
    ensures k >= |f.log.table| ==> CleanSegment(f, k) == (f, InvalidSegment)
    ensures k < |f.log.table| && !f.log.table[k].state.Full? ==> CleanSegment(f, k) == (f, Cleaned)
    ensures k < |f.log.table| && f.log.table[k].state.Full? && f.log.table[k].live == 0 ==>
              CleanSegment(f, k) ==
                (f.(log := f.log.(table := f.log.table[k := f.log.table[k].(state := Free)], freeCount := f.log.freeCount + 1)),
                 Cleaned)
    ensures var s := DiskAt(f.log.disk, SegmentToBlock(k, 0));
            k < |f.log.table| && f.log.table[k].state.Full? && f.log.table[k].live > 0 && !(s.Summary? && s.magic == SEGMENT_MAGIC) ==>
              CleanSegment(f, k) == (f, CorruptSegment)
  {
    hide CleanFrom;
  }

  /** Cleaning visits every block that the summary counts, and no more than a segment has. */
  lemma VisitsSegment(s: Block)
    requires s.Summary?
    ensures s.blockCount <= 1024 && s.blockCount > 0 ==> BlocksToVisit(s) == s.blockCount
    ensures s.blockCount > 1024 ==> BlocksToVisit(s) == 1024
    ensures s.blockCount == 0 ==> BlocksToVisit(s) == 1
  {
  }
}
