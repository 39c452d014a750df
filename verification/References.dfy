/**
 * Which references the copying cleaner (src/gc.c) follows, exactly: those that the
 * summary records as an inode image or a direct block. All others into the segment stay
 * where they are and dangle once it is FREE.
 */
module References {
  import opened Layout
  import opened Log
  import opened FileSystem
  import opened Cleaner

  /** A place that holds a block address: inode map entry, direct pointer, pointer to a pointer block, word of one. */
  datatype Ref = MapRef(ino: nat) | DirectRef(ino: nat, idx: nat) | PointerRef(ino: nat) | WordRef(ino: nat, j: nat)

  /** The address a reference holds; 0 is none. */
  function Target(f: Fs, ref: Ref): nat
  {
    match ref
    case MapRef(ino) => if ino in f.inodeMap then f.inodeMap[ino] else 0
    case DirectRef(ino, idx) =>
      if ino in f.icache && idx < |f.icache[ino].disk.direct| then f.icache[ino].disk.direct[idx] else 0
    case PointerRef(ino) => if ino in f.icache then f.icache[ino].disk.indirect else 0
    case WordRef(ino, j) =>
      if ino in f.icache && f.icache[ino].disk.indirect != 0 && j < WORDS_PER_BLOCK
      then Words(Overlay(f.log, f.icache[ino].disk.indirect))[j] else 0
  }

  /** The summary records block `i` as the inode image or the direct block that the reference is to. */
  predicate RecordedAs(s: Block, i: nat, ref: Ref)
    requires i >= 1
  {
    var r := RecordAt(s, i - 1);
    match ref
    case MapRef(ino) => r.ino == ino != 0 && r.kind.InodeBlock?
    case DirectRef(ino, idx) => r == BlockInfo(ino, idx, DataBlock) && ino != 0 && idx < DIRECT_BLOCKS
    case _ => false
  }

  /** Cached inodes have twelve direct pointers, and their pointer blocks are in use. */
  ghost predicate Regular(f: Fs)
  {
    && Valid(f.log)
    && forall ino :: ino in f.icache ==>
         WellFormed(f.icache[ino].disk) && (f.icache[ino].disk.indirect == 0 || Occupied(f.log, f.icache[ino].disk.indirect))
  }

  /** The state of the cleaning loop, whatever the records say. */
  ghost predicate Busy(f: Fs, k: nat, bs: seq<Block>)
  {
    && Regular(f) && k < |f.log.table| && k != f.log.seg && f.log.table[k].state.Cleaning?
    && bs == ReadSegment(f.log.disk, k)
  }

  /** The address is that of block `i` of segment `k` with `lo <= i < hi`, and is recorded as the reference. */
  predicate Followed(s: Block, k: nat, lo: nat, hi: nat, a: nat, ref: Ref)
    requires lo >= 1
  {
    a >= LOG_START && SegOf(a) == k && lo <= OffOf(a) < hi && RecordedAs(s, OffOf(a), ref)
  }

  /** The reference was moved out of segment `k` and leads to the same content. */
  predicate MovedTo(f: Fs, f': Fs, k: nat, ref: Ref)
  {
    && Target(f', ref) != 0 && SegOf(Target(f', ref)) != k && Occupied(f'.log, Target(f', ref))
    && Overlay(f'.log, Target(f', ref)) == Overlay(f.log, Target(f, ref))
  }

  // --------------------------------------------------------------- one round

  lemma AppendBusy(f: Fs, k: nat, bs: seq<Block>, data: Block, r: BlockInfo)
    requires Busy(f, k, bs) && CanAppend(f.log)
    ensures var (f1, b) := AppendFs(f, data, r);
            && Busy(f1, k, bs) && Extends(f.log, f1.log) && f1.inodeMap == f.inodeMap && f1.icache == f.icache
            && b != 0 && SegOf(b) != k && Occupied(f1.log, b) && Overlay(f1.log, b) == data
  {
    hide AppendFs;
    AppendFsFacts(f, data, r);
    AppendTouches(f, data, r, k);
    assert ReadSegment(AppendFs(f, data, r).0.log.disk, k) == bs;
  }

  /** Appending leaves every reference alone. */
  lemma TargetsKept(f: Fs, f1: Fs, ref: Ref)
    requires Regular(f) && Extends(f.log, f1.log) && f1.inodeMap == f.inodeMap && f1.icache == f.icache
    ensures Target(f1, ref) == Target(f, ref)
  {
  }

  lemma BlockOfSegment(l: State, k: nat, bs: seq<Block>, i: nat)
    requires k != l.seg && bs == ReadSegment(l.disk, k) && 1 <= i < SEGMENT_BLOCKS
    ensures Overlay(l, SegmentToBlock(k, i)) == bs[i]
  {
  }

  lemma RoundFollows(f: Fs, k: nat, bs: seq<Block>, i: nat, ref: Ref)
    requires Busy(f, k, bs) && 1 <= i < SEGMENT_BLOCKS
    requires Live(f, RecordAt(bs[0], i - 1), SegmentToBlock(k, i)) ==> CanAppend(f.log)
    ensures var a := SegmentToBlock(k, i);
            var (f', ok) := CleanBlock(f, bs[i], RecordAt(bs[0], i - 1), a);
            && ok && Busy(f', k, bs) && Extends(f.log, f'.log)
            && if Target(f, ref) == a && RecordedAs(bs[0], i, ref) then MovedTo(f, f', k, ref)
               else Target(f', ref) == Target(f, ref)
  {
    hide AppendFs, Extends, Overlay, Occupied;
    var a, r := SegmentToBlock(k, i), RecordAt(bs[0], i - 1);
    if Live(f, r, a) {
      AppendBusy(f, k, bs, bs[i], r);
      var f1 := AppendFs(f, bs[i], r).0;
      TargetsKept(f, f1, ref);
      BlockOfSegment(f.log, k, bs, i);
    } else {
      ExtendsItself(f.log);
    }
  }

  lemma ExtendsItself(l: State)
    ensures Extends(l, l)
  {
  }

  // ---------------------------------------------------------------- the loop

  lemma AddressIs(a: nat, k: nat, i: nat)
    requires i < SEGMENT_BLOCKS
    ensures a == SegmentToBlock(k, i) <==> a >= LOG_START && SegOf(a) == k && OffOf(a) == i
  {
    Address(a);
  }

  /** What is outside segment `k` stays as it is. */
  lemma {:induction false} LoopFollows(f: Fs, k: nat, bs: seq<Block>, i: nat, n: nat, ref: Ref)
    requires Busy(f, k, bs) && 1 <= i <= n <= SEGMENT_BLOCKS && Allocates(f, k, bs, i, n)
    ensures var (f', ok) := CleanFrom(f, k, bs, i, n);
            && ok && Busy(f', k, bs) && Extends(f.log, f'.log)
            && if Followed(bs[0], k, i, n, Target(f, ref), ref) then MovedTo(f, f', k, ref)
               else Target(f', ref) == Target(f, ref)
    decreases n - i
  {
    if i == n {
      ExtendsItself(f.log);
    } else {
      hide Busy, Extends, CleanBlock, Overlay, Occupied, Target, RecordedAs, Live, MovedTo, Followed;
      RoundFollows(f, k, bs, i, ref);
      FollowedSplit(bs[0], k, i, n, Target(f, ref), ref);
      var f1 := CleanBlock(f, bs[i], RecordAt(bs[0], i - 1), SegmentToBlock(k, i)).0;
      LoopFollows(f1, k, bs, i + 1, n, ref);
      var f' := CleanFrom(f, k, bs, i, n).0;
      ExtendsTransitive(f.log, f1.log, f'.log);
      if Target(f, ref) == SegmentToBlock(k, i) && RecordedAs(bs[0], i, ref) {
        MovedOutside(f, f1, k, ref);
        FollowedSplit(bs[0], k, i, n, Target(f1, ref), ref);
        MovedStays(f, f1, f', k, ref);
      } else if Followed(bs[0], k, i + 1, n, Target(f, ref), ref) {
        SameTarget(f, f1, f', k, bs, ref);
      }
    }
  }

  lemma FollowedSplit(s: Block, k: nat, i: nat, n: nat, a: nat, ref: Ref)
    requires 1 <= i < n <= SEGMENT_BLOCKS
    ensures Followed(s, k, i, n, a, ref) <==>
              (a == SegmentToBlock(k, i) && RecordedAs(s, i, ref)) || Followed(s, k, i + 1, n, a, ref)
    ensures a == SegmentToBlock(k, i) || SegOf(a) != k ==> !Followed(s, k, i + 1, n, a, ref)
    ensures Followed(s, k, i + 1, n, a, ref) ==> a >= LOG_START && SegOf(a) == k
  {
    hide RecordedAs;
    AddressIs(a, k, i);
  }

  lemma MovedOutside(f: Fs, f': Fs, k: nat, ref: Ref)
    requires MovedTo(f, f', k, ref)
    ensures SegOf(Target(f', ref)) != k
  {
  }

  lemma MovedStays(f: Fs, f1: Fs, f': Fs, k: nat, ref: Ref)
    requires MovedTo(f, f1, k, ref) && Target(f', ref) == Target(f1, ref) && Extends(f1.log, f'.log)
    ensures MovedTo(f, f', k, ref)
  {
  }

  lemma SameTarget(f: Fs, f1: Fs, f': Fs, k: nat, bs: seq<Block>, ref: Ref)
    requires Busy(f, k, bs) && Busy(f1, k, bs) && Target(f1, ref) == Target(f, ref) && MovedTo(f1, f', k, ref)
    requires Target(f, ref) >= LOG_START && SegOf(Target(f, ref)) == k
    ensures MovedTo(f, f', k, ref)
  {
    var a := Target(f, ref);
    Address(a);
    assert DiskAt(f.log.disk, a) == bs[OffOf(a)] == DiskAt(f1.log.disk, a);
  }

  // ------------------------------------------------------------ the theorem

  /** A FULL segment with live blocks and a valid summary. */
  predicate Summarized(f: Fs, k: nat)
  {
    && k < |f.log.table| && f.log.table[k].state.Full? && f.log.table[k].live > 0
    && var s := DiskAt(f.log.disk, SegmentToBlock(k, 0));
       s.Summary? && s.magic == SEGMENT_MAGIC
  }

  /** Every append of the cleaning finds room, or a segment to continue in. */
  predicate CopyingAllocates(f: Fs, k: nat)
    requires Sound(f) && Summarized(f, k)
  {
    var bs := ReadSegment(f.log.disk, k);
    Allocates(Started(f, k), k, bs, 1, BlocksToVisit(bs[0]))
  }

  lemma StartBusy(f: Fs, k: nat)
    requires Regular(f) && Summarized(f, k)
    ensures Busy(Started(f, k), k, ReadSegment(f.log.disk, k))
    ensures forall ref :: Target(Started(f, k), ref) == Target(f, ref)
    ensures forall a: nat :: Overlay(Started(f, k).log, a) == Overlay(f.log, a)
  {
    CountFreeUpdate(f.log.table, k, f.log.table[k].(state := SegState.Cleaning));
  }

  lemma FinishTargets(f: Fs, k: nat, ref: Ref)
    ensures Target(f.(log := FinishCleaning(f.log, k)), ref) == Target(f, ref)
    ensures forall a: nat :: Overlay(FinishCleaning(f.log, k), a) == Overlay(f.log, a)
  {
  }

  /**
   * Cleaning any FULL segment with a valid summary, on an allocating run: the segment
   * becomes FREE. A reference into it still leads into it if and only if the summary does
   * not record its block as that inode's image or direct block; if it does, the reference
   * leads to a copy outside. References to other places stay as they are.
   */
  lemma CleaningFollows(f: Fs, k: nat, ref: Ref)
    requires Regular(f) && Summarized(f, k) && CopyingAllocates(f, k)
    ensures var (f', r) := CleanSegment(f, k);
            var s := DiskAt(f.log.disk, SegmentToBlock(k, 0));
            var a := Target(f, ref);
            && r == Cleaned && k < |f'.log.table| && f'.log.table[k].state.Free?
            && (a >= LOG_START && SegOf(a) == k ==>
                  (Target(f', ref) == a <==> !Followed(s, k, 1, BlocksToVisit(s), a, ref)))
            && (Followed(s, k, 1, BlocksToVisit(s), a, ref) ==>
                  SegOf(Target(f', ref)) != k && Overlay(f'.log, Target(f', ref)) == Overlay(f.log, a))
            && (!(a >= LOG_START && SegOf(a) == k) ==> Target(f', ref) == a)
  {
    hide Busy, Extends, CleanFrom, Overlay, Occupied, Target, RecordedAs, Regular;
    var bs := ReadSegment(f.log.disk, k);
    var n := BlocksToVisit(bs[0]);
    var f1 := Started(f, k);
    StartBusy(f, k);
    BusyTable(f1, k, bs);
    LoopFollows(f1, k, bs, 1, n, ref);
    var f2 := CleanFrom(f1, k, bs, 1, n).0;
    BusyTable(f2, k, bs);
    FinishTargets(f2, k, ref);
  }

  lemma BusyTable(f: Fs, k: nat, bs: seq<Block>)
    requires Busy(f, k, bs)
    ensures k < |f.log.table| && Sound(f)
  {
  }

  // ------------------------------------------------------- two failing inputs

  lemma {:induction false} NoRecordsAllocate(f: Fs, k: nat, bs: seq<Block>, i: nat, n: nat)
    requires Sound(f) && |bs| == SEGMENT_BLOCKS && 1 <= i <= n <= SEGMENT_BLOCKS
    requires bs[0].Summary? && bs[0].infos == []
    ensures Allocates(f, k, bs, i, n)
    decreases n - i
  {
    if i < n {
      NoRecordsAllocate(f, k, bs, i + 1, n);
    }
  }

  /**
   * A segment that was flushed with more than 339 blocks, as every segment that fills up
   * is: its summary has no records, so it is freed with every reference into it in place.
   */
  lemma LongSegmentIsLost(f: Fs, k: nat, l: State, now: nat, ref: Ref)
    requires Regular(f) && Summarized(f, k)
    requires DiskAt(f.log.disk, SegmentToBlock(k, 0)) == SummaryOf(l, now) && |l.info| - 1 > SUMMARY_RECORDS
    ensures var (f', r) := CleanSegment(f, k);
            r == Cleaned && k < |f'.log.table| && f'.log.table[k].state.Free? && Target(f', ref) == Target(f, ref)
  {
    var bs := ReadSegment(f.log.disk, k);
    assert bs[0] == SummaryOf(l, now);
    NoRecordsAllocate(Started(f, k), k, bs, 1, BlocksToVisit(bs[0]));
    hide CleanSegment, Allocates, Regular;
    CleaningFollows(f, k, ref);
  }

  /** The first segment of a formatted disk: the root inode, and its directory block recorded as such. */
  predicate FormattedSegment(f: Fs)
  {
    && 0 < |f.log.table| && f.log.table[0].state.Full? && f.log.table[0].live > 0
    && var s := DiskAt(f.log.disk, LOG_START);
    && s.Summary? && s.magic == SEGMENT_MAGIC && s.blockCount == 3
    && s.infos == [BlockInfo(ROOT_INO, 0, InodeBlock), BlockInfo(ROOT_INO, 0, DirentBlock)]
    && ROOT_INO in f.inodeMap && f.inodeMap[ROOT_INO] == LOG_START + 1
    && ROOT_INO in f.icache && |f.icache[ROOT_INO].disk.direct| > 0 && f.icache[ROOT_INO].disk.direct[0] == LOG_START + 2
  }

  /** Cleaning it moves the root inode and frees the block of the root directory with the root still pointing at it. */
  lemma RootDirectoryIsLost(f: Fs)
    requires Regular(f) && FormattedSegment(f) && Summarized(f, 0) && CopyingAllocates(f, 0)
    ensures var (f', r) := CleanSegment(f, 0);
            && r == Cleaned && 0 < |f'.log.table| && f'.log.table[0].state.Free?
            && SegOf(Target(f', MapRef(ROOT_INO))) != 0
            && Target(f', DirectRef(ROOT_INO, 0)) == LOG_START + 2
  {
    hide CleanSegment, CopyingAllocates, Regular, Overlay;
    AddressIs(LOG_START + 1, 0, 1);
    AddressIs(LOG_START + 2, 0, 2);
    CleaningFollows(f, 0, MapRef(ROOT_INO));
    CleaningFollows(f, 0, DirectRef(ROOT_INO, 0));
  }
}
