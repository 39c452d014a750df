/**
 * Recovery (src/checkpoint.c): after loading a checkpoint, the segments written since
 * are replayed from their summaries into the inode map and the segment table.
 */
module RollForward {
  import opened Layout
  import opened Log

  /** What recovery changes. */
  datatype Recovered = Recovered(inodes: map<nat, nat>, table: seq<Usage>, freeCount: nat, logHead: nat)

  function SummaryAt(disk: Disk, seg: nat): Block
  {
    DiskAt(disk, SegmentToBlock(seg, 0))
  }

  /** The segment continues the log: a summary, not older than the checkpoint. */
  predicate Continues(disk: Disk, seg: nat, since: nat)
  {
    var s := SummaryAt(disk, seg);
    s.Summary? && s.magic == SEGMENT_MAGIC && s.timestamp >= since
  }

  /** The number of records looked at; a block count of 0 wraps around 32 bits. */
  function RecordCount(blockCount: nat): (n: nat)
    ensures n <= SUMMARY_RECORDS
  {
    var n := (blockCount + UINT32 - 1) % UINT32;
    if n > SUMMARY_RECORDS then SUMMARY_RECORDS else n
  }

  predicate InodeRecord(i: BlockInfo)
  {
    i.kind.InodeBlock? && i.ino > 0
  }

  /** The inode map after the first `n` records of segment `seg`. */
  function ReplayRecords(m: map<nat, nat>, s: Block, seg: nat, n: nat): map<nat, nat>
  {
    if n == 0 then m
    else
      var m1 := ReplayRecords(m, s, seg, n - 1);
      var i := RecordAt(s, n - 1);
      if InodeRecord(i) then m1[i.ino := SegmentToBlock(seg, n)] else m1
  }

  /** One segment: its inode records, its table entry, the free count and the log head. */
  function ReplaySegment(r: Recovered, s: Block, seg: nat): Recovered
    requires seg < |r.table|
  {
    if !s.Summary? then r
    else Recovered(
      ReplayRecords(r.inodes, s, seg, RecordCount(s.blockCount)),
      r.table[seg := Usage(Full, (s.blockCount + UINT32 - 1) % UINT32, s.timestamp)],
      if r.freeCount > 0 then r.freeCount - 1 else 0,
      SegmentToBlock(seg, 0) + s.blockCount)
  }

  /** The segments from `seg` up to `end`, in order. */
  function Replay(r: Recovered, disk: Disk, seg: nat, end: nat): (r': Recovered)
    requires seg <= end <= |r.table|
    ensures |r'.table| == |r.table|
    decreases end - seg
  {
    if seg == end then r else ReplaySegment(Replay(r, disk, seg, end - 1), SummaryAt(disk, end - 1), end - 1)
  }

  /** Where the run of segments that continue the log ends. */
  function RunEnd(disk: Disk, seg: nat, total: nat, since: nat): (end: nat)
    requires seg <= total
    ensures seg <= end <= total
    ensures forall k :: seg <= k < end ==> Continues(disk, k, since)
    ensures end == total || !Continues(disk, end, since)
    decreases total - seg
  {
    if seg == total || !Continues(disk, seg, since) then seg else RunEnd(disk, seg + 1, total, since)
  }

  /** The scan starts in the segment of the log head; a head past the last segment scans nothing. */
  function FirstSegment(logHead: nat, total: nat): (k: nat)
    ensures k <= total
  {
    var k := BlockToSegment(logHead).0;
    if k <= total then k else total
  }

  /** lsfs_checkpoint_recover between loading the checkpoint and writing a fresh one. */
  function Recover(r: Recovered, disk: Disk, since: nat): Recovered
  {
    var first := FirstSegment(r.logHead, |r.table|);
    Replay(r, disk, first, RunEnd(disk, first, |r.table|, since))
  }

  function Limit(total: nat, readable: nat): (n: nat)
    ensures n <= total
  {
    if readable < total then readable else total
  }

  /** The same when the summary of segment `readable` cannot be read: the scan goes no further. */
  function RecoverUpto(r: Recovered, disk: Disk, since: nat, readable: nat): Recovered
  {
    var first := FirstSegment(r.logHead, |r.table|);
    var limit := Limit(|r.table|, readable);
    if first > limit then r else Replay(r, disk, first, RunEnd(disk, first, limit, since))
  }

  /** If all summaries can be read, the scan is complete. */
  lemma AllReadable(r: Recovered, disk: Disk, since: nat, readable: nat)
    requires readable >= |r.table|
    ensures RecoverUpto(r, disk, since, readable) == Recover(r, disk, since)
  {
  }

  class Recovery {
    var disk: Disk
    var inodes: map<nat, nat>
    var table: seq<Usage>
    var freeCount: nat
    var logHead: nat
    var lastCheckpoint: nat

    ghost function State(): Recovered
      reads this
    {
      Recovered(inodes, table, freeCount, logHead)
    }

    constructor (disk: Disk, loaded: Recovered, lastCheckpoint: nat)
      ensures State() == loaded && this.disk == disk && this.lastCheckpoint == lastCheckpoint
    {
      this.disk, this.lastCheckpoint := disk, lastCheckpoint;
      inodes, table, freeCount, logHead := loaded.inodes, loaded.table, loaded.freeCount, loaded.logHead;
    }

    /** Enters the inode records of one summary into the inode map. */
    method ReplaySummary(s: Block, seg: nat)
      requires s.Summary?
      modifies this`inodes
      ensures inodes == ReplayRecords(old(inodes), s, seg, RecordCount(s.blockCount))
    {
      var n := (s.blockCount + UINT32 - 1) % UINT32;
      if n > SUMMARY_RECORDS {
        n := SUMMARY_RECORDS;
      }
      var i := 0;
      while i < n
        invariant 0 <= i <= n && inodes == ReplayRecords(old(inodes), s, seg, i)
      {
        var info := RecordAt(s, i);
        if info.kind.InodeBlock? && info.ino > 0 {
          inodes := inodes[info.ino := SegmentToBlock(seg, 0) + i + 1];
        }
        i := i + 1;
      }
    }

    /** The scan over the segments, up to `readable`, the first one whose summary cannot be read. */
    method Run(readable: nat)
      modifies this`inodes, this`table, this`freeCount, this`logHead
      ensures State() == RecoverUpto(old(State()), disk, lastCheckpoint, readable)
    {
      hide ReplayRecords, RecordCount;
      var total := |table|;
      var start := BlockToSegment(logHead).0;
      ghost var r0 := State();
      ghost var limit := Limit(total, readable);
      ghost var end := if start <= limit then RunEnd(disk, start, limit, lastCheckpoint) else start;
      var seg := start;
      while seg < total
        invariant start <= seg <= end
        invariant start > limit ==> State() == r0
        invariant start <= limit ==> State() == Replay(r0, disk, start, seg)
        invariant |table| == total
      {
        if seg >= readable {
          break;
        }
        var s := DiskAt(disk, SegmentToBlock(seg, 0));
        assert Continues(disk, seg, lastCheckpoint) <==> s.Summary? && s.magic == SEGMENT_MAGIC && s.timestamp >= lastCheckpoint;
        if !s.Summary? || s.magic != SEGMENT_MAGIC {
          break;
        }
        if s.timestamp < lastCheckpoint {
          break;
        }
        ReplaySummary(s, seg);
        logHead := SegmentToBlock(seg, 0) + s.blockCount;
        table := table[seg := Usage(Full, (s.blockCount + UINT32 - 1) % UINT32, s.timestamp)];
        if freeCount > 0 {
          freeCount := freeCount - 1;
        }
        seg := seg + 1;
      }
    }
  }

  // -------------------------------------------------------- the fold it computes

  /** Record `i` of segment `seg` is an inode record of `ino`. */
  predicate Records(disk: Disk, seg: nat, i: nat, ino: nat)
  {
    var s := SummaryAt(disk, seg);
    && s.Summary? && i < RecordCount(s.blockCount)
    && InodeRecord(RecordAt(s, i)) && RecordAt(s, i).ino == ino
  }

  function Lookup(m: map<nat, nat>, ino: nat): nat
  {
    if ino in m then m[ino] else 0
  }

  /** No record of `ino` among the first `n` of a summary from `i` on. */
  predicate NoneFrom(s: Block, i: nat, n: nat, ino: nat)
  {
    forall j :: i <= j < n ==> !(InodeRecord(RecordAt(s, j)) && RecordAt(s, j).ino == ino)
  }

  lemma {:induction false} RecordsUntouched(m: map<nat, nat>, s: Block, seg: nat, i: nat, n: nat, ino: nat)
    requires i <= n && NoneFrom(s, i, n, ino)
    ensures ino in ReplayRecords(m, s, seg, n) <==> ino in ReplayRecords(m, s, seg, i)
    ensures Lookup(ReplayRecords(m, s, seg, n), ino) == Lookup(ReplayRecords(m, s, seg, i), ino)
  {
    if i < n {
      RecordsUntouched(m, s, seg, i, n - 1, ino);
    }
  }

  /** No record of `ino` in segment `k` from record `i` on. */
  ghost predicate NoRecord(disk: Disk, k: nat, i: nat, ino: nat)
  {
    forall j :: i <= j ==> !Records(disk, k, j, ino)
  }

  lemma NoRecordFacts(disk: Disk, k: nat, i: nat, ino: nat)
    requires NoRecord(disk, k, i, ino) && SummaryAt(disk, k).Summary?
    ensures NoneFrom(SummaryAt(disk, k), i, RecordCount(SummaryAt(disk, k).blockCount), ino)
  {
    var s := SummaryAt(disk, k);
    forall j | i <= j < RecordCount(s.blockCount)
      ensures !(InodeRecord(RecordAt(s, j)) && RecordAt(s, j).ino == ino)
    {
      assert !Records(disk, k, j, ino);
    }
  }

  /** Segments without a record of `ino` leave its location alone. */
  lemma {:induction false} ReplayUntouched(r: Recovered, disk: Disk, seg: nat, mid: nat, end: nat, ino: nat)
    requires seg <= mid <= end <= |r.table|
    requires forall k :: mid <= k < end ==> NoRecord(disk, k, 0, ino)
    ensures ino in Replay(r, disk, seg, end).inodes <==> ino in Replay(r, disk, seg, mid).inodes
    ensures Lookup(Replay(r, disk, seg, end).inodes, ino) == Lookup(Replay(r, disk, seg, mid).inodes, ino)
    decreases end
  {
    if mid < end {
      ReplayUntouched(r, disk, seg, mid, end - 1, ino);
      var r1 := Replay(r, disk, seg, end - 1);
      var s := SummaryAt(disk, end - 1);
      if s.Summary? {
        NoRecordFacts(disk, end - 1, 0, ino);
        RecordsUntouched(r1.inodes, s, end - 1, 0, RecordCount(s.blockCount), ino);
      }
    }
  }

  /**
   * Roll-forward is a fold over exactly the longest run of segments that continue the
   * log: an inode ends at its last record in that run, in segment and then record
   * order, and keeps its checkpoint location when the run has no record of it.
   */
  lemma LastRecordWins(r: Recovered, disk: Disk, since: nat, ino: nat, k: nat, i: nat)
    ensures var first := FirstSegment(r.logHead, |r.table|);
            var end := RunEnd(disk, first, |r.table|, since);
            var m := Recover(r, disk, since).inodes;
            && ((forall j :: first <= j < end ==> NoRecord(disk, j, 0, ino)) ==>
                  (ino in m <==> ino in r.inodes) && Lookup(m, ino) == Lookup(r.inodes, ino))
            && (first <= k < end && Records(disk, k, i, ino) && NoRecord(disk, k, i + 1, ino)
                && (forall j :: k < j < end ==> NoRecord(disk, j, 0, ino)) ==>
                  ino in m && m[ino] == SegmentToBlock(k, i + 1))
  {
    var first := FirstSegment(r.logHead, |r.table|);
    var end := RunEnd(disk, first, |r.table|, since);
    if forall j :: first <= j < end ==> NoRecord(disk, j, 0, ino) {
      ReplayUntouched(r, disk, first, first, end, ino);
    }
    if first <= k < end && Records(disk, k, i, ino) && NoRecord(disk, k, i + 1, ino)
       && (forall j :: k < j < end ==> NoRecord(disk, j, 0, ino)) {
      var s := SummaryAt(disk, k);
      NoRecordFacts(disk, k, i + 1, ino);
      RecordsUntouched(Replay(r, disk, first, k).inodes, s, k, i + 1, RecordCount(s.blockCount), ino);
      ReplayUntouched(r, disk, first, k + 1, end, ino);
    }
  }

  /** The location of an inode after replay depends on the map before only if the run has no record of it. */
  lemma {:induction false} ReplayForgets(r: Recovered, r': Recovered, disk: Disk, seg: nat, end: nat, ino: nat)
    requires seg <= end <= |r.table| == |r'.table|
    requires (exists k :: seg <= k < end && !NoRecord(disk, k, 0, ino)) ||
             ((ino in r.inodes <==> ino in r'.inodes) && Lookup(r.inodes, ino) == Lookup(r'.inodes, ino))
    ensures var m, m' := Replay(r, disk, seg, end).inodes, Replay(r', disk, seg, end).inodes;
            (ino in m <==> ino in m') && Lookup(m, ino) == Lookup(m', ino)
    decreases end
  {
    if seg < end {
      var s := SummaryAt(disk, end - 1);
      var m, m' := Replay(r, disk, seg, end - 1).inodes, Replay(r', disk, seg, end - 1).inodes;
      var last := end - 1;
      if !NoRecord(disk, last, 0, ino) {
        var i :| 0 <= i && Records(disk, last, i, ino);
        RecordsForget(m, m', s, last, RecordCount(s.blockCount), ino, i);
      } else {
        ReplayForgets(r, r', disk, seg, last, ino);
        if s.Summary? {
          NoRecordFacts(disk, last, 0, ino);
          RecordsUntouched(m, s, end - 1, 0, RecordCount(s.blockCount), ino);
          RecordsUntouched(m', s, end - 1, 0, RecordCount(s.blockCount), ino);
        }
      }
    }
  }

  lemma {:induction false} RecordsForget(m: map<nat, nat>, m': map<nat, nat>, s: Block, seg: nat, n: nat, ino: nat, i: nat)
    requires i < n && InodeRecord(RecordAt(s, i)) && RecordAt(s, i).ino == ino
    ensures var a, b := ReplayRecords(m, s, seg, n), ReplayRecords(m', s, seg, n);
            ino in a && ino in b && a[ino] == b[ino]
    decreases n
  {
    if i < n - 1 {
      RecordsForget(m, m', s, seg, n - 1, ino, i);
    }
  }

  /** Replaying the same run again changes no location. */
  lemma ReplayTwice(r: Recovered, disk: Disk, seg: nat, end: nat)
    requires seg <= end <= |r.table|
    ensures var once := Replay(r, disk, seg, end);
            Replay(once, disk, seg, end).inodes == once.inodes
  {
    var once := Replay(r, disk, seg, end);
    var twice := Replay(once, disk, seg, end);
    forall ino: nat
      ensures (ino in twice.inodes <==> ino in once.inodes) && Lookup(twice.inodes, ino) == Lookup(once.inodes, ino)
    {
      if forall k :: seg <= k < end ==> NoRecord(disk, k, 0, ino) {
        ReplayUntouched(r, disk, seg, seg, end, ino);
      }
      ReplayForgets(once, r, disk, seg, end, ino);
    }
  }

  /** The scan from segment `first` comes to segment `k`. */
  predicate Replayed(disk: Disk, first: nat, total: nat, since: nat, k: nat)
    requires first <= total
  {
    first <= k < RunEnd(disk, first, total, since)
  }

  /** A segment is replayed if and only if everything from the log head's segment up to it continues the log. */
  lemma {:induction false} SegmentIsReplayed(disk: Disk, first: nat, total: nat, since: nat, k: nat)
    requires first <= total && k < total
    ensures Replayed(disk, first, total, since, k) <==>
            first <= k && forall j :: first <= j <= k ==> Continues(disk, j, since)
  {
    var end := RunEnd(disk, first, total, since);
    if first <= k && end <= k {
      assert !Continues(disk, end, since);
    }
  }

  /**
   * A summary written by flush reads back as the block infos of the buffer when there
   * are at most 339 of them, and otherwise holds no record at all, so that recovery
   * finds no inode of such a segment.
   */
  lemma FlushedSummary(l: State, now: nat, i: nat)
    requires Valid(l) && |l.buf| > 1 && CanFlush(l)
    ensures var s := SummaryAt(Flush(l, now).0.disk, l.seg);
            && s == SummaryOf(l, now) && s.magic == SEGMENT_MAGIC && s.timestamp == now
            && (|l.buf| - 1 <= SUMMARY_RECORDS ==>
                  RecordCount(s.blockCount) == |l.buf| - 1 &&
                  (i < |l.buf| - 1 ==> RecordAt(s, i) == l.info[i + 1]))
            && (|l.buf| - 1 > SUMMARY_RECORDS ==> !InodeRecord(RecordAt(s, i)))
  {
    hide Flush, CountFree;
    FlushMovesOn(l, now);
    assert DiskAt(WriteOut(l, now).disk, SegmentToBlock(l.seg, 0)) == ([SummaryOf(l, now)] + l.buf[1..])[0];
  }

  // -------------------------------------------------- the segment table

  /** Number of segments in `seg..end` that were FREE. */
  function FreeIn(t: seq<Usage>, seg: nat, end: nat): nat
    requires seg <= end <= |t|
    decreases end - seg
  {
    if seg == end then 0 else FreeIn(t, seg, end - 1) + (if t[end - 1].state.Free? then 1 else 0)
  }

  lemma {:induction false} CounterAfterReplay(r: Recovered, disk: Disk, seg: nat, end: nat, since: nat)
    requires seg <= end <= |r.table|
    requires forall k :: seg <= k < end ==> Continues(disk, k, since)
    ensures Replay(r, disk, seg, end).freeCount == if r.freeCount > end - seg then r.freeCount - (end - seg) else 0
    ensures FreeIn(r.table, seg, end) <= end - seg
    decreases end
  {
    if seg < end {
      var last := end - 1;
      CounterAfterReplay(r, disk, seg, last, since);
      assert Continues(disk, last, since);
    }
  }

  lemma {:induction false} CountAfterReplay(r: Recovered, disk: Disk, seg: nat, end: nat, since: nat)
    requires seg <= end <= |r.table|
    requires forall k :: seg <= k < end ==> Continues(disk, k, since)
    ensures CountFree(Replay(r, disk, seg, end).table) == CountFree(r.table) - FreeIn(r.table, seg, end)
    decreases end
  {
    if seg < end {
      var last := end - 1;
      CountAfterReplay(r, disk, seg, last, since);
      ReplayedStates(r, disk, seg, last, since, last);
      assert Continues(disk, last, since);
      CountAfterSegment(Replay(r, disk, seg, last), SummaryAt(disk, last), last);
    }
  }

  lemma CountAfterSegment(r: Recovered, s: Block, seg: nat)
    requires s.Summary? && seg < |r.table|
    ensures CountFree(ReplaySegment(r, s, seg).table) == CountFree(r.table) - (if r.table[seg].state.Free? then 1 else 0)
  {
    CountFreeUpdate(r.table, seg, Usage(Full, (s.blockCount + UINT32 - 1) % UINT32, s.timestamp));
  }

  /**
   * Recovery makes the free count an underestimate at most: it takes one off for every
   * replayed segment, FREE or not. The count is exact if and only if every replayed
   * segment was FREE, or no FREE segment is left.
   */
  lemma FreeCountExact(r: Recovered, disk: Disk, since: nat)
    requires r.freeCount == CountFree(r.table)
    ensures var first := FirstSegment(r.logHead, |r.table|);
            var end := RunEnd(disk, first, |r.table|, since);
            var r' := Recover(r, disk, since);
            && r'.freeCount <= CountFree(r'.table)
            && (r'.freeCount == CountFree(r'.table) <==>
                  FreeIn(r.table, first, end) == end - first || CountFree(r.table) == FreeIn(r.table, first, end))
  {
    var first := FirstSegment(r.logHead, |r.table|);
    var end := RunEnd(disk, first, |r.table|, since);
    CountAfterReplay(r, disk, first, end, since);
    CounterAfterReplay(r, disk, first, end, since);
  }

  /**
   * Mounting picks the segment to fill before it replays the log. That segment stays
   * ACTIVE exactly when the run does not contain it; otherwise recovery marks it FULL
   * while the buffer still targets it, and the next flush overwrites it.
   */
  lemma FilledSegmentAfterRecovery(r: Recovered, disk: Disk, since: nat, active: nat)
    requires active < |r.table| && r.table[active].state.Active?
    ensures var first := FirstSegment(r.logHead, |r.table|);
            var end := RunEnd(disk, first, |r.table|, since);
            Recover(r, disk, since).table[active].state.Active? <==> !(first <= active < end)
  {
    var first := FirstSegment(r.logHead, |r.table|);
    var end := RunEnd(disk, first, |r.table|, since);
    ReplayedStates(r, disk, first, end, since, active);
  }

  lemma {:induction false} ReplayedStates(r: Recovered, disk: Disk, seg: nat, end: nat, since: nat, k: nat)
    requires seg <= end <= |r.table| && k < |r.table|
    requires forall j :: seg <= j < end ==> Continues(disk, j, since)
    ensures var t := Replay(r, disk, seg, end).table;
            if seg <= k < end then t[k].state.Full? else t[k] == r.table[k]
    decreases end
  {
    if seg < end {
      var last := end - 1;
      ReplayedStates(r, disk, seg, last, since, k);
      assert Continues(disk, last, since);
    }
  }

  /** Every replayed segment is FULL, with all the blocks that its summary counts live, and as old as its summary. */
  lemma {:induction false} ReplayedEntries(r: Recovered, disk: Disk, seg: nat, end: nat, since: nat, k: nat)
    requires seg <= k < end <= |r.table|
    requires forall j :: seg <= j < end ==> Continues(disk, j, since)
    requires SummaryAt(disk, k).Summary? && 1 <= SummaryAt(disk, k).blockCount <= UINT32
    ensures Replay(r, disk, seg, end).table[k] == Usage(Full, SummaryAt(disk, k).blockCount - 1, SummaryAt(disk, k).timestamp)
    decreases end
  {
    var last := end - 1;
    assert Continues(disk, last, since) && Continues(disk, k, since);
    if k < last {
      ReplayedEntries(r, disk, seg, last, since, k);
    }
  }

  /** The log head moves behind the last replayed segment, and stays if there is none. */
  lemma HeadAfterReplay(r: Recovered, disk: Disk, since: nat)
    ensures var first := FirstSegment(r.logHead, |r.table|);
            var end := RunEnd(disk, first, |r.table|, since);
            Recover(r, disk, since).logHead ==
              if end == first then r.logHead
              else SegmentToBlock(end - 1, 0) + if SummaryAt(disk, end - 1).Summary? then SummaryAt(disk, end - 1).blockCount else 0
  {
    var first := FirstSegment(r.logHead, |r.table|);
    var end := RunEnd(disk, first, |r.table|, since);
    if first < end {
      var last := end - 1;
      assert Continues(disk, last, since);
    }
  }

  /** A scan that starts at anything but a segment summary changes nothing. */
  lemma NoSummaryStops(r: Recovered, disk: Disk, since: nat)
    requires var s := SummaryAt(disk, FirstSegment(r.logHead, |r.table|));
             !(s.Summary? && s.magic == SEGMENT_MAGIC)
    ensures Recover(r, disk, since) == r
  {
  }

  /** A log head past the last segment scans nothing. */
  lemma HeadPastTheEnd(r: Recovered, disk: Disk, since: nat)
    requires BlockToSegment(r.logHead).0 >= |r.table|
    ensures Recover(r, disk, since) == r
  {
  }
}
