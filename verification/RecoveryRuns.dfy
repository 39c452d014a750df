/**
 * What recovery brings back (src/checkpoint.c, src/segment.c): over runs of file
 * operations and flushes from a checkpoint, exactly when the inode map that roll-forward
 * recovers is the one that the file system had at its last flush.
 */
module RecoveryRuns {
  import opened Layout
  import opened Log
  import opened FileSystem
  import opened FsRuns
  import opened RollForward
  import StaleReads

  // ------------------------------------------------------------ one flush

  /** A flush is replayed if and only if it is not below the log head and everything in between continues the log. */
  lemma FlushIsReplayed(l: State, now: nat, since: nat, first: nat)
    requires Valid(l) && |l.buf| > 1 && CanFlush(l) && now >= since && first <= |l.table|
    ensures Replayed(Flush(l, now).0.disk, first, |l.table|, since, l.seg) <==>
            first <= l.seg && forall j :: first <= j < l.seg ==> Continues(l.disk, j, since)
  {
    var disk := Flush(l, now).0.disk;
    FlushedSummary(l, now, 0);
    forall j | first <= j < l.seg
      ensures Continues(disk, j, since) <==> Continues(l.disk, j, since)
    {
      OtherSummary(l, now, j);
    }
    SegmentIsReplayed(disk, first, |l.table|, since, l.seg);
  }

  /** A flush leaves the summaries of the other segments. */
  lemma OtherSummary(l: State, now: nat, k: nat)
    requires Valid(l) && |l.buf| > 1 && CanFlush(l) && k != l.seg
    ensures SummaryAt(Flush(l, now).0.disk, k) == SummaryAt(l.disk, k)
  {
    FlushMovesOn(l, now);
    var start := SegmentToBlock(l.seg, 0);
    assert !(start <= SegmentToBlock(k, 0) < start + |l.buf|);
  }

  lemma HeadSegment(seg: nat, n: nat, total: nat)
    requires seg < total < UINT32 && 1 < n <= SEGMENT_BLOCKS
    ensures FirstSegment(SegmentToBlock(seg, 0) + n, total) == if n < SEGMENT_BLOCKS then seg else seg + 1
  {
    var k := if n < SEGMENT_BLOCKS then seg else seg + 1;
    assert SegmentToBlock(seg, 0) + n == SegmentToBlock(k, if n < SEGMENT_BLOCKS then n else 0);
    assert k < UINT32;
  }

  /** The log head after a flush lies in the segment just written, unless that is full. */
  lemma HeadAfterFlush(l: State, now: nat)
    requires Valid(l) && |l.buf| > 1 && CanFlush(l)
    ensures FirstSegment(Flush(l, now).0.logHead, |l.table|) == if |l.buf| < SEGMENT_BLOCKS then l.seg else l.seg + 1
  {
    hide FirstSegment;
    HeadSegment(l.seg, |l.buf|, |l.table|);
  }

  /**
   * The failing input: while a segment was filled, a lower one became FREE. The flush after
   * the next goes there, below the log head, and is not replayed.
   */
  lemma LowerSegmentIsMissed(l: State, t: nat, l': State, now: nat, since: nat)
    requires Valid(l) && |l.buf| > 1 && CanFlush(l) && FirstFree(l.table) < l.seg
    requires var g := Flush(l, t).0; l' == g.(buf := l'.buf, info := l'.info) && Valid(l') && |l'.buf| > 1 && CanFlush(l')
    requires now >= since
    ensures var disk := Flush(l', now).0.disk;
            var first := FirstSegment(l'.logHead, |l'.table|);
            Continues(disk, l'.seg, since) && !Replayed(disk, first, |l'.table|, since, l'.seg)
  {
    FlushMovesOn(l, t);
    HeadAfterFlush(l, t);
    assert l'.seg == FirstFree(WriteOut(l, t).table);
    assert WriteOut(l, t).table[FirstFree(l.table)].state.Free?;
    FlushIsReplayed(l', now, since, FirstSegment(l'.logHead, |l'.table|));
    FlushedSummary(l', now, 0);
  }

  // ------------------------------------------------- the log since a checkpoint

  /** Segment `k` was written since state `l0`. */
  predicate WrittenSince(l0: State, l: State, k: nat)
  {
    && k < |l.table| == |l0.table| && l.table[k].state.Full?
    && (k == l0.seg || l0.table[k].state.Free?)
  }

  /** The summary has records for all blocks. */
  predicate Short(disk: Disk, k: nat)
  {
    SummaryAt(disk, k).Summary? && SummaryAt(disk, k).blockCount <= SUMMARY_RECORDS + 1
  }

  /** What a flush leaves in front of a segment. */
  predicate Stamped(disk: Disk, k: nat, since: nat)
  {
    && Continues(disk, k, since) && 2 <= SummaryAt(disk, k).blockCount <= SEGMENT_BLOCKS
    && (!Short(disk, k) ==> SummaryAt(disk, k).infos == [])
  }

  /** Segments written since lie below the one being filled, FREE ones above it; the rest is as it was. */
  predicate Placed(l0: State, l: State, since: nat, k: nat)
    requires k < |l.table| == |l0.table|
  {
    if WrittenSince(l0, l, k) then k < l.seg && Stamped(l.disk, k, since)
    else
      && SummaryAt(l.disk, k) == SummaryAt(l0.disk, k)
      && (l.table[k].state.Free? ==> k > l.seg)
      && if k == l0.seg || l0.table[k].state.Free? then k == l.seg || l.table[k].state.Free?
         else k != l.seg && !l.table[k].state.Free?
  }

  ghost predicate Grown(l0: State, l: State, since: nat)
  {
    && Valid(l0) && Valid(l) && |l.table| == |l0.table|
    && forall k :: 0 <= k < |l.table| ==> Placed(l0, l, since, k)
  }

  lemma FlushPlaces(l0: State, l: State, since: nat, now: nat, k: nat)
    requires Grown(l0, l, since) && |l.buf| > 1 && CanFlush(l) && now >= since && k < |l.table|
    ensures |Flush(l, now).0.table| == |l.table| && Placed(l0, Flush(l, now).0, since, k)
  {
    var l' := Flush(l, now).0;
    FlushMovesOn(l, now);
    assert l'.seg == FirstFree(WriteOut(l, now).table);
    assert Placed(l0, l, since, k) && Placed(l0, l, since, l.seg) && Placed(l0, l, since, l'.seg);
    FlushedSummary(l, now, 0);
    if k != l.seg {
      OtherSummary(l, now, k);
    }
  }

  lemma FlushGrows(l0: State, l: State, since: nat, now: nat)
    requires Grown(l0, l, since) && |l.buf| > 1 && CanFlush(l) && now >= since
    ensures Grown(l0, Flush(l, now).0, since)
  {
    hide Placed, Flush;
    FlushFacts(l, now);
    forall k | 0 <= k < |Flush(l, now).0.table|
      ensures Placed(l0, Flush(l, now).0, since, k)
    {
      FlushPlaces(l0, l, since, now, k);
    }
  }

  /** Only the part of the log that recovery and the inode map depend on. */
  predicate Alike(l: State, l': State)
  {
    && l'.disk == l.disk && l'.seg == l.seg && l'.info == l.info && |l'.buf| == |l.buf| && |l'.table| == |l.table|
    && forall k :: 0 <= k < |l.table| ==> l'.table[k].state == l.table[k].state
  }

  lemma AlikeGrown(l0: State, l: State, l': State, since: nat)
    requires Grown(l0, l, since) && Alike(l, l') && Valid(l')
    ensures Grown(l0, l', since)
  {
    forall k | 0 <= k < |l'.table|
      ensures Placed(l0, l', since, k)
    {
      assert Placed(l0, l, since, k);
    }
  }

  lemma PutGrows(l0: State, l: State, since: nat, b: Block, i: BlockInfo)
    requires Grown(l0, l, since) && |l.buf| < SEGMENT_BLOCKS
    ensures Grown(l0, Put(l, b, i).0, since)
  {
    var l' := Put(l, b, i).0;
    forall k | 0 <= k < |l'.table|
      ensures Placed(l0, l', since, k)
    {
      assert Placed(l0, l, since, k);
    }
  }

  // ------------------------------------------------------- the inode map

  predicate BufferedAt(l: State, o: nat, ino: nat)
  {
    1 <= o < |l.info| && InodeRecord(l.info[o]) && l.info[o].ino == ino
  }

  predicate NoneBuffered(l: State, o: nat, ino: nat)
  {
    forall j :: o <= j < |l.info| ==> !BufferedAt(l, j, ino)
  }

  /** No segment written since, from `k` on, has a record of the inode. */
  ghost predicate NoneWritten(l0: State, l: State, k: nat, ino: nat)
  {
    forall j :: k <= j && WrittenSince(l0, l, j) ==> NoRecord(l.disk, j, 0, ino)
  }

  /** The location is that of the inode's last record in the buffer. */
  predicate InBuffer(l: State, a: nat, ino: nat)
  {
    a == SegmentToBlock(l.seg, OffOf(a)) && BufferedAt(l, OffOf(a), ino) && NoneBuffered(l, OffOf(a) + 1, ino)
  }

  /** The location is in a segment written since: that of the inode's last record, if the segment has records. */
  ghost predicate InSegment(l0: State, l: State, a: nat, ino: nat)
  {
    var k, o := SegOf(a), OffOf(a);
    && a >= LOG_START && o >= 1 && WrittenSince(l0, l, k)
    && (Short(l.disk, k) ==> Records(l.disk, k, o - 1, ino) && NoRecord(l.disk, k, o, ino))
    && NoneWritten(l0, l, k + 1, ino) && NoneBuffered(l, 1, ino)
  }

  /** The location is the checkpointed one, and the inode was not written since. */
  ghost predicate Untouched(l0: State, l: State, m0: map<nat, nat>, a: nat, ino: nat)
  {
    && ino in m0 && a == m0[ino] && Occupied(l0, a) && SegOf(a) != l0.seg
    && NoneWritten(l0, l, 0, ino) && NoneBuffered(l, 1, ino)
  }

  ghost predicate Located(l0: State, l: State, m0: map<nat, nat>, a: nat, ino: nat)
  {
    InBuffer(l, a, ino) || InSegment(l0, l, a, ino) || Untouched(l0, l, m0, a, ino)
  }

  ghost predicate Traced(l0: State, l: State, m0: map<nat, nat>, m: map<nat, nat>)
  {
    forall ino :: ino in m ==> Located(l0, l, m0, m[ino], ino)
  }

  /** The records of a flushed segment are those of the buffer, if they fit. */
  lemma FlushedRecord(l: State, now: nat, i: nat, ino: nat)
    requires Valid(l) && |l.buf| > 1 && CanFlush(l)
    ensures var disk := Flush(l, now).0.disk;
            && (Records(disk, l.seg, i, ino) ==> BufferedAt(l, i + 1, ino))
            && (Short(disk, l.seg) && BufferedAt(l, i + 1, ino) ==> Records(disk, l.seg, i, ino))
  {
    FlushedSummary(l, now, i);
  }

  lemma FlushedNone(l: State, now: nat, o: nat, ino: nat)
    requires Valid(l) && |l.buf| > 1 && CanFlush(l) && NoneBuffered(l, o + 1, ino)
    ensures NoRecord(Flush(l, now).0.disk, l.seg, o, ino)
  {
    hide Flush;
    forall j | o <= j
      ensures !Records(Flush(l, now).0.disk, l.seg, j, ino)
    {
      FlushedRecord(l, now, j, ino);
    }
  }

  /** The segments written since, after a flush, are those before and the one just flushed, which is the highest. */
  lemma WrittenByFlush(l0: State, l: State, since: nat, now: nat, j: nat)
    requires Grown(l0, l, since) && |l.buf| > 1 && CanFlush(l) && now >= since
    ensures var l' := Flush(l, now).0;
            && (WrittenSince(l0, l', j) <==> WrittenSince(l0, l, j) || j == l.seg)
            && (WrittenSince(l0, l, j) ==> j < l.seg)
            && (j != l.seg ==> SummaryAt(l'.disk, j) == SummaryAt(l.disk, j))
  {
    FlushMovesOn(l, now);
    assert Placed(l0, l, since, l.seg);
    assert j < |l.table| ==> Placed(l0, l, since, j);
    if j != l.seg {
      OtherSummary(l, now, j);
    }
  }

  lemma NoRecordSame(disk: Disk, disk': Disk, k: nat, i: nat, ino: nat)
    requires NoRecord(disk, k, i, ino) && SummaryAt(disk', k) == SummaryAt(disk, k)
    ensures NoRecord(disk', k, i, ino)
  {
    forall j | i <= j
      ensures !Records(disk', k, j, ino)
    {
      assert !Records(disk, k, j, ino);
    }
  }

  lemma NoneWrittenByFlush(l0: State, l: State, since: nat, now: nat, k: nat, ino: nat)
    requires Grown(l0, l, since) && |l.buf| > 1 && CanFlush(l) && now >= since
    requires NoneWritten(l0, l, k, ino) && (k <= l.seg ==> NoneBuffered(l, 1, ino))
    ensures NoneWritten(l0, Flush(l, now).0, k, ino)
  {
    hide Flush, WrittenSince, Grown, NoRecord;
    GrownIsValid(l0, l, since);
    var l' := Flush(l, now).0;
    forall j | k <= j && WrittenSince(l0, l', j)
      ensures NoRecord(l'.disk, j, 0, ino)
    {
      WrittenByFlush(l0, l, since, now, j);
      if j == l.seg {
        FlushedNone(l, now, 0, ino);
      } else {
        NoRecordSame(l.disk, l'.disk, j, 0, ino);
      }
    }
  }

  lemma GrownIsValid(l0: State, l: State, since: nat)
    requires Grown(l0, l, since)
    ensures Valid(l)
  {
  }

  lemma FlushLocates(l0: State, l: State, since: nat, now: nat, m0: map<nat, nat>, a: nat, ino: nat)
    requires Grown(l0, l, since) && |l.buf| > 1 && CanFlush(l) && now >= since && Located(l0, l, m0, a, ino)
    ensures Located(l0, Flush(l, now).0, m0, a, ino)
  {
    hide Flush, WrittenSince, Grown, NoRecord, Records, Short, NoneWritten;
    GrownIsValid(l0, l, since);
    var l' := Flush(l, now).0;
    FlushEmpties(l, now);
    if InBuffer(l, a, ino) {
      WrittenByFlush(l0, l, since, now, l.seg);
      FlushedRecord(l, now, OffOf(a) - 1, ino);
      FlushedNone(l, now, OffOf(a), ino);
      NoneAbove(l0, l, since, now, ino);
      assert InSegment(l0, l', a, ino);
    } else if InSegment(l0, l, a, ino) {
      WrittenByFlush(l0, l, since, now, SegOf(a));
      NoneWrittenByFlush(l0, l, since, now, SegOf(a) + 1, ino);
      SegmentStays(l, l', SegOf(a), OffOf(a), ino);
      assert InSegment(l0, l', a, ino);
    } else {
      NoneWrittenByFlush(l0, l, since, now, 0, ino);
      assert Untouched(l0, l', m0, a, ino);
    }
  }

  lemma FlushEmpties(l: State, now: nat)
    requires Valid(l) && |l.buf| > 1 && CanFlush(l)
    ensures forall ino :: NoneBuffered(Flush(l, now).0, 1, ino)
  {
  }

  /** Nothing above the segment just flushed was written since. */
  lemma NoneAbove(l0: State, l: State, since: nat, now: nat, ino: nat)
    requires Grown(l0, l, since) && |l.buf| > 1 && CanFlush(l) && now >= since
    ensures NoneWritten(l0, Flush(l, now).0, l.seg + 1, ino)
  {
    hide Flush, WrittenSince, Grown;
    GrownIsValid(l0, l, since);
    forall j | l.seg + 1 <= j
      ensures !WrittenSince(l0, Flush(l, now).0, j)
    {
      WrittenByFlush(l0, l, since, now, j);
    }
  }

  lemma SegmentStays(l: State, l': State, k: nat, o: nat, ino: nat)
    requires SummaryAt(l'.disk, k) == SummaryAt(l.disk, k) && o >= 1
    ensures Short(l'.disk, k) == Short(l.disk, k)
    ensures Records(l'.disk, k, o - 1, ino) == Records(l.disk, k, o - 1, ino)
    ensures NoRecord(l.disk, k, o, ino) ==> NoRecord(l'.disk, k, o, ino)
  {
    if NoRecord(l.disk, k, o, ino) {
      NoRecordSame(l.disk, l'.disk, k, o, ino);
    }
  }

  lemma FlushTraces(l0: State, l: State, since: nat, now: nat, m0: map<nat, nat>, m: map<nat, nat>)
    requires Grown(l0, l, since) && |l.buf| > 1 && CanFlush(l) && now >= since && Traced(l0, l, m0, m)
    ensures Traced(l0, Flush(l, now).0, m0, m)
  {
    hide Flush, Grown, Located;
    GrownIsValid(l0, l, since);
    forall ino | ino in m
      ensures Located(l0, Flush(l, now).0, m0, m[ino], ino)
    {
      FlushLocates(l0, l, since, now, m0, m[ino], ino);
    }
  }

  lemma AlikeTraced(l0: State, l: State, l': State, m0: map<nat, nat>, m: map<nat, nat>)
    requires Traced(l0, l, m0, m) && Alike(l, l')
    ensures Traced(l0, l', m0, m)
  {
    forall ino | ino in m
      ensures Located(l0, l', m0, m[ino], ino)
    {
      AlikeLocated(l0, l, l', m0, m[ino], ino);
    }
  }

  lemma AlikeLocated(l0: State, l: State, l': State, m0: map<nat, nat>, a: nat, ino: nat)
    requires Located(l0, l, m0, a, ino) && Alike(l, l')
    ensures Located(l0, l', m0, a, ino)
  {
    assert forall k: nat :: WrittenSince(l0, l', k) <==> WrittenSince(l0, l, k);
    assert forall o: nat :: BufferedAt(l', o, ino) <==> BufferedAt(l, o, ino);
  }

  /** A block put into the buffer that is not an image of this inode leaves its location. */
  lemma PutLocated(l0: State, l: State, b: Block, i: BlockInfo, m0: map<nat, nat>, a: nat, ino: nat)
    requires Located(l0, l, m0, a, ino) && Valid(l) && |l.buf| < SEGMENT_BLOCKS && !(InodeRecord(i) && i.ino == ino)
    ensures Located(l0, Put(l, b, i).0, m0, a, ino)
  {
    var l' := Put(l, b, i).0;
    assert forall k: nat :: WrittenSince(l0, l', k) <==> WrittenSince(l0, l, k);
    assert forall o: nat :: BufferedAt(l', o, ino) <==> BufferedAt(l, o, ino);
  }

  lemma PutTraces(l0: State, l: State, b: Block, i: BlockInfo, m0: map<nat, nat>, m: map<nat, nat>)
    requires Traced(l0, l, m0, m) && Valid(l) && |l.buf| < SEGMENT_BLOCKS && !InodeRecord(i)
    ensures Traced(l0, Put(l, b, i).0, m0, m)
  {
    hide Located;
    forall ino | ino in m
      ensures Located(l0, Put(l, b, i).0, m0, m[ino], ino)
    {
      PutLocated(l0, l, b, i, m0, m[ino], ino);
    }
  }

  /** Putting an image into the buffer and entering its address. */
  lemma PutImageTraces(l0: State, l: State, b: Block, i: BlockInfo, m0: map<nat, nat>, m: map<nat, nat>)
    requires Traced(l0, l, m0, m) && Valid(l) && |l.buf| < SEGMENT_BLOCKS && InodeRecord(i)
    ensures var (l', a) := Put(l, b, i);
            Traced(l0, l', m0, m[i.ino := a])
  {
    var (l', a) := Put(l, b, i);
    assert InBuffer(l', a, i.ino);
    hide Located, InBuffer;
    forall ino | ino in m && ino != i.ino
      ensures Located(l0, l', m0, m[ino], ino)
    {
      PutLocated(l0, l, b, i, m0, m[ino], ino);
    }
    InBufferIsLocated(l0, l', m0, a, i.ino);
  }

  lemma InBufferIsLocated(l0: State, l: State, m0: map<nat, nat>, a: nat, ino: nat)
    requires InBuffer(l, a, ino)
    ensures Located(l0, l, m0, a, ino)
  {
  }

  // ------------------------------------------------------------ operations

  /** Where everything is, relative to the state `f0` of the checkpoint. */
  ghost predicate Follows(f0: Fs, f: Fs, since: nat)
  {
    Grown(f0.log, f.log, since) && f.now >= since && Traced(f0.log, f.log, f0.inodeMap, f.inodeMap)
  }

  lemma AlikeFollows(f0: Fs, f: Fs, f': Fs, since: nat)
    requires Follows(f0, f, since) && Alike(f.log, f'.log) && Valid(f'.log) && f'.now >= since
    requires forall ino :: ino in f'.inodeMap ==> ino in f.inodeMap && f'.inodeMap[ino] == f.inodeMap[ino]
    ensures Follows(f0, f', since)
  {
    hide Grown, Located;
    AlikeGrown(f0.log, f.log, f'.log, since);
    AlikeTraced(f0.log, f.log, f'.log, f0.inodeMap, f.inodeMap);
  }

  lemma FlushFollows(f0: Fs, f: Fs, since: nat)
    requires Follows(f0, f, since) && CanFlush(f.log)
    ensures Follows(f0, FlushFs(f).0, since)
  {
    hide Grown, Traced, Flush;
    GrownIsValid(f0.log, f.log, since);
    if |f.log.buf| > 1 {
      FlushShape(f);
      FlushFacts(f.log, f.now);
      FlushGrows(f0.log, f.log, since, f.now);
      FlushTraces(f0.log, f.log, since, f.now, f0.inodeMap, f.inodeMap);
      AlikeFollows(f0, f.(log := Flush(f.log, f.now).0), FlushFs(f).0, since);
    }
  }

  lemma CheckpointFollows(f0: Fs, f: Fs, since: nat)
    requires Follows(f0, f, since) && CanFlush(f.log)
    ensures Follows(f0, CheckpointFs(f).0, since)
  {
    hide Grown, Traced, FlushFs;
    GrownIsValid(f0.log, f.log, since);
    FlushFsFacts(f);
    FlushFollows(f0, f, since);
    var f1 := if |f.log.buf| > 1 then FlushFs(f).0 else f;
    AlikeFollows(f0, f1, CheckpointFs(f).0, since);
  }

  lemma RetireFollows(f0: Fs, f: Fs, was: nat, since: nat)
    requires Follows(f0, f, since)
    ensures Follows(f0, MarkDeadFs(f, was), since)
  {
    hide Grown, Traced;
    GrownIsValid(f0.log, f.log, since);
    MarkDeadFacts(f, was);
    StaleReads.MarkDeadStates(f.log, was);
    AlikeFollows(f0, f, MarkDeadFs(f, was), since);
  }

  /** The state in which an append puts its block. */
  function Room(f: Fs): (r: Fs)
    requires Sound(f)
    ensures Sound(r)
  {
    if |f.log.buf| < SEGMENT_BLOCKS then f else FlushFs(f).0
  }

  lemma RoomFollows(f0: Fs, f: Fs, since: nat)
    requires Follows(f0, f, since) && CanAppend(f.log)
    ensures var g := Room(f);
            && Follows(f0, g, since) && Valid(g.log) && |g.log.buf| < SEGMENT_BLOCKS && g.inodeMap == f.inodeMap
            && g.icache == f.icache
            && forall data, i :: AppendFs(f, data, i) == PutFs(g, data, i)
  {
    hide Grown, Traced;
    GrownIsValid(f0.log, f.log, since);
    if |f.log.buf| == SEGMENT_BLOCKS {
      FlushFsFacts(f);
      FlushFollows(f0, f, since);
    }
  }

  lemma AppendFollows(f0: Fs, f: Fs, was: nat, data: Block, i: BlockInfo, since: nat)
    requires Follows(f0, f, since) && CanAppend(f.log) && !InodeRecord(i)
    ensures var f' := AppendFs(MarkDeadFs(f, was), data, i).0;
            Follows(f0, f', since) && f'.icache == f.icache
  {
    hide Grown, Traced, FlushFs;
    GrownIsValid(f0.log, f.log, since);
    MarkDeadFacts(f, was);
    RetireFollows(f0, f, was, since);
    var f1 := MarkDeadFs(f, was);
    RoomFollows(f0, f1, since);
    var g := Room(f1);
    PutGrows(f0.log, g.log, since, data, i);
    PutTraces(f0.log, g.log, data, i, f0.inodeMap, g.inodeMap);
  }

  lemma WriteInodeFollows(f0: Fs, f: Fs, ino: nat, since: nat)
    requires Follows(f0, f, since) && Enabled(f, WriteInodeStep(ino)) && ino > 0
    ensures Follows(f0, WriteInode(f, ino).0, since)
  {
    hide Grown, Traced, FlushFs;
    GrownIsValid(f0.log, f.log, since);
    var n := f.icache[ino];
    if n.dirty {
      MarkDeadFacts(f, n.location);
      RetireFollows(f0, f, n.location, since);
      var f1 := MarkDeadFs(f, n.location);
      RoomFollows(f0, f1, since);
      var g := Room(f1);
      var i := BlockInfo(ino, 0, InodeBlock);
      PutGrows(f0.log, g.log, since, InodeImage(n.disk), i);
      PutImageTraces(f0.log, g.log, InodeImage(n.disk), i, f0.inodeMap, g.inodeMap);
    }
  }

  lemma WriteBlockFollows(f0: Fs, f: Fs, ino: nat, idx: nat, data: Block, since: nat)
    requires Follows(f0, f, since) && Enabled(f, WriteBlockStep(ino, idx, data))
    ensures Follows(f0, WriteBlock(f, ino, idx, data).0, since)
  {
    hide Grown, Traced, AppendFs, MarkDeadFs;
    GrownIsValid(f0.log, f.log, since);
    var d := f.icache[ino].disk;
    AppendFollows(f0, f, if idx < DIRECT_BLOCKS then d.direct[idx] else 0, data, BlockInfo(ino, idx % UINT32, DataBlock), since);
    var (f1, a) := AppendData(f, ino, idx, data);
    if DIRECT_BLOCKS <= idx < MAPPED_BLOCKS {
      var words := if d.indirect == 0 then Zeros(WORDS_PER_BLOCK) else Words(DiskAt(f1.log.disk, d.indirect));
      AppendFollows(f0, f1, d.indirect, Payload(words[idx - DIRECT_BLOCKS := a]), BlockInfo(ino, 0, IndirectBlock), since);
    }
  }

  lemma {:induction false} RetireAllFollows(f0: Fs, f: Fs, addrs: seq<nat>, since: nat)
    requires Follows(f0, f, since)
    ensures Follows(f0, MarkAllDead(f, addrs), since)
    decreases |addrs|
  {
    hide Follows;
    if addrs != [] {
      RetireFollows(f0, f, addrs[0], since);
      RetireAllFollows(f0, MarkDeadFs(f, addrs[0]), addrs[1..], since);
    }
  }

  /** Any operation but freeing a segment; the clock does not go back before the checkpoint. */
  predicate Runs(f: Fs, s: Step, since: nat)
    requires Sound(f)
  {
    && Enabled(f, s) && !s.FreeEmptyStep? && (s.WriteInodeStep? ==> s.ino > 0) && (s.TickStep? ==> s.now >= since)
  }

  lemma StepFollows(f0: Fs, f: Fs, s: Step, since: nat)
    requires Follows(f0, f, since) && Runs(f, s, since)
    ensures Follows(f0, Apply(f, s), since)
  {
    hide Grown, Traced, WriteBlock, WriteInode, MarkAllDead, FlushFs, CheckpointFs;
    GrownIsValid(f0.log, f.log, since);
    match s
    case WriteBlockStep(ino, idx, data) => WriteBlockFollows(f0, f, ino, idx, data, since);
    case WriteInodeStep(ino) => WriteInodeFollows(f0, f, ino, since);
    case FreeInodeStep(ino) =>
      var n := f.icache[ino];
      var addrs := n.disk.direct + [n.disk.indirect, n.disk.doubleIndirect, n.location];
      RetireAllFollows(f0, f, addrs, since);
      var g := MarkAllDead(f, addrs);
      GrownIsValid(f0.log, g.log, since);
      AlikeFollows(f0, g, FreeInode(f, ino), since);
    case FlushStep => FlushFollows(f0, f, since);
    case CheckpointStep => CheckpointFollows(f0, f, since);
    case NewInodeStep(ino) => AlikeFollows(f0, f, NewInode(f, ino), since);
    case SyncStep => AlikeFollows(f0, f, f.(log := Sync(f.log)), since);
    case TickStep(now) => AlikeFollows(f0, f, f.(now := now), since);
    case FreeEmptyStep(_) =>
  }

  // ----------------------------------------------------------------- replay

  /**
   * A state right after a checkpoint taken at time `since`, and what a load of it gives: the
   * segment being filled is below every FREE one, no summary from there on is as new as the
   * checkpoint, and recovering at once changes nothing.
   */
  ghost predicate Checkpointed(f: Fs, r: Recovered, since: nat)
  {
    && Valid(f.log) && |f.log.buf| == 1 && f.now >= since
    && (forall k :: 0 <= k < |f.log.table| && f.log.table[k].state.Free? ==> k > f.log.seg)
    && (forall ino :: ino in f.inodeMap ==> Occupied(f.log, f.inodeMap[ino]))
    && |r.table| == |f.log.table| && r.logHead == f.log.logHead && r.inodes == f.inodeMap
    && (forall k :: f.log.seg <= k < |f.log.table| ==> !Continues(f.log.disk, k, since))
    && Recover(r, f.log.disk, since).inodes == f.inodeMap
  }

  lemma StartFollows(f: Fs, r: Recovered, since: nat)
    requires Checkpointed(f, r, since)
    ensures Follows(f, f, since)
  {
    forall k | 0 <= k < |f.log.table|
      ensures Placed(f.log, f.log, since, k)
    {
      assert !WrittenSince(f.log, f.log, k);
    }
    forall ino | ino in f.inodeMap
      ensures Located(f.log, f.log, f.inodeMap, f.inodeMap[ino], ino)
    {
      assert Untouched(f.log, f.log, f.inodeMap, f.inodeMap[ino], ino);
    }
  }

  /** Everything between the log head and segment `k` was written since, or continued the log before. */
  predicate Reached(l0: State, l: State, first: nat, since: nat, k: nat)
  {
    first <= k && forall x :: first <= x < k ==> WrittenSince(l0, l, x) || Continues(l0.disk, x, since)
  }

  lemma ContinuesNow(l0: State, l: State, since: nat, x: nat)
    requires Grown(l0, l, since) && x < |l.table|
    ensures Continues(l.disk, x, since) <==> WrittenSince(l0, l, x) || Continues(l0.disk, x, since)
    ensures WrittenSince(l0, l, x) ==> Stamped(l.disk, x, since)
  {
    assert Placed(l0, l, since, x);
  }

  lemma ReachedIsReplayed(l0: State, l: State, since: nat, first: nat, k: nat)
    requires Grown(l0, l, since) && first <= |l.table| && WrittenSince(l0, l, k)
    ensures Replayed(l.disk, first, |l.table|, since, k) <==> Reached(l0, l, first, since, k)
  {
    hide WrittenSince, Continues, Grown, RunEnd;
    assert k < |l.table| by {
      WrittenInTable(l0, l, k);
    }
    SegmentIsReplayed(l.disk, first, |l.table|, since, k);
    ContinuesNow(l0, l, since, k);
    forall x | first <= x < k
      ensures Continues(l.disk, x, since) <==> WrittenSince(l0, l, x) || Continues(l0.disk, x, since)
    {
      ContinuesNow(l0, l, since, x);
    }
  }

  lemma WrittenInTable(l0: State, l: State, k: nat)
    requires WrittenSince(l0, l, k)
    ensures k < |l.table|
  {
  }

  lemma {:induction false} ReplaySame(r: Recovered, disk: Disk, disk': Disk, seg: nat, end: nat)
    requires seg <= end <= |r.table| && forall k :: seg <= k < end ==> SummaryAt(disk', k) == SummaryAt(disk, k)
    ensures Replay(r, disk', seg, end) == Replay(r, disk, seg, end)
    decreases end
  {
    if seg < end {
      ReplaySame(r, disk, disk', seg, end - 1);
    }
  }

  lemma {:induction false} ReplaySplit(r: Recovered, disk: Disk, seg: nat, mid: nat, end: nat)
    requires seg <= mid <= end <= |r.table|
    ensures Replay(r, disk, seg, end) == Replay(Replay(r, disk, seg, mid), disk, mid, end)
    decreases end
  {
    if mid < end {
      ReplaySplit(r, disk, seg, mid, end - 1);
    }
  }

  lemma {:induction false} RecordsComeFrom(m: map<nat, nat>, s: Block, seg: nat, n: nat, ino: nat)
    ensures ino in m ==> ino in ReplayRecords(m, s, seg, n)
    ensures ino in ReplayRecords(m, s, seg, n) ==>
              || (ino in m && ReplayRecords(m, s, seg, n)[ino] == m[ino])
              || exists i :: 0 <= i < n && InodeRecord(RecordAt(s, i)) && RecordAt(s, i).ino == ino
                             && ReplayRecords(m, s, seg, n)[ino] == SegmentToBlock(seg, i + 1)
  {
    if n > 0 {
      RecordsComeFrom(m, s, seg, n - 1, ino);
      assert InodeRecord(RecordAt(s, n - 1)) && RecordAt(s, n - 1).ino == ino ==>
               ReplayRecords(m, s, seg, n)[ino] == SegmentToBlock(seg, n - 1 + 1);
    }
  }

  /** Some record of the inode in segments `lo` to `hi` has this address. */
  ghost predicate RecordedAt(disk: Disk, lo: nat, hi: nat, ino: nat, a: nat)
  {
    exists k: nat, i: nat :: lo <= k < hi && Records(disk, k, i, ino) && a == SegmentToBlock(k, i + 1)
  }

  /** A recovered location is the one before, or that of a record in the run. */
  lemma {:induction false} ComesFrom(r: Recovered, disk: Disk, seg: nat, end: nat, ino: nat)
    requires seg <= end <= |r.table|
    ensures var m := Replay(r, disk, seg, end).inodes;
            && (ino in r.inodes ==> ino in m)
            && (ino in m ==> || (ino in r.inodes && m[ino] == r.inodes[ino])
                             || RecordedAt(disk, seg, end, ino, m[ino]))
    decreases end
  {
    if seg < end {
      ComesFrom(r, disk, seg, end - 1, ino);
      var s := SummaryAt(disk, end - 1);
      var m1 := Replay(r, disk, seg, end - 1).inodes;
      if s.Summary? {
        RecordsComeFrom(m1, s, end - 1, RecordCount(s.blockCount), ino);
        var m := Replay(r, disk, seg, end).inodes;
        if ino in m && !(ino in m1 && m[ino] == m1[ino]) {
          var i :| 0 <= i < RecordCount(s.blockCount) && InodeRecord(RecordAt(s, i)) && RecordAt(s, i).ino == ino
                   && m[ino] == SegmentToBlock(end - 1, i + 1);
          assert Records(disk, end - 1, i, ino);
        }
      }
    }
  }

  /** A record in the run puts its inode into the map. */
  lemma {:induction false} RecordEnters(r: Recovered, disk: Disk, seg: nat, end: nat, k: nat, i: nat, ino: nat)
    requires seg <= k < end <= |r.table| && Records(disk, k, i, ino)
    ensures ino in Replay(r, disk, seg, end).inodes
    decreases end
  {
    var s := SummaryAt(disk, end - 1);
    var m1 := Replay(r, disk, seg, end - 1).inodes;
    if k == end - 1 {
      RecordsForget(m1, m1, s, k, RecordCount(s.blockCount), ino, i);
    } else {
      RecordEnters(r, disk, seg, end - 1, k, i, ino);
      if s.Summary? {
        RecordsComeFrom(m1, s, end - 1, RecordCount(s.blockCount), ino);
      }
    }
  }

  // ------------------------------------------------------------- the theorem

  /**
   * The scan of the disk after the run: first the part that the checkpoint knows, which
   * changes nothing, then segments written since.
   */
  lemma OldPart(f0: Fs, f: Fs, r: Recovered, since: nat) returns (mid: nat)
    requires Checkpointed(f0, r, since) && Follows(f0, f, since)
    ensures var first := FirstSegment(r.logHead, |r.table|);
            var end := RunEnd(f.log.disk, first, |r.table|, since);
            && first <= mid <= end && Replay(r, f.log.disk, first, mid).inodes == f0.inodeMap
            && (forall k :: mid <= k < end ==> WrittenSince(f0.log, f.log, k))
            && (forall k: nat :: first <= k && WrittenSince(f0.log, f.log, k) ==> mid <= k)
  {
    var l0, l := f0.log, f.log;
    var total := |r.table|;
    var first := FirstSegment(r.logHead, total);
    var e0, end := RunEnd(l0.disk, first, total, since), RunEnd(l.disk, first, total, since);
    OldScan(l0, l, since, first);
    mid := if first > l0.seg then first else if e0 < l0.seg then end else l0.seg;
    assert Replay(r, l0.disk, first, e0).inodes == f0.inodeMap;
    ReplaySame(r, l0.disk, l.disk, first, mid);
  }

  lemma OldScan(l0: State, l: State, since: nat, first: nat)
    requires Grown(l0, l, since) && first <= |l.table|
    requires forall k :: 0 <= k < |l0.table| && l0.table[k].state.Free? ==> k > l0.seg
    requires forall k :: l0.seg <= k < |l0.table| ==> !Continues(l0.disk, k, since)
    ensures var e0, end := RunEnd(l0.disk, first, |l.table|, since), RunEnd(l.disk, first, |l.table|, since);
            && (forall x :: first <= x < l0.seg ==> SummaryAt(l.disk, x) == SummaryAt(l0.disk, x))
            && (forall x: nat :: WrittenSince(l0, l, x) ==> x >= l0.seg)
            && (forall x :: l0.seg <= x && first <= x < end ==> WrittenSince(l0, l, x))
            && (first > l0.seg ==> e0 == first)
            && (first <= l0.seg ==> e0 <= l0.seg && (e0 < l0.seg ==> end == e0) && (e0 == l0.seg ==> end >= l0.seg))
  {
    var e0, end := RunEnd(l0.disk, first, |l.table|, since), RunEnd(l.disk, first, |l.table|, since);
    forall x | first <= x < |l.table|
      ensures Continues(l.disk, x, since) <==> WrittenSince(l0, l, x) || Continues(l0.disk, x, since)
      ensures x < l0.seg ==> SummaryAt(l.disk, x) == SummaryAt(l0.disk, x)
    {
      ContinuesNow(l0, l, since, x);
      assert Placed(l0, l, since, x);
    }
    hide Continues, Placed;
    if first <= l0.seg {
      RunStops(l0.disk, first, |l.table|, since, l0.seg);
      assert forall x :: first <= x < l0.seg ==> (Continues(l.disk, x, since) <==> Continues(l0.disk, x, since));
      RunEndIs(l.disk, first, |l.table|, since, e0);
    } else if first < |l.table| {
      RunStops(l0.disk, first, |l.table|, since, first);
    }
  }

  lemma RunStops(disk: Disk, first: nat, total: nat, since: nat, x: nat)
    requires first <= x < total && !Continues(disk, x, since)
    ensures RunEnd(disk, first, total, since) <= x
  {
  }

  /** A run goes at least as far as everything continues, and ends there if the next does not. */
  lemma RunEndIs(disk: Disk, first: nat, total: nat, since: nat, e: nat)
    requires first <= e <= total && forall k :: first <= k < e ==> Continues(disk, k, since)
    ensures RunEnd(disk, first, total, since) >= e
    ensures e < total && !Continues(disk, e, since) ==> RunEnd(disk, first, total, since) == e
  {
  }

  /**
   * Recovery gives an inode the location it had at the last flush: a location written since
   * lies in a segment with records that the scan reaches; an inode that is not mapped any
   * more is neither in the checkpoint nor recorded in a segment that the scan reaches.
   */
  ghost predicate Recoverable(f0: Fs, f: Fs, first: nat, since: nat, ino: nat)
  {
    if ino in f.inodeMap then
      var k := SegOf(f.inodeMap[ino]);
      WrittenSince(f0.log, f.log, k) ==> Reached(f0.log, f.log, first, since, k) && Short(f.log.disk, k)
    else
      && ino !in f0.inodeMap
      && forall k: nat :: WrittenSince(f0.log, f.log, k) && Reached(f0.log, f.log, first, since, k) ==> NoRecord(f.log.disk, k, 0, ino)
  }

  predicate SameAt(m: map<nat, nat>, m': map<nat, nat>, ino: nat)
  {
    (ino in m <==> ino in m') && (ino in m && ino in m' ==> m[ino] == m'[ino])
  }

  /** An inode not written since keeps its checkpointed location. */
  lemma UntouchedIsRecovered(f0: Fs, f: Fs, r: Recovered, since: nat, ino: nat)
    requires Checkpointed(f0, r, since) && Follows(f0, f, since)
    requires ino in f.inodeMap && Untouched(f0.log, f.log, f0.inodeMap, f.inodeMap[ino], ino)
    ensures SameAt(Recover(r, f.log.disk, since).inodes, f.inodeMap, ino)
    ensures !WrittenSince(f0.log, f.log, SegOf(f.inodeMap[ino]))
  {
    var mid := OldPart(f0, f, r, since);
    var first := FirstSegment(r.logHead, |r.table|);
    ReplayUntouched(r, f.log.disk, first, mid, RunEnd(f.log.disk, first, |r.table|, since), ino);
  }

  /** One in a reached segment with records gets its last record. */
  lemma ReachedIsRecovered(f0: Fs, f: Fs, r: Recovered, since: nat, ino: nat)
    requires Checkpointed(f0, r, since) && Follows(f0, f, since)
    requires ino in f.inodeMap && InSegment(f0.log, f.log, f.inodeMap[ino], ino)
    requires Recoverable(f0, f, FirstSegment(r.logHead, |r.table|), since, ino)
    ensures SameAt(Recover(r, f.log.disk, since).inodes, f.inodeMap, ino)
  {
    var a := f.inodeMap[ino];
    var k, o := SegOf(a), OffOf(a);
    var first := FirstSegment(r.logHead, |r.table|);
    var mid := OldPart(f0, f, r, since);
    ReachedIsReplayed(f0.log, f.log, since, first, k);
    LastRecordWins(r, f.log.disk, since, ino, k, o - 1);
    Address(a);
  }

  /** Any other location written since is lost. */
  lemma UnreachedIsLost(f0: Fs, f: Fs, r: Recovered, since: nat, ino: nat)
    requires Checkpointed(f0, r, since) && Follows(f0, f, since)
    requires ino in f.inodeMap && InSegment(f0.log, f.log, f.inodeMap[ino], ino)
    requires !Recoverable(f0, f, FirstSegment(r.logHead, |r.table|), since, ino)
    ensures !SameAt(Recover(r, f.log.disk, since).inodes, f.inodeMap, ino)
  {
    var a, disk := f.inodeMap[ino], f.log.disk;
    var k := SegOf(a);
    var first := FirstSegment(r.logHead, |r.table|);
    var end := RunEnd(disk, first, |r.table|, since);
    var mid := OldPart(f0, f, r, since);
    ReplaySplit(r, disk, first, mid, end);
    ComesFrom(Replay(r, disk, first, mid), disk, mid, end, ino);
    ReachedIsReplayed(f0.log, f.log, since, first, k);
    ContinuesNow(f0.log, f.log, since, k);
    if RecordedAt(disk, mid, end, ino, a) {
      var k': nat, i: nat :| mid <= k' < end && Records(disk, k', i, ino) && a == SegmentToBlock(k', i + 1);
      assert k' == k;
    }
  }

  /** An inode that is not mapped any more. */
  lemma UnmappedComesBack(f0: Fs, f: Fs, r: Recovered, since: nat, ino: nat)
    requires Checkpointed(f0, r, since) && Follows(f0, f, since) && ino !in f.inodeMap
    ensures SameAt(Recover(r, f.log.disk, since).inodes, f.inodeMap, ino) <==>
            Recoverable(f0, f, FirstSegment(r.logHead, |r.table|), since, ino)
  {
    var disk := f.log.disk;
    var first := FirstSegment(r.logHead, |r.table|);
    var end := RunEnd(disk, first, |r.table|, since);
    var mid := OldPart(f0, f, r, since);
    ReplaySplit(r, disk, first, mid, end);
    var r1 := Replay(r, disk, first, mid);
    ComesFrom(r1, disk, mid, end, ino);
    forall k: nat | WrittenSince(f0.log, f.log, k)
      ensures Reached(f0.log, f.log, first, since, k) <==> mid <= k < end
    {
      ReachedIsReplayed(f0.log, f.log, since, first, k);
    }
    hide WrittenSince, Reached, Replay;
    if ino in Replay(r1, disk, mid, end).inodes {
      if ino !in f0.inodeMap {
        var k: nat, i: nat :| mid <= k < end && Records(disk, k, i, ino)
                              && Replay(r1, disk, mid, end).inodes[ino] == SegmentToBlock(k, i + 1);
        assert !NoRecord(disk, k, 0, ino);
      }
    } else {
      forall k: nat | WrittenSince(f0.log, f.log, k) && Reached(f0.log, f.log, first, since, k)
        ensures NoRecord(disk, k, 0, ino)
      {
        if !NoRecord(disk, k, 0, ino) {
          var i :| 0 <= i && Records(disk, k, i, ino);
          RecordEnters(r1, disk, mid, end, k, i, ino);
        }
      }
    }
  }

  lemma InodeIsRecovered(f0: Fs, f: Fs, r: Recovered, since: nat, ino: nat)
    requires Checkpointed(f0, r, since) && Follows(f0, f, since) && |f.log.buf| == 1
    ensures SameAt(Recover(r, f.log.disk, since).inodes, f.inodeMap, ino) <==>
            Recoverable(f0, f, FirstSegment(r.logHead, |r.table|), since, ino)
  {
    if ino !in f.inodeMap {
      UnmappedComesBack(f0, f, r, since, ino);
    } else {
      var a := f.inodeMap[ino];
      assert Located(f0.log, f.log, f0.inodeMap, a, ino);
      assert !InBuffer(f.log, a, ino);
      hide Recover, Follows, Checkpointed;
      if Untouched(f0.log, f.log, f0.inodeMap, a, ino) {
        UntouchedIsRecovered(f0, f, r, since, ino);
      } else if Recoverable(f0, f, FirstSegment(r.logHead, |r.table|), since, ino) {
        ReachedIsRecovered(f0, f, r, since, ino);
      } else {
        UnreachedIsLost(f0, f, r, since, ino);
      }
    }
  }

  ghost predicate Run(fs: seq<Fs>, steps: seq<Step>, r: Recovered, since: nat)
  {
    && |fs| == |steps| + 1 && Checkpointed(fs[0], r, since)
    && forall i :: 0 <= i < |steps| ==> Sound(fs[i]) && Runs(fs[i], steps[i], since) && fs[i + 1] == Apply(fs[i], steps[i])
  }

  lemma {:induction false} RunFollows(fs: seq<Fs>, steps: seq<Step>, r: Recovered, since: nat, n: nat)
    requires Run(fs, steps, r, since) && n <= |steps|
    ensures Follows(fs[0], fs[n], since)
  {
    hide Follows, Apply, Runs, Checkpointed;
    if n == 0 {
      StartFollows(fs[0], r, since);
    } else {
      RunFollows(fs, steps, r, since, n - 1);
      StepFollows(fs[0], fs[n - 1], steps[n - 1], since);
    }
  }

  /**
   * Over every run of operations from a checkpoint that ends with a flush: recovery gives
   * back the inode map of that flush if and only if every location written since lies in a
   * segment with records that the scan reaches, and no inode that is gone is in the
   * checkpoint or recorded in such a segment.
   */
  lemma RecoveryIsExact(fs: seq<Fs>, steps: seq<Step>, r: Recovered, since: nat, n: nat)
    requires Run(fs, steps, r, since) && n <= |steps| && |fs[n].log.buf| == 1
    ensures Recover(r, fs[n].log.disk, since).inodes == fs[n].inodeMap <==>
            forall ino: nat :: Recoverable(fs[0], fs[n], FirstSegment(r.logHead, |r.table|), since, ino)
  {
    hide Recover, Recoverable, Follows, Checkpointed, FirstSegment;
    RunFollows(fs, steps, r, since, n);
    var m := Recover(r, fs[n].log.disk, since).inodes;
    forall ino: nat
      ensures SameAt(m, fs[n].inodeMap, ino) <==>
              Recoverable(fs[0], fs[n], FirstSegment(r.logHead, |r.table|), since, ino)
    {
      InodeIsRecovered(fs[0], fs[n], r, since, ino);
    }
    if forall ino: nat :: SameAt(m, fs[n].inodeMap, ino) {
      SameMaps(m, fs[n].inodeMap);
    }
  }

  lemma SameMaps(m: map<nat, nat>, m': map<nat, nat>)
    requires forall ino: nat :: SameAt(m, m', ino)
    ensures m == m'
  {
    forall ino: nat
      ensures ino in m <==> ino in m'
      ensures ino in m && ino in m' ==> m[ino] == m'[ino]
    {
      assert SameAt(m, m', ino);
    }
  }

  /** An inode of the checkpoint that was freed since always comes back, as do those recorded in a scanned segment. */
  lemma FreedComesBack(r: Recovered, disk: Disk, since: nat, ino: nat)
    ensures var first := FirstSegment(r.logHead, |r.table|);
            var end := RunEnd(disk, first, |r.table|, since);
            ino in Recover(r, disk, since).inodes <==>
              ino in r.inodes || exists k: nat, i: nat :: first <= k < end && Records(disk, k, i, ino)
  {
    var first := FirstSegment(r.logHead, |r.table|);
    var end := RunEnd(disk, first, |r.table|, since);
    ComesFrom(r, disk, first, end, ino);
    if k: nat, i: nat :| first <= k < end && Records(disk, k, i, ino) {
      RecordEnters(r, disk, first, end, k, i, ino);
    }
  }

  // ------------------------------------------------------ where the scan starts

  /**
   * The common failure: the flush before the checkpoint was in an earlier second and left its
   * segment partly filled. The log head lies in that segment, so the scan stops there at
   * once, and nothing written since the checkpoint is ever recovered.
   */
  lemma OldHeadStopsScan(fs: seq<Fs>, steps: seq<Step>, r: Recovered, since: nat, n: nat, l: State, t: nat)
    requires Run(fs, steps, r, since) && n <= |steps|
    requires Valid(l) && 1 < |l.buf| < SEGMENT_BLOCKS && CanFlush(l) && t < since
    requires Alike(Flush(l, t).0, fs[0].log) && fs[0].log.logHead == Flush(l, t).0.logHead
    ensures Recover(r, fs[n].log.disk, since) == r
  {
    RunFollows(fs, steps, r, since, n);
    var l0, ln := fs[0].log, fs[n].log;
    HeadAfterFlush(l, t);
    FlushedSummary(l, t, 0);
    FlushMovesOn(l, t);
    assert Placed(l0, ln, since, l.seg);
    RunStops(ln.disk, l.seg, |r.table|, since, l.seg);
  }

  /** After a flush every location is in a segment that is not being filled. */
  lemma LocatedIsOccupied(l0: State, l: State, since: nat, m0: map<nat, nat>, a: nat, ino: nat)
    requires Grown(l0, l, since) && |l.info| == 1 && Located(l0, l, m0, a, ino)
    ensures Occupied(l, a)
  {
    assert Placed(l0, l, since, SegOf(a)) by {
      assert SegOf(a) < |l.table|;
    }
  }

  /** The scan right after a checkpoint that flushed in its own second comes to that segment only. */
  lemma OneSegmentScanned(l: State, disk: Disk, since: nat, r: Recovered)
    requires Valid(l) && 1 < |l.buf| < SEGMENT_BLOCKS && CanFlush(l) && disk == Flush(l, since).0.disk
    requires |r.table| == |l.table| && r.logHead == Flush(l, since).0.logHead
    requires forall k :: l.seg < k < |l.table| ==> !Continues(l.disk, k, since)
    ensures FirstSegment(r.logHead, |r.table|) == l.seg && RunEnd(disk, l.seg, |r.table|, since) == l.seg + 1
    ensures forall k :: l.seg < k < |l.table| ==> !Continues(disk, k, since)
  {
    HeadAfterFlush(l, since);
    FlushedSummary(l, since, 0);
    forall k | l.seg < k < |l.table|
      ensures !Continues(disk, k, since)
    {
      OtherSummary(l, since, k);
      assert !Continues(l.disk, k, since);
    }
    RunEndIs(disk, l.seg, |r.table|, since, l.seg + 1);
  }

  /** A mapped inode is where the records of the segment just flushed say, if they say anything. */
  lemma LastFlushAgrees(l0: State, l: State, r: Recovered, since0: nat, since: nat, m0: map<nat, nat>, k: nat, ino: nat)
    requires Grown(l0, l, since0) && |l.info| == 1 && WrittenSince(l0, l, k)
    requires forall j :: k < j < |l.table| ==> !WrittenSince(l0, l, j)
    requires |r.table| == |l.table| && FirstSegment(r.logHead, |r.table|) == k && RunEnd(l.disk, k, |r.table|, since) == k + 1
    requires ino in r.inodes && Located(l0, l, m0, r.inodes[ino], ino)
    ensures SameAt(Recover(r, l.disk, since).inodes, r.inodes, ino)
  {
    var a := r.inodes[ino];
    assert Placed(l0, l, since0, k);
    assert !InBuffer(l, a, ino);
    if InSegment(l0, l, a, ino) && SegOf(a) == k && Short(l.disk, k) {
      Address(a);
      LastRecordWins(r, l.disk, since, ino, k, OffOf(a) - 1);
    } else {
      assert NoRecord(l.disk, k, 0, ino);
      LastRecordWins(r, l.disk, since, ino, k, 0);
    }
  }

  lemma UnrecordedStaysOut(r: Recovered, disk: Disk, since: nat, k: nat, ino: nat)
    requires FirstSegment(r.logHead, |r.table|) == k < |r.table| && RunEnd(disk, k, |r.table|, since) == k + 1
    requires ino !in r.inodes
    ensures SameAt(Recover(r, disk, since).inodes, r.inodes, ino) <==> NoRecord(disk, k, 0, ino)
  {
    if NoRecord(disk, k, 0, ino) {
      LastRecordWins(r, disk, since, ino, k, 0);
    } else {
      var i :| 0 <= i && Records(disk, k, i, ino);
      RecordEnters(r, disk, k, k + 1, k, i, ino);
    }
  }

  /**
   * A checkpoint that flushed in its own second is one that such runs start from if and only
   * if every inode recorded in the segment it flushed is still mapped.
   */
  lemma CheckpointStartsRun(fp: Fs, g: Fs, since0: nat, r: Recovered)
    requires Follows(fp, g, since0) && CanFlush(g.log) && 1 < |g.log.buf| < SEGMENT_BLOCKS
    requires forall k :: g.log.seg < k < |g.log.table| ==> !Continues(g.log.disk, k, g.now)
    requires var f := CheckpointFs(g).0;
             |r.table| == |f.log.table| && r.logHead == f.log.logHead && r.inodes == f.inodeMap
    ensures var f := CheckpointFs(g).0;
            Checkpointed(f, r, g.now) <==> forall ino: nat :: ino !in f.inodeMap ==> NoRecord(f.log.disk, g.log.seg, 0, ino)
  {
    GrownIsValid(fp.log, g.log, since0);
    hide CheckpointFs, Flush, Follows, Recover, Located, Grown, WrittenSince, NoRecord, Continues, RunEnd, FirstSegment, Occupied;
    var f, k, since := CheckpointFs(g).0, g.log.seg, g.now;
    CheckpointShapes(g);
    CheckpointFollows(fp, g, since0);
    FlushMovesOn(g.log, since);
    OneSegmentScanned(g.log, f.log.disk, since, r);
    FollowsIs(fp, f, since0);
    FollowsIs(fp, g, since0);
    FlushedBelow(fp.log, g.log, since0, since, f.log);
    var m := Recover(r, f.log.disk, since).inodes;
    forall ino: nat
      ensures SameAt(m, r.inodes, ino) <==> (ino !in f.inodeMap ==> NoRecord(f.log.disk, k, 0, ino))
      ensures ino in f.inodeMap ==> Occupied(f.log, f.inodeMap[ino])
    {
      if ino in f.inodeMap {
        LastFlushAgrees(fp.log, f.log, r, since0, since, fp.inodeMap, k, ino);
        LocatedIsOccupied(fp.log, f.log, since0, fp.inodeMap, f.inodeMap[ino], ino);
      } else {
        UnrecordedStaysOut(r, f.log.disk, since, k, ino);
      }
    }
    if forall ino: nat :: ino !in f.inodeMap ==> NoRecord(f.log.disk, k, 0, ino) {
      SameMaps(m, r.inodes);
    }
  }

  lemma FollowsIs(f0: Fs, f: Fs, since: nat)
    requires Follows(f0, f, since)
    ensures Grown(f0.log, f.log, since) && f.now >= since
    ensures forall ino :: ino in f.inodeMap ==> Located(f0.log, f.log, f0.inodeMap, f.inodeMap[ino], ino)
  {
  }

  /** What a checkpoint with something to flush does to the log. */
  lemma CheckpointShapes(g: Fs)
    requires Valid(g.log) && CanFlush(g.log) && |g.log.buf| > 1
    ensures var f := CheckpointFs(g).0;
            && Alike(Flush(g.log, g.now).0, f.log) && f.log.logHead == Flush(g.log, g.now).0.logHead
            && f.now == g.now && f.inodeMap == g.inodeMap && |f.log.buf| == |f.log.info| == 1 && Valid(f.log)
  {
    FlushShape(g);
    FlushFsFacts(g);
    FlushFacts(g.log, g.now);
    CheckpointShape(FlushFs(g).0);
  }

  lemma FlushedBelow(l0: State, l: State, since0: nat, since: nat, l': State)
    requires Grown(l0, l, since0) && |l.buf| > 1 && CanFlush(l) && since >= since0 && Alike(Flush(l, since).0, l')
    requires Grown(l0, l', since0)
    ensures WrittenSince(l0, l', l.seg) && l.seg < l'.seg
    ensures forall j :: l.seg < j < |l'.table| ==> !WrittenSince(l0, l', j)
    ensures forall j :: 0 <= j < |l'.table| && l'.table[j].state.Free? ==> j > l'.seg
  {
    hide Flush;
    WrittenByFlush(l0, l, since0, since, l.seg);
    FlushMovesOn(l, since);
    assert Placed(l0, l', since0, l.seg);
    forall j | l.seg < j < |l'.table|
      ensures !WrittenSince(l0, l', j)
    {
      WrittenByFlush(l0, l, since0, since, j);
    }
    forall j | 0 <= j < |l'.table| && l'.table[j].state.Free?
      ensures j > l'.seg
    {
      assert Placed(l0, l', since0, j);
    }
  }

  // ----------------------------------------------------- counts after recovery

  /** Different payload addresses of a segment have different offsets. */
  lemma {:induction false} OffsetsFit(refs: set<nat>, k: nat, n: nat)
    requires n >= 1 && forall a :: a in refs ==> a >= LOG_START && SegOf(a) == k && 1 <= OffOf(a) < n
    ensures |refs| <= n - 1
    decreases n
  {
    if n == 1 {
      assert refs == {};
    } else {
      var last := SegmentToBlock(k, 0) + n - 1;
      forall a | a in refs && a != last
        ensures OffOf(a) < n - 1
      {
        Address(a);
      }
      OffsetsFit(refs - {last}, k, n - 1);
    }
  }

  /** What the map loaded from the checkpoint names in a segment, its summary counts. */
  predicate Counted(r: Recovered, disk: Disk, k: nat)
  {
    && SummaryAt(disk, k).Summary? && 1 <= SummaryAt(disk, k).blockCount <= SEGMENT_BLOCKS
    && forall ino :: ino in r.inodes && r.inodes[ino] >= LOG_START && SegOf(r.inodes[ino]) == k ==>
         1 <= OffOf(r.inodes[ino]) < SummaryAt(disk, k).blockCount
  }

  ghost predicate Names(m: map<nat, nat>, a: nat)
  {
    exists ino :: ino in m && m[ino] == a
  }

  lemma RecoveredOffset(r: Recovered, disk: Disk, since: nat, k: nat, a: nat)
    requires Counted(r, disk, k) && a >= LOG_START && SegOf(a) == k && Names(Recover(r, disk, since).inodes, a)
    ensures 1 <= OffOf(a) < SummaryAt(disk, k).blockCount
  {
    var first := FirstSegment(r.logHead, |r.table|);
    var end := RunEnd(disk, first, |r.table|, since);
    var ino :| ino in Recover(r, disk, since).inodes && Recover(r, disk, since).inodes[ino] == a;
    ComesFrom(r, disk, first, end, ino);
    if !(ino in r.inodes && r.inodes[ino] == a) {
      var k': nat, i: nat :| first <= k' < end && Records(disk, k', i, ino) && a == SegmentToBlock(k', i + 1);
      assert k' == k && i < RecordCount(SummaryAt(disk, k).blockCount);
    }
  }

  /**
   * The live count that recovery enters for a replayed segment covers the locations that the
   * recovered inode map has in it.
   */
  lemma RecoveredCountCovers(r: Recovered, disk: Disk, since: nat, k: nat, refs: set<nat>)
    requires Counted(r, disk, k)
    requires Replayed(disk, FirstSegment(r.logHead, |r.table|), |r.table|, since, k)
    requires forall a :: a in refs ==> a >= LOG_START && SegOf(a) == k && Names(Recover(r, disk, since).inodes, a)
    ensures k < |Recover(r, disk, since).table| && |refs| <= Recover(r, disk, since).table[k].live
  {
    var first := FirstSegment(r.logHead, |r.table|);
    ReplayedEntries(r, disk, first, RunEnd(disk, first, |r.table|, since), since, k);
    forall a | a in refs
      ensures 1 <= OffOf(a) < SummaryAt(disk, k).blockCount
    {
      RecoveredOffset(r, disk, since, k, a);
    }
    OffsetsFit(refs, k, SummaryAt(disk, k).blockCount);
  }

  /** So the cleaner does not free a replayed segment as empty while the recovered map names a block in it. */
  lemma RecoveredIsNotFreed(r: Recovered, disk: Disk, since: nat, k: nat, l: State, ino: nat)
    requires Counted(r, disk, k)
    requires Replayed(disk, FirstSegment(r.logHead, |r.table|), |r.table|, since, k)
    requires var r' := Recover(r, disk, since);
             l.table == r'.table && ino in r'.inodes && r'.inodes[ino] >= LOG_START && SegOf(r'.inodes[ino]) == k
    ensures k < |FreeEmpty(l, k).table| && FreeEmpty(l, k).table[k].state.Full?
  {
    var a := Recover(r, disk, since).inodes[ino];
    assert Names(Recover(r, disk, since).inodes, a);
    RecoveredCountCovers(r, disk, since, k, {a});
    var first := FirstSegment(r.logHead, |r.table|);
    ReplayedEntries(r, disk, first, RunEnd(disk, first, |r.table|, since), since, k);
  }

  /** The segments written since a checkpoint are counted so. */
  lemma WrittenIsCounted(f0: Fs, f: Fs, r: Recovered, since: nat, k: nat)
    requires Checkpointed(f0, r, since) && Follows(f0, f, since) && WrittenSince(f0.log, f.log, k)
    ensures Counted(r, f.log.disk, k)
  {
    ContinuesNow(f0.log, f.log, since, k);
    forall ino | ino in r.inodes
      ensures SegOf(r.inodes[ino]) != k
    {
      assert Occupied(f0.log, f0.inodeMap[ino]);
    }
  }

  /** Inode number 0 means no inode, and is never entered. */
  lemma ZeroIsNotEntered(r: Recovered, disk: Disk, since: nat)
    ensures 0 in Recover(r, disk, since).inodes <==> 0 in r.inodes
  {
    var first := FirstSegment(r.logHead, |r.table|);
    ComesFrom(r, disk, first, RunEnd(disk, first, |r.table|, since), 0);
  }
}
