/**
 * Whole runs of the log: any interleaving of appends, flushes, live-count
 * updates, syncs and segment cleaning, as long as every flush that has to
 * allocate a segment finds one.
 */
module LogRuns {
  import opened Layout
  import opened Log

  datatype Step =
    | AppendStep(data: Block, info: BlockInfo, now: nat)
    | FlushStep(now: nat)
    | MarkDeadStep(a: nat)
    | FreeEmptyStep(k: nat)
    | StartCleaningStep(k: nat)
    | AbandonCleaningStep(k: nat)
    | FinishCleaningStep(k: nat)
    | SyncStep

  /** A cleaner that cannot read its segment puts it back to FULL. */
  function AbandonCleaning(l: State, k: nat): State
  {
    if k < |l.table| && l.table[k].state.Cleaning?
    then SetUsage(l, k, l.table[k].(state := Full))
    else l
  }

  function Apply(l: State, s: Step): State
    requires l.seg < |l.table|
  {
    match s
    case AppendStep(data, info, now) => Append(l, data, info, now).0
    case FlushStep(now) => Flush(l, now).0
    case MarkDeadStep(a) => MarkDead(l, a)
    case FreeEmptyStep(k) => FreeEmpty(l, k)
    case StartCleaningStep(k) => StartCleaning(l, k)
    case AbandonCleaningStep(k) => AbandonCleaning(l, k)
    case FinishCleaningStep(k) => if k < |l.table| && l.table[k].state.Cleaning? then FinishCleaning(l, k) else l
    case SyncStep => Sync(l)
  }

  predicate Allocates(l: State, s: Step)
  {
    && (s.AppendStep? ==> CanAppend(l))
    && (s.FlushStep? ==> CanFlush(l))
  }

  /** The step turns segment `k` from in use to FREE. */
  predicate Frees(l: State, s: Step, k: nat)
  {
    && k < |l.table| && l.seg < |l.table|
    && !l.table[k].state.Free?
    && k < |Apply(l, s).table| && Apply(l, s).table[k].state.Free?
  }

  predicate Run(ss: seq<State>, steps: seq<Step>)
  {
    && |ss| == |steps| + 1
    && Valid(ss[0])
    && forall i :: 0 <= i < |steps| ==>
         ss[i].seg < |ss[i].table| && Allocates(ss[i], steps[i]) && ss[i + 1] == Apply(ss[i], steps[i])
  }

  /** The address that the append at position `i` of a run returned. */
  function Appended(ss: seq<State>, steps: seq<Step>, i: nat): nat
    requires Run(ss, steps) && i < |steps| && steps[i].AppendStep?
  {
    Append(ss[i], steps[i].data, steps[i].info, steps[i].now).1
  }

  /** Segment `k` is not freed by any of the steps `i..j`. */
  predicate NotFreed(ss: seq<State>, steps: seq<Step>, i: nat, j: nat, k: nat)
    requires Run(ss, steps) && i <= j <= |steps|
  {
    forall n :: i <= n < j ==> !Frees(ss[n], steps[n], k)
  }

  lemma StepKeepsValid(l: State, s: Step)
    requires Valid(l) && Allocates(l, s)
    ensures Valid(Apply(l, s)) && |Apply(l, s).table| == |l.table|
  {
    match s
    case AppendStep(data, info, now) => AppendFacts(l, data, info, now);
    case FlushStep(now) => FlushFacts(l, now);
    case MarkDeadStep(a) =>
      var k := BlockToSegment(a).0;
      if k < |l.table| && l.table[k].live > 0 {
        CountFreeUpdate(l.table, k, l.table[k].(live := l.table[k].live - 1));
      }
    case FreeEmptyStep(k) =>
      if k < |l.table| {
        CountFreeUpdate(l.table, k, l.table[k].(state := Free));
      }
    case StartCleaningStep(k) =>
      if k < |l.table| {
        CountFreeUpdate(l.table, k, l.table[k].(state := Cleaning));
      }
    case AbandonCleaningStep(k) =>
      if k < |l.table| {
        CountFreeUpdate(l.table, k, l.table[k].(state := Full));
      }
    case FinishCleaningStep(k) =>
      if k < |l.table| {
        CountFreeUpdate(l.table, k, l.table[k].(state := Free, live := 0));
      }
    case SyncStep =>
  }

  /** A step keeps a held block unless it frees the segment, and never makes another segment in use the filled one. */
  lemma StepKeepsHeld(l: State, s: Step, a: nat, b: Block, i: BlockInfo)
    requires Valid(l) && Allocates(l, s) && Holds(l, a, b, i) && !Frees(l, s, SegOf(a))
    ensures Holds(Apply(l, s), a, b, i)
    ensures SegOf(a) != l.seg ==> SegOf(a) != Apply(l, s).seg
  {
    match s
    case AppendStep(data, info, now) =>
      AppendFacts(l, data, info, now);
      NewSegmentWasFree(l, now);
    case FlushStep(now) =>
      FlushFacts(l, now);
      NewSegmentWasFree(l, now);
    case _ =>
  }

  lemma NewSegmentWasFree(l: State, now: nat)
    requires Valid(l)
    ensures var l' := Flush(l, now).0;
            CanFlush(l) && l'.seg != l.seg ==> l'.seg < |l.table| && l.table[l'.seg].state.Free?
  {
    if |l.buf| > 1 {
      CountFreeUpdate(l.table, l.seg, Usage(Full, |l.buf| - 1, now));
      AllocFacts(WriteOut(l, now), now);
    }
  }

  /**
   * The segment state machine: in every state of every run the free count is the
   * number of FREE segments, the segment being filled is ACTIVE, the buffer has
   * 1 to 1024 blocks, and allocation succeeds exactly when the count is positive.
   */
  lemma {:induction false} RunKeepsValid(ss: seq<State>, steps: seq<Step>, n: nat, now: nat)
    requires Run(ss, steps) && n <= |steps|
    ensures Valid(ss[n]) && |ss[n].table| == |ss[0].table|
    ensures ss[n].freeCount == CountFree(ss[n].table)
    ensures ss[n].table[ss[n].seg].state.Active? && 1 <= |ss[n].buf| <= SEGMENT_BLOCKS
    ensures Alloc(ss[n], now).1 <==> ss[n].freeCount > 0
  {
    if n > 0 {
      RunKeepsValid(ss, steps, n - 1, now);
      StepKeepsValid(ss[n - 1], steps[n - 1]);
    }
    AllocFacts(ss[n], now);
  }

  lemma {:induction false} HeldPersists(ss: seq<State>, steps: seq<Step>, i: nat, j: nat,
                                        a: nat, b: Block, r: BlockInfo)
    requires Run(ss, steps) && i <= j <= |steps|
    requires Holds(ss[i], a, b, r) && NotFreed(ss, steps, i, j, SegOf(a))
    ensures Holds(ss[j], a, b, r)
    ensures SegOf(a) != ss[i].seg ==> SegOf(a) != ss[j].seg
  {
    hide Holds, Apply, Frees;
    if i < j {
      HeldPersists(ss, steps, i, j - 1, a, b, r);
      RunKeepsValid(ss, steps, j - 1, 0);
      assert !Frees(ss[j - 1], steps[j - 1], SegOf(a));
      StepKeepsHeld(ss[j - 1], steps[j - 1], a, b, r);
    }
  }

  /** Every append returns the address of a payload block inside the log, with the data readable there. */
  lemma AppendIsInLog(ss: seq<State>, steps: seq<Step>, i: nat)
    requires Run(ss, steps) && i < |steps| && steps[i].AppendStep?
    ensures var a := Appended(ss, steps, i);
            && OffOf(a) >= 1
            && LOG_START < a < LOG_START + |ss[0].table| * SEGMENT_BLOCKS
            && Holds(ss[i + 1], a, steps[i].data, steps[i].info)
  {
    RunKeepsValid(ss, steps, i, 0);
    RunKeepsValid(ss, steps, i + 1, 0);
    AppendFacts(ss[i], steps[i].data, steps[i].info, steps[i].now);
    var a := Appended(ss, steps, i);
    Address(a);
    assert SegOf(a) + 1 <= |ss[0].table|;
  }

  /** Two appends return different addresses unless the first one's segment was freed in between. */
  lemma AddressesDiffer(ss: seq<State>, steps: seq<Step>, i: nat, j: nat)
    requires Run(ss, steps) && i < j < |steps| && steps[i].AppendStep? && steps[j].AppendStep?
    requires NotFreed(ss, steps, i + 1, j, SegOf(Appended(ss, steps, i)))
    ensures Appended(ss, steps, i) != Appended(ss, steps, j)
  {
    AppendIsInLog(ss, steps, i);
    HeldPersists(ss, steps, i + 1, j, Appended(ss, steps, i), steps[i].data, steps[i].info);
    RunKeepsValid(ss, steps, j, 0);
    AppendFacts(ss[j], steps[j].data, steps[j].info, steps[j].now);
  }

  /**
   * The log is append-only: once a flush follows an append, the disk holds exactly
   * the appended block at the returned address, until its segment is freed.
   */
  lemma FlushedStaysOnDisk(ss: seq<State>, steps: seq<Step>, i: nat, f: nat, j: nat)
    requires Run(ss, steps) && i < f < j <= |steps| && steps[i].AppendStep? && steps[f].FlushStep?
    requires NotFreed(ss, steps, i + 1, j, SegOf(Appended(ss, steps, i)))
    ensures DiskAt(ss[j].disk, Appended(ss, steps, i)) == steps[i].data
    ensures Recorded(ss[j], Appended(ss, steps, i), steps[i].info)
  {
    var a := Appended(ss, steps, i);
    AppendIsInLog(ss, steps, i);
    HeldPersists(ss, steps, i + 1, f, a, steps[i].data, steps[i].info);
    RunKeepsValid(ss, steps, f, 0);
    FlushFacts(ss[f], steps[f].now);
    HeldPersists(ss, steps, f + 1, j, a, steps[i].data, steps[i].info);
  }

  /**
   * Without a free segment the property fails: the flush leaves the segment it just
   * wrote as the one being filled, so the next append reuses its first address.
   */
  lemma AppendAfterFlush(l: State, data: Block, i: BlockInfo, now: nat)
    requires Valid(l) && !l.readonly && |l.buf| > 1
    ensures var l' := Flush(l, now).0;
            !Occupied(l, Append(l', data, i, now).1) <==> l.freeCount > 0
  {
    var l' := Flush(l, now).0;
    if l.freeCount > 0 {
      FlushFacts(l, now);
      AppendFacts(l', data, i, now);
    } else {
      assert l'.seg == l.seg;
      assert Append(l', data, i, now).1 == SegmentToBlock(l.seg, 1);
    }
  }
}
