/**
 * The cleaning policy and the cleaning run (src/gc.c): which segment is picked, and
 * what a whole run of the collector does.
 */
module Collector {
  import opened Layout
  import opened Log
  import opened FileSystem
  import opened Cleaner
  import opened CleanerRuns
  import A = Accounting
  import FsRuns
  import Durability

  const UINT64 := 0x1_0000_0000_0000_0000
  const UTILIZATION_THRESHOLD := 50
  const THRESHOLD_HIGH := 20
  const MAX_CLEANED := 5

  /** Seconds since the segment was written, as unsigned arithmetic gives it. */
  function Age(u: Usage, now: nat): (a: nat)
  {
    (now - u.timestamp) % UINT64
  }

  /** The live part of a segment. */
  function Utilization(live: nat): (r: real)
    ensures r >= 0.0
  {
    live as real / (SEGMENT_BLOCKS - 1) as real
  }

  function Times(a: real, b: real): real
  {
    a * b
  }

  function Over(a: real, b: real): real
    requires b != 0.0
  {
    a / b
  }

  function Worth(age: real, utilization: real): real
    requires utilization >= 0.0
  {
    Over(Times(age, 1.0 - utilization), 1.0 + utilization)
  }

  lemma UtilizationFacts(live: nat, more: nat)
    requires live <= more
    ensures 0.0 <= Utilization(live) <= Utilization(more)
    ensures live < more ==> Utilization(live) < Utilization(more)
    ensures more < SEGMENT_BLOCKS - 1 ==> Utilization(more) < 1.0
  {
  }

  /** segment_utility of a FULL segment: old and empty segments are worth most. */
  function Utility(u: Usage, now: nat): real
  {
    Worth(Age(u, now) as real, Utilization(u.live))
  }

  /** FULL, and not more than half of it live. */
  predicate Candidate(u: Usage)
  {
    u.state.Full? && u.live * 100 / (SEGMENT_BLOCKS - 1) <= UTILIZATION_THRESHOLD
  }

  lemma CandidateIsNotFull(u: Usage)
    requires Candidate(u)
    ensures u.live < SEGMENT_BLOCKS - 1
  {
  }

  lemma UtilityNotNegative(u: Usage, now: nat)
    requires Candidate(u)
    ensures Utility(u, now) >= 0.0
  {
    hide Utilization, Candidate, Worth, Age;
    CandidateIsNotFull(u);
    UtilizationFacts(u.live, u.live);
    WorthNotNegative(Age(u, now) as real, Utilization(u.live));
  }

  lemma WorthNotNegative(a: real, x: real)
    requires a >= 0.0 && 0.0 <= x < 1.0
    ensures Worth(a, x) >= 0.0
  {
    hide Times, Over;
    NotNegative(a, 1.0 - x, 1.0 + x);
  }

  lemma NotNegative(a: real, b: real, c: real)
    requires a >= 0.0 && b >= 0.0 && c > 0.0
    ensures Over(Times(a, b), c) >= 0.0
  {
    assert a * b >= 0.0;
  }

  /** The age of a segment whose summary is not from the future. */
  lemma AgeIs(u: Usage, now: nat)
    requires u.timestamp <= now < UINT64
    ensures Age(u, now) == now - u.timestamp
  {
  }

  /**
   * The cost-benefit promise: a candidate written earlier, with no more live blocks, is worth
   * at least as much, and more if it is emptier and has aged.
   */
  lemma OlderAndEmptierIsBetter(u: Usage, v: Usage, now: nat)
    requires Candidate(u) && Candidate(v) && u.timestamp <= v.timestamp <= now < UINT64 && u.live <= v.live
    ensures Utility(u, now) >= Utility(v, now)
    ensures u.timestamp < now && u.live < v.live ==> Utility(u, now) > Utility(v, now)
  {
    AgeIs(u, now);
    AgeIs(v, now);
    hide Utilization, Candidate, Worth, Age;
    CandidateIsNotFull(v);
    UtilizationFacts(u.live, v.live);
    Ratio(Age(u, now) as real, Age(v, now) as real, Utilization(u.live), Utilization(v.live));
  }

  /** The formula itself, cleared of fractions: age times the dead blocks, over all blocks plus the live ones. */
  lemma UtilityIs(u: Usage, now: nat)
    requires u.timestamp <= now < UINT64
    ensures Utility(u, now) * (1023 + u.live) as real == (now - u.timestamp) as real * (1023 - u.live) as real
  {
    hide Utilization, Worth, Age;
    AgeIs(u, now);
    var x := Utilization(u.live);
    FractionOf(u.live);
    Cleared(Utility(u, now), (now - u.timestamp) as real, x, u.live as real);
    WorthTimes((now - u.timestamp) as real, x);
  }

  lemma FractionOf(live: nat)
    ensures Utilization(live) * 1023.0 == live as real
  {
  }

  lemma WorthTimes(a: real, x: real)
    requires x >= 0.0
    ensures Worth(a, x) * (1.0 + x) == a * (1.0 - x)
  {
  }

  lemma Cleared(w: real, a: real, x: real, live: real)
    requires x * 1023.0 == live
    ensures w * (1.0 + x) == a * (1.0 - x) ==> w * (1023.0 + live) == a * (1023.0 - live)
  {
    assert w * (1023.0 + live) == (w * (1.0 + x)) * 1023.0;
    assert a * (1023.0 - live) == (a * (1.0 - x)) * 1023.0;
  }

  lemma Ratio(a: real, b: real, x: real, y: real)
    requires a >= b >= 0.0 && 0.0 <= x <= y < 1.0
    ensures Worth(a, x) >= Worth(b, y) && (a > 0.0 && x < y ==> Worth(a, x) > Worth(b, y))
  {
    hide Times, Over;
    Numerators(a, b, x, y);
    Quotients(Times(a, 1.0 - x), 1.0 + x, Times(b, 1.0 - y), 1.0 + y);
  }

  lemma Numerators(a: real, b: real, x: real, y: real)
    requires a >= b >= 0.0 && 0.0 <= x <= y < 1.0
    ensures Times(Times(a, 1.0 - x), 1.0 + y) >= Times(Times(b, 1.0 - y), 1.0 + x)
    ensures a > 0.0 && x < y ==> Times(Times(a, 1.0 - x), 1.0 + y) > Times(Times(b, 1.0 - y), 1.0 + x)
  {
    hide Times;
    Crosswise(x, y);
    Associate(a, 1.0 - x, 1.0 + y);
    Associate(b, 1.0 - y, 1.0 + x);
    Products(a, b, Times(1.0 - x, 1.0 + y), Times(1.0 - y, 1.0 + x));
  }

  lemma Associate(a: real, p: real, s: real)
    ensures Times(Times(a, p), s) == Times(a, Times(p, s))
  {
  }

  lemma Crosswise(x: real, y: real)
    requires 0.0 <= x <= y < 1.0
    ensures Times(1.0 - x, 1.0 + y) >= Times(1.0 - y, 1.0 + x) >= 0.0
    ensures x < y ==> Times(1.0 - x, 1.0 + y) > Times(1.0 - y, 1.0 + x)
  {
    Scale(0.0, 1.0 - y, 1.0 + x);
    assert (1.0 - x) * (1.0 + y) - (1.0 - y) * (1.0 + x) == 2.0 * (y - x);
  }

  lemma Products(a: real, b: real, p: real, q: real)
    requires a >= b >= 0.0 && p >= q >= 0.0
    ensures Times(a, p) >= Times(b, q) && (a > 0.0 && p > q ==> Times(a, p) > Times(b, q))
  {
    assert a * p >= a * q >= b * q;
  }

  lemma Scale(c: real, d: real, m: real)
    requires m > 0.0
    ensures Times(c, m) < Times(d, m) <==> c < d
  {
  }

  lemma Cancel(a: real, q: real)
    requires q > 0.0
    ensures Times(Over(a, q), q) == a
  {
  }

  lemma Commute(q: real, s: real)
    requires q > 0.0 && s > 0.0
    ensures Times(q, s) == Times(s, q) > 0.0
  {
  }

  /** Fractions compare as their cross products do. */
  lemma Quotients(a: real, q: real, b: real, s: real)
    requires q > 0.0 && s > 0.0
    ensures Times(a, s) < Times(b, q) <==> Over(a, q) < Over(b, s)
    ensures Times(a, s) > Times(b, q) <==> Over(a, q) > Over(b, s)
  {
    hide Times, Over;
    var c, d := Over(a, q), Over(b, s);
    Cancel(a, q);
    Cancel(b, s);
    Associate(c, q, s);
    Associate(d, s, q);
    Commute(q, s);
    Scale(c, d, Times(q, s));
    Scale(d, c, Times(q, s));
  }

  /** `k` is the first of the candidates of greatest utility, or the table size if there is none. */
  predicate IsBest(t: seq<Usage>, now: nat, k: nat)
  {
    if k < |t| then
      && Candidate(t[k])
      && (forall j :: 0 <= j < |t| && Candidate(t[j]) ==> Utility(t[j], now) <= Utility(t[k], now))
      && (forall j :: 0 <= j < k && Candidate(t[j]) ==> Utility(t[j], now) < Utility(t[k], now))
    else k == |t| && forall j :: 0 <= j < |t| ==> !Candidate(t[j])
  }

  /** lsfs_gc_select_segment. */
  function Best(t: seq<Usage>, now: nat): (k: nat)
    ensures IsBest(t, now, k)
    decreases |t|
  {
    if t == [] then 0
    else
      var n := |t| - 1;
      var k := Best(t[..n], now);
      assert forall j :: 0 <= j < n ==> t[..n][j] == t[j];
      if !Candidate(t[n]) then (if k < n then k else n + 1)
      else if k < n && Utility(t[n], now) <= Utility(t[k], now) then k
      else n
  }

  lemma BestIsUnique(t: seq<Usage>, now: nat, k: nat)
    requires IsBest(t, now, k)
    ensures k == Best(t, now)
  {
    var b := Best(t, now);
    if k < |t| && b < |t| {
      assert Utility(t[k], now) == Utility(t[b], now);
    }
  }

  function FreePercent(l: State): nat
    requires |l.table| > 0
  {
    l.freeCount * 100 / |l.table|
  }

  /** The cleaning loop of lsfs_gc_run with `left` rounds to go: the state, the segments cleaned and the last result. */
  function Rounds(f: Fs, left: nat): (r: (Fs, nat, CleanResult))
    requires Sound(f)
    ensures Sound(r.0) && r.1 <= left
    decreases left
  {
    var k := Best(f.log.table, f.now);
    if left == 0 || FreePercent(f.log) >= THRESHOLD_HIGH || k == |f.log.table| then (f, 0, Cleaned)
    else
      var (f1, res) := CleanSegment(f, k);
      if res != Cleaned then (f1, 0, res)
      else
        var (f2, cleaned, last) := Rounds(f1, left - 1);
        (f2, cleaned + 1, last)
  }

  /** lsfs_gc_run: clean, and if anything was cleaned, flush and write a checkpoint. */
  function Collect(f: Fs): (r: (Fs, CleanResult))
    requires Sound(f)
    ensures Sound(r.0)
  {
    var (f1, cleaned, res) := Rounds(f, MAX_CLEANED);
    (if cleaned == 0 then f1 else CheckpointFs(FlushFs(f1).0).0, res)
  }

  /** A candidate is FULL with at most 521 live blocks. */
  lemma CandidateIs(u: Usage)
    ensures Candidate(u) <==> u.state.Full? && u.live <= 521
  {
  }

  /** Cleaning stops only at an error, at a fifth of the segments FREE, without a candidate, or after all rounds. */
  lemma {:induction false} RoundsGoOn(f: Fs, left: nat)
    requires Sound(f)
    ensures var (f', cleaned, res) := Rounds(f, left);
            && (cleaned == 0 && res == Cleaned ==> f' == f)
            && (res != Cleaned || cleaned == left || f'.log.freeCount * 100 / |f'.log.table| >= 20
                || forall k :: 0 <= k < |f'.log.table| ==> !Candidate(f'.log.table[k]))
    decreases left
  {
    hide CleanSegment;
    var k := Best(f.log.table, f.now);
    if left > 0 && FreePercent(f.log) < THRESHOLD_HIGH && k < |f.log.table| && CleanSegment(f, k).1 == Cleaned {
      RoundsGoOn(CleanSegment(f, k).0, left - 1);
    }
  }

  /** Each round cleans the first candidate of greatest utility. */
  lemma RoundPicksBest(f: Fs, left: nat, k: nat)
    requires Sound(f) && left > 0 && f.log.freeCount * 100 / |f.log.table| < 20
    requires k < |f.log.table| && IsBest(f.log.table, f.now, k)
    ensures var (f1, res) := CleanSegment(f, k);
            if res != Cleaned then Rounds(f, left) == (f1, 0, res)
            else Rounds(f, left) == (Rounds(f1, left - 1).0, Rounds(f1, left - 1).1 + 1, Rounds(f1, left - 1).2)
  {
    hide CleanSegment;
    BestIsUnique(f.log.table, f.now, k);
  }

  /** The collector stops after five segments, and before only for want of anything to do, or at an error that it reports. */
  lemma CollectGoesOn(f: Fs)
    requires Sound(f)
    ensures var (f', cleaned, res) := Rounds(f, MAX_CLEANED);
            && Collect(f).1 == res && cleaned <= 5
            && (res != Cleaned || cleaned == 5 || f'.log.freeCount * 100 / |f'.log.table| >= 20
                || forall k :: 0 <= k < |f'.log.table| ==> !(f'.log.table[k].state.Full? && f'.log.table[k].live <= 521))
  {
    RoundsGoOn(f, MAX_CLEANED);
    forall u: Usage
      ensures Candidate(u) <==> u.state.Full? && u.live <= 521
    {
      CandidateIs(u);
    }
  }

  /** With a fifth of the segments FREE, or no candidate, nothing happens at all. */
  lemma NothingToCollect(f: Fs)
    requires Sound(f)
    requires f.log.freeCount * 100 / |f.log.table| >= 20
             || forall k :: 0 <= k < |f.log.table| ==> !(f.log.table[k].state.Full? && f.log.table[k].live <= 521)
    ensures Collect(f) == (f, Cleaned)
  {
    var k := Best(f.log.table, f.now);
    if k < |f.log.table| {
      CandidateIs(f.log.table[k]);
    }
  }

  // --------------------------------------------------- a run keeps contents

  /** A segment with live blocks can be copied: it has its records, and only images and direct blocks are in use. */
  ghost predicate Copies(f: Fs, m: A.Slots, k: nat)
    requires Sound(f)
  {
    Cleanable(f, k) && CleaningAllocates(f, k) && Relocatable(m, k)
  }

  /** The slots after one round; freeing an empty segment changes none. */
  ghost function SlotsAfterRound(f: Fs, m: A.Slots, k: nat): A.Slots
    requires Sound(f) && k < |f.log.table|
  {
    if f.log.table[k].live == 0 then m else SlotsAfter(f, m, k)
  }

  /** Every segment that a run copies can be copied. Nothing is asked of the segments it frees as empty. */
  ghost predicate RoundsClean(f: Fs, m: A.Slots, left: nat)
    requires Sound(f)
    decreases left
  {
    var k := Best(f.log.table, f.now);
    left == 0 || FreePercent(f.log) >= THRESHOLD_HIGH || k == |f.log.table| ||
    ((f.log.table[k].live > 0 ==> Copies(f, m, k)) && RoundsClean(CleanSegment(f, k).0, SlotsAfterRound(f, m, k), left - 1))
  }

  lemma RoundKeeps(f: Fs, m: A.Slots, k: nat)
    requires Truth(f) && A.Inv(f, m) && k < |f.log.table| && Candidate(f.log.table[k])
    requires f.log.table[k].live > 0 ==> Copies(f, m, k)
    ensures var (f', r) := CleanSegment(f, k);
            Truth(f') && SameContents(f, f') && A.Inv(f', SlotsAfterRound(f, m, k)) && r == Cleaned
  {
    if f.log.table[k].live == 0 {
      hide Truth, A.Inv, SameContents;
      A.InvIsValid(f, m);
      FreeEmptyKeepsTruth(f, m, k);
      A.StepKeepsInv(f, m, FsRuns.FreeEmptyStep(k));
    } else {
      hide Truth, A.Inv, SameContents, CleanFrom;
      CleaningPreservesContents(f, k);
      CleanSegmentAccounts(f, m, k);
    }
  }

  lemma {:induction false} RoundsKeep(f: Fs, m: A.Slots, left: nat)
    requires Truth(f) && A.Inv(f, m) && Sound(f) && RoundsClean(f, m, left)
    ensures var (f', _, r) := Rounds(f, left);
            Truth(f') && SameContents(f, f') && r == Cleaned
    decreases left
  {
    hide Truth, SameContents, CleanSegment, A.Inv, Copies, SlotsAfterRound;
    var k := Best(f.log.table, f.now);
    if left == 0 || FreePercent(f.log) >= THRESHOLD_HIGH || k == |f.log.table| {
      SameContentsReflexive(f);
    } else {
      var f1 := CleanSegment(f, k).0;
      RoundKeeps(f, m, k);
      RoundsKeep(f1, SlotsAfterRound(f, m, k), left - 1);
      SameContentsTransitive(f, f1, Rounds(f1, left - 1).0);
    }
  }

  /** Truthful records, sound counts, segments that can be copied, and room for the last flush. */
  ghost predicate Collects(f: Fs, m: A.Slots)
  {
    && Truth(f) && A.Inv(f, m) && Sound(f) && RoundsClean(f, m, MAX_CLEANED)
    && CanFlush(Rounds(f, MAX_CLEANED).0.log)
  }

  lemma ExtendsSameContents(f: Fs, f': Fs)
    requires Truth(f) && Extends(f.log, f'.log) && f'.inodeMap == f.inodeMap && f'.icache == f.icache
    ensures SameContents(f, f')
  {
  }

  lemma FlushKeepsContents(f: Fs)
    requires Truth(f) && CanFlush(f.log)
    ensures var f' := FlushFs(f).0;
            Truth(f') && SameContents(f, f') && |f'.log.buf| == 1
  {
    FlushFsFacts(f);
    ExtendsKeepsTruth(f, FlushFs(f).0);
    ExtendsSameContents(f, FlushFs(f).0);
  }

  lemma CheckpointKeepsContents(f: Fs)
    requires Truth(f) && |f.log.buf| <= 1
    ensures var f' := CheckpointFs(f).0;
            Truth(f') && SameContents(f, f')
  {
    CheckpointShape(f);
    SyncKeeps(f.log);
    var f' := CheckpointFs(f).0;
    assert Extends(f.log, f'.log);
    ExtendsKeepsTruth(f, f');
    ExtendsSameContents(f, f');
  }

  /**
   * A whole run of the collector keeps contents: after up to five cleanings, the flush
   * and the checkpoint, every mapped inode image and every direct block of a cached
   * inode reads as before. That the segments freed as empty are empty follows from the
   * accounting at the start.
   */
  lemma CollectingKeepsContents(f: Fs, m: A.Slots)
    requires Collects(f, m)
    ensures var (f', r) := Collect(f);
            Truth(f') && SameContents(f, f') && r == Cleaned
  {
    hide Truth, SameContents, CleanSegment, FlushFs, CheckpointFs, A.Inv;
    RoundsKeep(f, m, MAX_CLEANED);
    var (f1, cleaned, _) := Rounds(f, MAX_CLEANED);
    if cleaned > 0 {
      FlushKeepsContents(f1);
      var f2 := FlushFs(f1).0;
      CheckpointKeepsContents(f2);
      SameContentsTransitive(f, f1, f2);
      SameContentsTransitive(f, f2, CheckpointFs(f2).0);
    }
  }

  // -------------------------------------------- what a run leaves on the disk

  lemma AppendReadonly(f: Fs, data: Block, i: BlockInfo)
    requires Valid(f.log) && CanAppend(f.log)
    ensures AppendFs(f, data, i).0.log.readonly == f.log.readonly
  {
    if |f.log.buf| == SEGMENT_BLOCKS {
      FlushShape(f);
    }
  }

  lemma {:induction false} CleanFromReadonly(f: Fs, k: nat, bs: seq<Block>, i: nat, n: nat)
    requires Valid(f.log) && |bs| == SEGMENT_BLOCKS && 1 <= i <= n <= SEGMENT_BLOCKS && Allocates(f, k, bs, i, n)
    ensures CleanFrom(f, k, bs, i, n).0.log.readonly == f.log.readonly
    decreases n - i
  {
    if i < n {
      var r, a := RecordAt(bs[0], i - 1), SegmentToBlock(k, i);
      if Live(f, r, a) {
        AppendFsFacts(f, bs[i], r);
        AppendReadonly(f, bs[i], r);
      }
      CleanFromReadonly(CleanBlock(f, bs[i], r, a).0, k, bs, i + 1, n);
    }
  }

  lemma RoundReadonly(f: Fs, m: A.Slots, k: nat)
    requires Truth(f) && k < |f.log.table| && Candidate(f.log.table[k]) && (f.log.table[k].live > 0 ==> Copies(f, m, k))
    ensures CleanSegment(f, k).0.log.readonly == f.log.readonly
  {
    if f.log.table[k].live > 0 {
      hide CleanFrom, Allocates;
      var bs := ReadSegment(f.log.disk, k);
      StartFacts(f, k);
      CleanFromReadonly(Started(f, k), k, bs, 1, BlocksToVisit(bs[0]));
    }
  }

  lemma {:induction false} RoundsReadonly(f: Fs, m: A.Slots, left: nat)
    requires Truth(f) && A.Inv(f, m) && Sound(f) && RoundsClean(f, m, left)
    ensures Rounds(f, left).0.log.readonly == f.log.readonly
    decreases left
  {
    hide Truth, CleanSegment, A.Inv, Copies, SlotsAfterRound, SameContents;
    var k := Best(f.log.table, f.now);
    if left > 0 && FreePercent(f.log) < THRESHOLD_HIGH && k < |f.log.table| {
      RoundKeeps(f, m, k);
      RoundReadonly(f, m, k);
      RoundsReadonly(CleanSegment(f, k).0, SlotsAfterRound(f, m, k), left - 1);
    }
  }

  /** Everything that the inode map and direct pointers lead to is on the disk and synced. */
  ghost predicate AllDurable(f: Fs)
  {
    && (forall ino :: ino in f.inodeMap ==> Durability.Durable(f.log, f.inodeMap[ino]))
    && (forall ino, idx :: ino in f.icache && 0 <= idx < |f.icache[ino].disk.direct| && f.icache[ino].disk.direct[idx] != 0 ==>
          Durability.Durable(f.log, f.icache[ino].disk.direct[idx]))
  }

  /** Nothing is buffered or unsynced, and the last checkpoint saved this inode map. */
  predicate AllSaved(f: Fs)
  {
    && |f.log.buf| == 1 && f.log.unsynced == {}
    && f.checkpoints != [] && f.checkpoints[|f.checkpoints| - 1].inodeMap == f.inodeMap
    && f.lastCheckpoint == f.now && f.writes == 0
  }

  /** The flush and the checkpoint at the end of a run. */
  lemma EndIsSaved(f: Fs)
    requires Truth(f) && CanFlush(f.log) && !f.log.readonly && |f.inodeMap| <= MAX_SAVED
    ensures var f' := CheckpointFs(FlushFs(f).0).0;
            AllSaved(f') && AllDurable(f')
  {
    FlushKeepsContents(f);
    FlushShape(f);
    var f2 := FlushFs(f).0;
    CheckpointKeepsContents(f2);
  }

  lemma SameSize(m: map<nat, nat>, m': map<nat, nat>)
    requires m.Keys == m'.Keys
    ensures |m| == |m'|
  {
    assert |m| == |m.Keys| && |m'| == |m'.Keys|;
  }

  /**
   * If the collector made a FULL segment FREE, then when it is done nothing of what it copied
   * is only in the buffer or unsynced, and the last checkpoint saves the inode map that leads
   * to the copies.
   */
  lemma CollectedIsSaved(f: Fs, m: A.Slots, k: nat)
    requires Collects(f, m) && !f.log.readonly && |f.inodeMap| <= MAX_SAVED
    requires k < |f.log.table| && f.log.table[k].state.Full?
    requires k < |Collect(f).0.log.table| && Collect(f).0.log.table[k].state.Free?
    ensures AllSaved(Collect(f).0) && AllDurable(Collect(f).0)
  {
    hide Truth, CleanSegment, FlushFs, CheckpointFs, A.Inv, AllSaved, AllDurable;
    RoundsKeep(f, m, MAX_CLEANED);
    RoundsReadonly(f, m, MAX_CLEANED);
    var (f1, cleaned, res) := Rounds(f, MAX_CLEANED);
    assert cleaned == 0 ==> f1 == f;
    SameSize(f1.inodeMap, f.inodeMap);
    EndIsSaved(f1);
  }
}
