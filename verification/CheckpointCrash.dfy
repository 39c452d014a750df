/**
 * Crash atomicity of checkpoints (src/checkpoint.c): the machine below makes one
 * block write or sync at a time, other threads write outside the checkpoint regions
 * and sync at any moment, and a crash keeps any subset of the unsynced writes.
 */
module CheckpointCrash {
  import opened Layout
  import opened CheckpointFormat

  datatype Write = Write(a: nat, b: Block)

  /** The disk as of the last sync, and the writes since then in order. */
  datatype Device = Device(durable: Disk, pending: seq<Write>)

  /** Applies the writes for which `keep` holds. */
  function Survivor(d: Disk, ws: seq<Write>, keep: set<nat>): Disk
  {
    if ws == [] then d
    else
      var n := |ws| - 1;
      var d1 := Survivor(d, ws[..n], keep);
      if n in keep then d1[ws[n].a := ws[n].b] else d1
  }

  /** What a read sees: all writes applied. */
  function Visible(d: Disk, ws: seq<Write>): Disk
  {
    if ws == [] then d
    else
      var n := |ws| - 1;
      Visible(d, ws[..n])[ws[n].a := ws[n].b]
  }

  datatype Op = WriteOp(w: Write) | SyncOp

  function Do(dev: Device, op: Op): Device
  {
    match op
    case WriteOp(w) => dev.(pending := dev.pending + [w])
    case SyncOp => Device(Visible(dev.durable, dev.pending), [])
  }

  /** Block writes of consecutive blocks. */
  function WriteOps(start: nat, bs: seq<Block>): (ops: seq<Op>)
    ensures |ops| == |bs|
    ensures forall i :: 0 <= i < |bs| ==> ops[i] == WriteOp(Write(start + i, bs[i]))
  {
    if bs == [] then [] else WriteOps(start, bs[..|bs| - 1]) + [WriteOp(Write(start + |bs| - 1, bs[|bs| - 1]))]
  }

  /**
   * The operations of lsfs_checkpoint_write into region `r`. An inode map that does not
   * fit stops it after the incomplete header.
   */
  function Script(r: bool, s: Snapshot, table: seq<Block>, superblock: Block): seq<Op>
  {
    [WriteOp(Write(RegionStart(r), HeaderOf(s, 0)))] +
    if !Fits(s.inodes) then []
    else
      WriteOps(RegionStart(r) + 1, SaveEntries(s.inodes)) + WriteOps(SEGTABLE_START, table) +
      [SyncOp, WriteOp(Write(RegionStart(r), HeaderOf(s, 1))), WriteOp(Write(0, superblock)), SyncOp]
  }

  /**
   * `sequence` and `active` are the in-memory copies; `script` and `pc` are the
   * checkpoint being written, `target` its snapshot. `committed` is the last checkpoint
   * known to be durable. `loose` is one that made its region the active one, but
   * whose marker has not been synced.
   */
  datatype State = State(
    dev: Device, sequence: nat, active: bool,
    script: seq<Op>, pc: nat, target: Snapshot, committed: Snapshot, loose: Option<Snapshot>)

  /**
   * `Fail` is an operation of the checkpoint that the disk refuses. A failed write of
   * the segment table does not stop a checkpoint, so `table` is what the disk takes.
   */
  datatype Step =
    | Begin(timestamp: nat, logHead: nat, inodes: seq<Entry>, table: seq<Block>, superblock: Block)
    | Advance
    | Fail
    | Elsewhere(w: Write)
    | SyncStep
    | Crash(keep: set<nat>)

  predicate Idle(s: State)
  {
    s.pc == |s.script|
  }

  predicate Enabled(s: State, t: Step)
  {
    match t
    case Begin(_, _, _, _, _) => Idle(s)
    case Advance => s.pc < |s.script|
    case Fail => s.pc < |s.script|
    case Elsewhere(w) => w.a == 0 || w.a >= SEGTABLE_START
    case SyncStep => true
    case Crash(keep) => Load(Survivor(s.dev.durable, s.dev.pending, keep)).Some?
  }

  /** A sync settles what was loose. */
  function Landed(s: State): State
  {
    if s.loose.Some? then s.(committed := s.loose.value, loose := None) else s
  }

  /**
   * The checkpoint ends at the operation it has come to. The region is already the active
   * one when the superblock is written, and the result of the last sync is ignored.
   */
  function Aborted(s: State): State
    requires s.pc < |s.script|
  {
    var s' := s.(script := [], pc := 0);
    if !Fits(s.target.inodes) || Left(s) > 2 then s'
    else if At(s.dev.durable, RegionStart(!s.active)) == HeaderOf(s.target, 1)
    then s'.(active := !s.active, committed := s.target)
    else s'.(active := !s.active, loose := Some(s.target))
  }

  /** A crash is followed by loading, which sets the in-memory copies. */
  function Apply(s: State, t: Step): State
    requires Enabled(s, t)
  {
    match t
    case Begin(timestamp, logHead, inodes, table, superblock) =>
      var snap := Snapshot(s.sequence + 1, timestamp, logHead, inodes);
      s.(sequence := s.sequence + 1, pc := 0, target := snap,
         script := Script(!s.active, snap, table, superblock))
    case Advance =>
      var s' := s.(dev := Do(s.dev, s.script[s.pc]), pc := s.pc + 1);
      if Idle(s') && Fits(s.target.inodes) then s'.(active := !s.active, committed := s.target)
      else if s.script[s.pc].SyncOp? then Landed(s')
      else s'
    case Fail => Aborted(s)
    case Elsewhere(w) => s.(dev := Do(s.dev, WriteOp(w)))
    case SyncStep => Landed(s.(dev := Do(s.dev, SyncOp)))
    case Crash(keep) =>
      var d := Survivor(s.dev.durable, s.dev.pending, keep);
      var snap := Load(d).value;
      State(Device(d, []), snap.sequence, BestRegion(d).value, [], 0, snap, snap, None)
  }

  // -------------------------------------------------------------- the device

  /** No unsynced write goes to `a`. */
  predicate Settled(dev: Device, a: nat)
  {
    forall i :: 0 <= i < |dev.pending| ==> dev.pending[i].a != a
  }

  /** The values block `a` may have after a crash. */
  ghost predicate Possible(dev: Device, a: nat, b: Block)
  {
    b == At(dev.durable, a) || exists i :: 0 <= i < |dev.pending| && dev.pending[i] == Write(a, b)
  }

  lemma {:induction false} SurvivorPossible(d: Disk, ws: seq<Write>, keep: set<nat>, a: nat)
    ensures Possible(Device(d, ws), a, At(Survivor(d, ws, keep), a))
  {
    if ws != [] {
      var n := |ws| - 1;
      SurvivorPossible(d, ws[..n], keep, a);
      var b := At(Survivor(d, ws[..n], keep), a);
      if b != At(d, a) {
        var i :| 0 <= i < n && ws[..n][i] == Write(a, b);
        assert ws[i] == Write(a, b);
      }
      assert ws[n] == Write(ws[n].a, ws[n].b);
    }
  }

  lemma {:induction false} SettledVisible(d: Disk, ws: seq<Write>, a: nat)
    requires Settled(Device(d, ws), a)
    ensures At(Visible(d, ws), a) == At(d, a)
  {
    if ws != [] {
      var n := |ws| - 1;
      assert forall i :: 0 <= i < n ==> ws[..n][i] == ws[i];
      SettledVisible(d, ws[..n], a);
    }
  }

  lemma {:induction false} VisiblePossible(d: Disk, ws: seq<Write>, a: nat)
    ensures Possible(Device(d, ws), a, At(Visible(d, ws), a))
  {
    if ws != [] {
      var n := |ws| - 1;
      VisiblePossible(d, ws[..n], a);
      var b := At(Visible(d, ws[..n]), a);
      if b != At(d, a) {
        var i :| 0 <= i < n && ws[..n][i] == Write(a, b);
        assert ws[i] == Write(a, b);
      }
      assert ws[n] == Write(ws[n].a, ws[n].b);
    }
  }

  function Seen(dev: Device, a: nat): Block
  {
    At(Visible(dev.durable, dev.pending), a)
  }

  lemma SeenAfterWrite(dev: Device, w: Write, a: nat)
    ensures Seen(Do(dev, WriteOp(w)), a) == if a == w.a then w.b else Seen(dev, a)
  {
    assert (dev.pending + [w])[..|dev.pending|] == dev.pending;
  }

  lemma PossibleAfterWrite(dev: Device, w: Write, a: nat, b: Block)
    requires Possible(Do(dev, WriteOp(w)), a, b)
    ensures Possible(dev, a, b) || w == Write(a, b)
  {
    if b != At(dev.durable, a) {
      var ws := dev.pending + [w];
      var i :| 0 <= i < |ws| && ws[i] == Write(a, b);
      assert i < |dev.pending| ==> dev.pending[i] == Write(a, b);
    }
  }

  /** A sync makes durable what reads see. */
  lemma SyncFacts(dev: Device, a: nat)
    ensures At(Do(dev, SyncOp).durable, a) == Seen(dev, a) == Seen(Do(dev, SyncOp), a)
    ensures Settled(Do(dev, SyncOp), a)
    ensures forall b :: Possible(Do(dev, SyncOp), a, b) ==> Possible(dev, a, b)
    ensures Settled(dev, a) ==> Seen(dev, a) == At(dev.durable, a)
  {
    VisiblePossible(dev.durable, dev.pending, a);
    if Settled(dev, a) {
      SettledVisible(dev.durable, dev.pending, a);
    }
  }

  // -------------------------------------------------------------- invariant

  predicate InRegion(a: nat, r: bool)
  {
    RegionStart(r) <= a < RegionStart(r) + CHECKPOINT_BLOCKS
  }

  /** Block `a` durably holds `b`, and no write to it is outstanding. */
  predicate Stable(dev: Device, a: nat, b: Block)
  {
    At(dev.durable, a) == b && Settled(dev, a)
  }

  /** The saved entries of `snap` are durable in region `r`, with no write to them outstanding. */
  ghost predicate EntriesDurable(dev: Device, r: bool, snap: Snapshot)
  {
    forall i :: 0 <= i < |SaveEntries(snap.inodes)| ==>
      Stable(dev, RegionStart(r) + 1 + i, SaveEntries(snap.inodes)[i])
  }

  /** Region `r` durably holds the complete checkpoint `snap`, and no write to its header is outstanding. */
  ghost predicate Complete(dev: Device, r: bool, snap: Snapshot)
  {
    && Fits(snap.inodes) && EntriesDurable(dev, r, snap)
    && Stable(dev, RegionStart(r), HeaderOf(snap, 1))
  }

  /** Operations of the running script that are left. */
  function Left(s: State): int
  {
    |s.script| - s.pc
  }

  /** The complete marker of the running checkpoint has been written. */
  predicate Marked(s: State)
  {
    !Idle(s) && Fits(s.target.inodes) && Left(s) <= 2
  }

  /** The region of the committed checkpoint: a loose one has made the other region active. */
  function Home(s: State): bool
  {
    if s.loose.Some? then !s.active else s.active
  }

  /** A header that loading would not prefer to the committed one, unless it is a marker. */
  predicate Harmless(s: State, b: Block)
  {
    || !ValidHeader(b) || b.sequence < s.committed.sequence
    || (Marked(s) && b == HeaderOf(s.target, 1))
    || (s.loose.Some? && b == HeaderOf(s.loose.value, 1))
  }

  /** The order of the operations, without the contents of the segment table and the superblock. */
  predicate IsScript(ops: seq<Op>, r: bool, t: Snapshot)
  {
    var saved := SaveEntries(t.inodes);
    var n := |ops|;
    && n >= 1 && ops[0] == WriteOp(Write(RegionStart(r), HeaderOf(t, 0)))
    && if !Fits(t.inodes) then n == 1
       else
         && n >= |saved| + 5
         && (forall i :: 0 <= i < |saved| ==> ops[i + 1] == WriteOp(Write(RegionStart(r) + 1 + i, saved[i])))
         && (forall j :: |saved| + 1 <= j < n - 4 ==> ops[j].WriteOp? && ops[j].w.a >= SEGTABLE_START)
         && ops[n - 4] == SyncOp
         && ops[n - 3] == WriteOp(Write(RegionStart(r), HeaderOf(t, 1)))
         && ops[n - 2].WriteOp? && ops[n - 2].w.a == 0
         && ops[n - 1] == SyncOp
  }

  lemma ScriptShape(r: bool, t: Snapshot, table: seq<Block>, superblock: Block)
    ensures IsScript(Script(r, t, table, superblock), r, t)
  {
    if Fits(t.inodes) {
      var saved := SaveEntries(t.inodes);
      var ops := Script(r, t, table, superblock);
      forall i | 0 <= i < |saved|
        ensures ops[i + 1] == WriteOp(Write(RegionStart(r) + 1 + i, saved[i]))
      {
        assert ops[i + 1] == WriteOps(RegionStart(r) + 1, saved)[i];
      }
    }
  }

  /** The marker is durable, or written over the durable incomplete header. */
  predicate MarkerWritten(dev: Device, a: nat, t: Snapshot)
  {
    Stable(dev, a, HeaderOf(t, 1)) || MarkerPending(dev, a, t)
  }

  predicate MarkerPending(dev: Device, a: nat, t: Snapshot)
  {
    At(dev.durable, a) == HeaderOf(t, 0) && Seen(dev, a) == HeaderOf(t, 1)
  }

  /** What the script has achieved in its region so far. */
  ghost predicate Progress(s: State)
  {
    var b := RegionStart(!s.active);
    var saved := SaveEntries(s.target.inodes);
    && (Left(s) >= 4 && s.pc >= 1 ==> Seen(s.dev, b) == HeaderOf(s.target, 0))
    && (Left(s) >= 4 ==> forall i :: 0 <= i < |saved| && 1 + i < s.pc ==> Seen(s.dev, b + 1 + i) == saved[i])
    && (Left(s) <= 3 ==> EntriesDurable(s.dev, !s.active, s.target))
    && (Left(s) == 3 ==> Stable(s.dev, b, HeaderOf(s.target, 0)))
    && (Left(s) <= 2 ==> MarkerWritten(s.dev, b, s.target))
  }

  ghost predicate Running(s: State)
  {
    && s.sequence == s.target.sequence > s.committed.sequence && IsScript(s.script, !s.active, s.target)
    && (s.loose.Some? ==> s.pc == 0 && s.target.sequence > s.loose.value.sequence)
    && (Fits(s.target.inodes) ==> Progress(s))
  }

  /** A loose checkpoint lies in the active region, durable but for its marker. */
  ghost predicate Hanging(dev: Device, r: bool, t: Snapshot)
  {
    Fits(t.inodes) && EntriesDurable(dev, r, t) && MarkerPending(dev, RegionStart(r), t)
  }

  ghost predicate Inv(s: State)
  {
    && s.pc <= |s.script|
    && Complete(s.dev, Home(s), s.committed)
    && s.sequence >= s.committed.sequence
    && (forall b :: Possible(s.dev, RegionStart(!Home(s)), b) ==> Harmless(s, b))
    && (s.loose.Some? ==> Hanging(s.dev, s.active, s.loose.value)
                          && s.sequence >= s.loose.value.sequence > s.committed.sequence)
    && (!Idle(s) ==> Running(s))
  }

  // ------------------------------------------------------------------ steps

  lemma WriteKeepsEntries(dev: Device, w: Write, r: bool, snap: Snapshot)
    requires EntriesDurable(dev, r, snap) && Fits(snap.inodes)
    requires w.a == RegionStart(r) || !InRegion(w.a, r)
    ensures EntriesDurable(Do(dev, WriteOp(w)), r, snap)
  {
    forall i | 0 <= i < |SaveEntries(snap.inodes)|
      ensures Stable(Do(dev, WriteOp(w)), RegionStart(r) + 1 + i, SaveEntries(snap.inodes)[i])
    {
      assert Stable(dev, RegionStart(r) + 1 + i, SaveEntries(snap.inodes)[i]);
    }
  }

  lemma WriteKeepsComplete(dev: Device, w: Write, r: bool, snap: Snapshot)
    requires Complete(dev, r, snap) && !InRegion(w.a, r)
    ensures Complete(Do(dev, WriteOp(w)), r, snap)
  {
    WriteKeepsEntries(dev, w, r, snap);
  }

  lemma SyncKeepsEntries(dev: Device, r: bool, snap: Snapshot)
    requires EntriesDurable(dev, r, snap)
    ensures EntriesDurable(Do(dev, SyncOp), r, snap)
  {
    forall i | 0 <= i < |SaveEntries(snap.inodes)|
      ensures Stable(Do(dev, SyncOp), RegionStart(r) + 1 + i, SaveEntries(snap.inodes)[i])
    {
      assert Stable(dev, RegionStart(r) + 1 + i, SaveEntries(snap.inodes)[i]);
      SyncFacts(dev, RegionStart(r) + 1 + i);
    }
  }

  lemma SyncKeepsComplete(dev: Device, r: bool, snap: Snapshot)
    requires Complete(dev, r, snap)
    ensures Complete(Do(dev, SyncOp), r, snap)
  {
    SyncKeepsEntries(dev, r, snap);
    SyncFacts(dev, RegionStart(r));
  }

  /** Writes outside the regions and syncs change nothing that reads of the regions see. */
  lemma SeenElsewhere(dev: Device, w: Write, a: nat)
    requires a != w.a
    ensures Seen(Do(dev, WriteOp(w)), a) == Seen(dev, a)
  {
    SeenAfterWrite(dev, w, a);
  }

  lemma ElsewhereMarker(dev: Device, w: Write, a: nat, t: Snapshot)
    requires MarkerWritten(dev, a, t) && a != w.a
    ensures MarkerWritten(Do(dev, WriteOp(w)), a, t)
    ensures MarkerPending(dev, a, t) ==> MarkerPending(Do(dev, WriteOp(w)), a, t)
  {
    SeenElsewhere(dev, w, a);
  }

  lemma ElsewhereProgress(s: State, w: Write)
    requires Fits(s.target.inodes) && Progress(s) && Enabled(s, Elsewhere(w)) && !Idle(s) && s.pc <= |s.script|
    ensures Progress(Apply(s, Elsewhere(w)))
  {
    var b := RegionStart(!s.active);
    var saved := SaveEntries(s.target.inodes);
    SeenElsewhere(s.dev, w, b);
    if Left(s) >= 4 {
      forall i | 0 <= i < |saved| && 1 + i < s.pc
        ensures Seen(Do(s.dev, WriteOp(w)), b + 1 + i) == saved[i]
      {
        SeenElsewhere(s.dev, w, b + 1 + i);
        assert Seen(s.dev, b + 1 + i) == saved[i];
      }
    } else {
      WriteKeepsEntries(s.dev, w, !s.active, s.target);
      if Left(s) <= 2 {
        ElsewhereMarker(s.dev, w, b, s.target);
      }
    }
  }

  lemma ElsewhereKeeps(s: State, w: Write)
    requires Inv(s) && Enabled(s, Elsewhere(w))
    ensures Inv(Apply(s, Elsewhere(w)))
  {
    hide Complete, Progress, EntriesDurable;
    var s' := Apply(s, Elsewhere(w));
    WriteKeepsComplete(s.dev, w, Home(s), s.committed);
    forall b | Possible(s'.dev, RegionStart(!Home(s)), b)
      ensures Harmless(s', b)
    {
      PossibleAfterWrite(s.dev, w, RegionStart(!Home(s)), b);
      assert Harmless(s, b);
    }
    if s.loose.Some? {
      WriteKeepsEntries(s.dev, w, s.active, s.loose.value);
      ElsewhereMarker(s.dev, w, RegionStart(s.active), s.loose.value);
    }
    if !Idle(s) && Fits(s.target.inodes) {
      ElsewhereProgress(s, w);
    }
  }

  lemma SyncMarker(dev: Device, a: nat, t: Snapshot)
    requires MarkerWritten(dev, a, t)
    ensures Stable(Do(dev, SyncOp), a, HeaderOf(t, 1))
  {
    SyncFacts(dev, a);
  }

  lemma SyncProgress(s: State)
    requires Fits(s.target.inodes) && Progress(s) && !Idle(s) && s.pc <= |s.script|
    ensures Progress(s.(dev := Do(s.dev, SyncOp)))
  {
    var b := RegionStart(!s.active);
    var saved := SaveEntries(s.target.inodes);
    SyncFacts(s.dev, b);
    if Left(s) >= 4 {
      forall i | 0 <= i < |saved| && 1 + i < s.pc
        ensures Seen(Do(s.dev, SyncOp), b + 1 + i) == saved[i]
      {
        SyncFacts(s.dev, b + 1 + i);
        assert Seen(s.dev, b + 1 + i) == saved[i];
      }
    } else {
      SyncKeepsEntries(s.dev, !s.active, s.target);
      if Left(s) <= 2 {
        SyncMarker(s.dev, b, s.target);
      }
    }
  }

  /** A sync makes a loose checkpoint the committed one. */
  lemma LooseLands(s: State)
    requires Inv(s) && s.loose.Some?
    ensures var dev := Do(s.dev, SyncOp);
            && Complete(dev, s.active, s.loose.value)
            && forall b :: Possible(dev, RegionStart(!s.active), b) ==> ValidHeader(b) && b.sequence < s.loose.value.sequence
  {
    SyncKeepsEntries(s.dev, s.active, s.loose.value);
    SyncMarker(s.dev, RegionStart(s.active), s.loose.value);
    SyncKeepsComplete(s.dev, !s.active, s.committed);
  }

  lemma SyncStepKeeps(s: State)
    requires Inv(s)
    ensures Inv(Apply(s, SyncStep))
  {
    hide Complete, Progress, EntriesDurable;
    var s' := Apply(s, SyncStep);
    if s.loose.Some? {
      LooseLands(s);
    } else {
      SyncKeepsComplete(s.dev, s.active, s.committed);
      forall b | Possible(s'.dev, RegionStart(!s.active), b)
        ensures Harmless(s', b)
      {
        SyncFacts(s.dev, RegionStart(!s.active));
        assert Harmless(s, b);
      }
    }
    if !Idle(s) && Fits(s.target.inodes) {
      SyncProgress(s);
      ProgressSame(s.(dev := Do(s.dev, SyncOp)), s');
    }
  }

  lemma ProgressSame(s: State, s': State)
    requires Progress(s)
    requires s'.dev == s.dev && s'.active == s.active && s'.target == s.target && s'.script == s.script && s'.pc == s.pc
    ensures Progress(s')
  {
  }

  lemma BeginKeeps(s: State, t: Step)
    requires Inv(s) && t.Begin? && Idle(s)
    ensures Inv(Apply(s, t))
  {
    hide Complete, EntriesDurable, Script, Progress, IsScript;
    var s' := Apply(s, t);
    ScriptShape(!s'.active, s'.target, t.table, t.superblock);
    forall b | Possible(s'.dev, RegionStart(!Home(s)), b)
      ensures Harmless(s', b)
    {
      assert Harmless(s, b);
    }
    ScriptLength(s'.script, !s'.active, s'.target);
    NoProgress(s');
  }

  lemma ScriptLength(ops: seq<Op>, r: bool, t: Snapshot)
    requires IsScript(ops, r, t)
    ensures |ops| > 0 && (Fits(t.inodes) ==> |ops| > 4)
  {
  }

  lemma NoProgress(s: State)
    requires s.pc == 0
    ensures |s.script| > 4 ==> Progress(s)
  {
  }

  // -------------------------------------------------- a write of the script

  /** Everything but a sync: the script writes into the other region, never into the committed one. */
  lemma AdvanceWriteKeeps(s: State)
    requires Inv(s) && !Idle(s) && s.loose.None? && s.script[s.pc].WriteOp?
    ensures Inv(Apply(s, Advance))
  {
    hide Complete, Harmless;
    var w := s.script[s.pc].w;
    var s' := Apply(s, Advance);
    AdvanceTarget(s);
    WriteKeepsComplete(s.dev, w, s.active, s.committed);
    forall b | Possible(s'.dev, RegionStart(!s.active), b)
      ensures Harmless(s', b)
    {
      AdvanceWriteHarmless(s, b);
    }
    if !Idle(s') && Fits(s.target.inodes) {
      AdvanceWriteProgress(s);
    }
  }

  lemma AdvanceWriteHarmless(s: State, b: Block)
    requires Inv(s) && !Idle(s) && s.loose.None? && s.script[s.pc].WriteOp?
    requires Possible(Apply(s, Advance).dev, RegionStart(!s.active), b)
    ensures Harmless(Apply(s, Advance), b)
  {
    AdvanceTarget(s);
    PossibleAfterWrite(s.dev, s.script[s.pc].w, RegionStart(!s.active), b);
    assert Possible(s.dev, RegionStart(!s.active), b) ==> Harmless(s, b);
  }

  lemma AdvanceWriteProgress(s: State)
    requires Inv(s) && !Idle(s) && s.loose.None? && s.script[s.pc].WriteOp? && !Idle(Apply(s, Advance))
    requires Fits(s.target.inodes)
    ensures Progress(Apply(s, Advance))
  {
    var w := s.script[s.pc].w;
    var s' := Apply(s, Advance);
    var b := RegionStart(!s.active);
    AdvanceTarget(s);
    SeenAfterWrite(s.dev, w, b);
    if Left(s') <= 3 {
      AdvanceMarker(s);
    } else {
      forall i | 0 <= i < |SaveEntries(s.target.inodes)| && 1 + i < s'.pc
        ensures Seen(s'.dev, b + 1 + i) == SaveEntries(s.target.inodes)[i]
      {
        AdvanceWriteSaves(s, i);
      }
    }
  }

  /** Behind the first sync come the marker and the superblock. */
  lemma AdvanceMarker(s: State)
    requires Inv(s) && !Idle(s) && s.loose.None? && s.script[s.pc].WriteOp? && !Idle(Apply(s, Advance))
    requires Fits(s.target.inodes) && Left(Apply(s, Advance)) <= 3
    ensures var dev := Apply(s, Advance).dev;
            && Left(s) <= 3 && Left(Apply(s, Advance)) <= 2
            && EntriesDurable(dev, !s.active, s.target) && MarkerWritten(dev, RegionStart(!s.active), s.target)
  {
    var w := s.script[s.pc].w;
    var b := RegionStart(!s.active);
    AdvanceTarget(s);
    assert Running(s);
    assert s.script[|s.script| - 4] == SyncOp && s.script[|s.script| - 3] == WriteOp(Write(b, HeaderOf(s.target, 1)));
    WriteKeepsEntries(s.dev, w, !s.active, s.target);
    SeenAfterWrite(s.dev, w, b);
    if Left(s) == 2 {
      ElsewhereMarker(s.dev, w, b, s.target);
    }
  }

  /** The entries written so far, before the first sync. */
  lemma AdvanceWriteSaves(s: State, i: nat)
    requires Inv(s) && !Idle(s) && s.loose.None? && s.script[s.pc].WriteOp? && Left(s) > 4 && Fits(s.target.inodes)
    requires i < |SaveEntries(s.target.inodes)| && i < s.pc
    ensures Seen(Apply(s, Advance).dev, RegionStart(!s.active) + 1 + i) == SaveEntries(s.target.inodes)[i]
  {
    assert Running(s);
    SeenAfterWrite(s.dev, s.script[s.pc].w, RegionStart(!s.active) + 1 + i);
    if s.pc <= |SaveEntries(s.target.inodes)| {
      EntryWrite(s);
    }
  }

  lemma EntryWrite(s: State)
    requires Inv(s) && !Idle(s) && Fits(s.target.inodes) && 1 <= s.pc <= |SaveEntries(s.target.inodes)|
    ensures s.script[s.pc] == WriteOp(Write(RegionStart(!s.active) + s.pc, SaveEntries(s.target.inodes)[s.pc - 1]))
  {
    var i := s.pc - 1;
    var b := SaveEntries(s.target.inodes)[i];
    assert s.script[i + 1] == WriteOp(Write(RegionStart(!s.active) + 1 + i, b));
  }

  /** Where the next write of a script goes. */
  lemma AdvanceTarget(s: State)
    requires Inv(s) && !Idle(s) && s.script[s.pc].WriteOp?
    ensures !InRegion(s.script[s.pc].w.a, s.active)
    ensures s.script[s.pc].w.a == RegionStart(!s.active) ==>
              s.script[s.pc].w.b == HeaderOf(s.target, if s.pc == 0 then 0 else 1) && (s.pc == 0 || Left(s) == 3)
    ensures s.pc == 0 ==> s.script[0].w == Write(RegionStart(!s.active), HeaderOf(s.target, 0))
  {
    var saved := SaveEntries(s.target.inodes);
    if Fits(s.target.inodes) && 1 <= s.pc <= |saved| {
      EntryWrite(s);
    }
  }

  // --------------------------------------------------- a sync of the script

  /** The first sync makes header and entries durable before the marker can be written. */
  lemma FirstSyncKeeps(s: State)
    requires Inv(s) && !Idle(s) && s.loose.None? && s.script[s.pc].SyncOp? && Left(s) > 1
    ensures Inv(Apply(s, Advance))
  {
    hide Complete;
    var s' := Apply(s, Advance);
    SyncPlace(s);
    SyncKeepsComplete(s.dev, s.active, s.committed);
    forall b | Possible(s'.dev, RegionStart(!s.active), b)
      ensures Harmless(s', b)
    {
      SyncFacts(s.dev, RegionStart(!s.active));
      assert Harmless(s, b);
    }
    FirstSyncProgress(s);
  }

  lemma FirstSyncProgress(s: State)
    requires Inv(s) && !Idle(s) && s.loose.None? && s.script[s.pc].SyncOp? && Left(s) == 4 && Fits(s.target.inodes)
    ensures Progress(Apply(s, Advance))
  {
    var s' := Apply(s, Advance);
    var saved := SaveEntries(s.target.inodes);
    assert Running(s);
    SyncFacts(s.dev, RegionStart(!s.active));
    forall i | 0 <= i < |saved|
      ensures Stable(s'.dev, RegionStart(!s.active) + 1 + i, saved[i])
    {
      assert Seen(s.dev, RegionStart(!s.active) + 1 + i) == saved[i];
      SyncFacts(s.dev, RegionStart(!s.active) + 1 + i);
    }
  }

  lemma SyncPlace(s: State)
    requires Inv(s) && !Idle(s) && s.script[s.pc].SyncOp?
    ensures Fits(s.target.inodes) && (Left(s) == 4 || Left(s) == 1)
  {
    var saved := SaveEntries(s.target.inodes);
    if Fits(s.target.inodes) && 1 <= s.pc <= |saved| {
      EntryWrite(s);
    }
  }

  /** The last sync completes the checkpoint: the regions change roles. */
  lemma LastSyncKeeps(s: State)
    requires Inv(s) && !Idle(s) && s.loose.None? && s.script[s.pc].SyncOp? && Left(s) == 1
    ensures Inv(Apply(s, Advance)) && Apply(s, Advance).committed == s.target
  {
    var s' := Apply(s, Advance);
    SyncPlace(s);
    assert Running(s);
    SyncKeepsEntries(s.dev, !s.active, s.target);
    SyncMarker(s.dev, RegionStart(!s.active), s.target);
    SyncKeepsComplete(s.dev, s.active, s.committed);
    assert Stable(s'.dev, RegionStart(s.active), HeaderOf(s.committed, 1));
  }

  // ------------------------------------------------------------- failures

  /** A checkpoint that fails before its superblock leaves the committed one as it was. */
  lemma EarlyFailKeeps(s: State)
    requires Inv(s) && !Idle(s) && (!Fits(s.target.inodes) || Left(s) > 2)
    ensures Inv(Apply(s, Fail)) && Apply(s, Fail).committed == s.committed && Apply(s, Fail).loose == s.loose
  {
    hide Complete, EntriesDurable;
    var s' := Apply(s, Fail);
    forall b | Possible(s'.dev, RegionStart(!Home(s')), b)
      ensures Harmless(s', b)
    {
      assert Harmless(s, b);
    }
  }

  /** A checkpoint that fails at its superblock, or at the sync behind it, is loose unless its marker is durable. */
  lemma LateFailKeeps(s: State)
    requires Inv(s) && !Idle(s) && Fits(s.target.inodes) && Left(s) <= 2
    ensures Inv(Apply(s, Fail)) && Apply(s, Fail).active == !s.active
  {
    hide Complete, EntriesDurable;
    var s' := Apply(s, Fail);
    assert Running(s) && s.loose.None?;
    if s'.loose.Some? {
      forall b | Possible(s'.dev, RegionStart(!s.active), b)
        ensures Harmless(s', b)
      {
        assert Harmless(s, b);
      }
    } else {
      LateFailCommits(s);
    }
  }

  lemma LateFailCommits(s: State)
    requires Inv(s) && !Idle(s) && Fits(s.target.inodes) && Left(s) <= 2 && s.loose.None?
    requires At(s.dev.durable, RegionStart(!s.active)) == HeaderOf(s.target, 1)
    ensures Complete(s.dev, !s.active, s.target)
    ensures forall b :: Possible(s.dev, RegionStart(s.active), b) ==> ValidHeader(b) && b.sequence < s.target.sequence
  {
    assert Running(s);
    assert Stable(s.dev, RegionStart(s.active), HeaderOf(s.committed, 1));
  }

  // --------------------------------------------------------------- crashes

  /** What a crash leaves of a region that is complete and settled. */
  lemma CrashKeepsComplete(dev: Device, keep: set<nat>, r: bool, snap: Snapshot)
    requires Complete(dev, r, snap)
    ensures var d := Survivor(dev.durable, dev.pending, keep);
            Complete(Device(d, []), r, snap) && Stored(d, r) == snap
  {
    var d := Survivor(dev.durable, dev.pending, keep);
    SurvivorPossible(dev.durable, dev.pending, keep, RegionStart(r));
    CrashKeepsEntries(dev, keep, r, snap);
    forall i | 0 <= i < |SaveEntries(snap.inodes)|
      ensures At(d, RegionStart(r) + 1 + i) == SaveEntries(snap.inodes)[i]
    {
      assert Stable(Device(d, []), RegionStart(r) + 1 + i, SaveEntries(snap.inodes)[i]);
    }
    SaveLoad(d, RegionStart(r) + 1, snap.inodes);
  }

  lemma CrashKeepsEntries(dev: Device, keep: set<nat>, r: bool, snap: Snapshot)
    requires EntriesDurable(dev, r, snap)
    ensures EntriesDurable(Device(Survivor(dev.durable, dev.pending, keep), []), r, snap)
  {
    var d := Survivor(dev.durable, dev.pending, keep);
    forall i | 0 <= i < |SaveEntries(snap.inodes)|
      ensures Stable(Device(d, []), RegionStart(r) + 1 + i, SaveEntries(snap.inodes)[i])
    {
      assert Stable(dev, RegionStart(r) + 1 + i, SaveEntries(snap.inodes)[i]);
      SurvivorPossible(dev.durable, dev.pending, keep, RegionStart(r) + 1 + i);
    }
  }

  /** A marker that survives stands in front of durable entries. */
  lemma MarkerSurvives(dev: Device, keep: set<nat>, r: bool, snap: Snapshot)
    requires Fits(snap.inodes) && EntriesDurable(dev, r, snap)
    requires At(Survivor(dev.durable, dev.pending, keep), RegionStart(r)) == HeaderOf(snap, 1)
    ensures var d := Survivor(dev.durable, dev.pending, keep);
            Complete(Device(d, []), r, snap) && Stored(d, r) == snap
  {
    var d := Survivor(dev.durable, dev.pending, keep);
    CrashKeepsEntries(dev, keep, r, snap);
    CrashKeepsComplete(Device(d, []), {}, r, snap);
  }

  /** What loading may find after a crash: the committed checkpoint, or one whose marker is written. */
  predicate Acceptable(s: State, l: Option<Snapshot>)
  {
    l == Some(s.committed) || (Marked(s) && l == Some(s.target)) || (s.loose.Some? && l == s.loose)
  }

  /**
   * Crash atomicity: from any state of the machine, whatever subset of the unsynced
   * writes survives, loading finds a checkpoint, and it is exactly the committed one
   * or exactly one whose marker is written and not yet synced.
   */
  lemma LoadAfterCrash(s: State, keep: set<nat>)
    requires Inv(s)
    ensures Acceptable(s, Load(Survivor(s.dev.durable, s.dev.pending, keep)))
    ensures Inv(State(Device(Survivor(s.dev.durable, s.dev.pending, keep), []),
                      Load(Survivor(s.dev.durable, s.dev.pending, keep)).value.sequence,
                      BestRegion(Survivor(s.dev.durable, s.dev.pending, keep)).value,
                      [], 0,
                      Load(Survivor(s.dev.durable, s.dev.pending, keep)).value,
                      Load(Survivor(s.dev.durable, s.dev.pending, keep)).value, None))
  {
    var d := Survivor(s.dev.durable, s.dev.pending, keep);
    var other := RegionStart(!Home(s));
    CrashKeepsComplete(s.dev, keep, Home(s), s.committed);
    SurvivorPossible(s.dev.durable, s.dev.pending, keep, other);
    assert Harmless(s, At(d, other));
    if Marked(s) && At(d, other) == HeaderOf(s.target, 1) {
      assert Running(s) && s.loose.None?;
      MarkerSurvives(s.dev, keep, !Home(s), s.target);
    } else if s.loose.Some? && At(d, other) == HeaderOf(s.loose.value, 1) {
      MarkerSurvives(s.dev, keep, !Home(s), s.loose.value);
    }
  }

  // ------------------------------------------------------------------ runs

  /** The header write of a new checkpoint waits for the sync of a loose one. */
  predicate Careful(s: State, t: Step)
  {
    t.Advance? ==> s.loose.None?
  }

  lemma StepKeepsInv(s: State, t: Step)
    requires Inv(s) && Enabled(s, t) && Careful(s, t)
    ensures Inv(Apply(s, t))
  {
    match t
    case Begin(_, _, _, _, _) => BeginKeeps(s, t);
    case Advance =>
      if s.script[s.pc].WriteOp? {
        AdvanceWriteKeeps(s);
      } else if Left(s) > 1 {
        FirstSyncKeeps(s);
      } else {
        LastSyncKeeps(s);
      }
    case Fail =>
      if !Fits(s.target.inodes) || Left(s) > 2 {
        EarlyFailKeeps(s);
      } else {
        LateFailKeeps(s);
      }
    case Elsewhere(w) => ElsewhereKeeps(s, w);
    case SyncStep => SyncStepKeeps(s);
    case Crash(keep) => LoadAfterCrash(s, keep);
  }

  lemma {:induction false} SurvivorNone(d: Disk, ws: seq<Write>, keep: set<nat>)
    requires forall i :: 0 <= i < |ws| ==> i !in keep
    ensures Survivor(d, ws, keep) == d
  {
    if ws != [] {
      SurvivorNone(d, ws[..|ws| - 1], keep);
    }
  }

  /** A header written while a checkpoint is loose may be all that survives: then nothing can be loaded. */
  lemma NothingToLoad(s: State)
    requires Inv(s) && Enabled(s, Advance) && s.loose.Some?
    ensures var dev := Apply(s, Advance).dev;
            Load(Survivor(dev.durable, dev.pending, {|s.dev.pending|})).None?
  {
    var n := |s.dev.pending|;
    assert Running(s);
    AdvanceTarget(s);
    var ws := s.dev.pending + [s.script[0].w];
    assert ws[..n] == s.dev.pending;
    SurvivorNone(s.dev.durable, s.dev.pending, {n});
  }

  /**
   * The exact condition: a step of a checkpoint leaves something to load after every
   * crash if and only if no earlier checkpoint is loose, that is, if a sync came between
   * a failed superblock write and the next header write.
   */
  lemma HeaderAfterFailure(s: State)
    requires Inv(s) && Enabled(s, Advance)
    ensures var dev := Apply(s, Advance).dev;
            (forall keep :: Load(Survivor(dev.durable, dev.pending, keep)).Some?) <==> s.loose.None?
  {
    var s' := Apply(s, Advance);
    if s.loose.None? {
      StepKeepsInv(s, Advance);
      forall keep
        ensures Load(Survivor(s'.dev.durable, s'.dev.pending, keep)).Some?
      {
        LoadAfterCrash(s', keep);
      }
    } else {
      NothingToLoad(s);
    }
  }

  ghost predicate Run(ss: seq<State>, ts: seq<Step>)
  {
    && |ss| == |ts| + 1
    && Inv(ss[0])
    && forall i :: 0 <= i < |ts| ==> Enabled(ss[i], ts[i]) && Careful(ss[i], ts[i]) && ss[i + 1] == Apply(ss[i], ts[i])
  }

  /** A formatted disk: one complete checkpoint in region 0, nothing in region 1. */
  lemma FormattedIsSound(d: Disk, s: Snapshot)
    requires |s.inodes| == 1 && At(d, CHECKPOINT0_START) == HeaderOf(s, 1)
    requires At(d, CHECKPOINT0_START + 1) == Entries(s.inodes) && !ValidHeader(At(d, CHECKPOINT1_START))
    ensures Inv(State(Device(d, []), s.sequence, false, [], 0, s, s, None))
  {
    assert SaveEntries(s.inodes) == [Entries(s.inodes)];
  }

  /**
   * Over any sequence of checkpoints, checkpoints that fail at any operation, other
   * writes, syncs, crashes and reloads, a crash at any moment is followed by a successful
   * load, of the last committed checkpoint or of one whose marker is written and not yet
   * synced, as long as no header is written while a checkpoint is loose.
   */
  lemma {:induction false} CrashAtomicity(ss: seq<State>, ts: seq<Step>, n: nat, keep: set<nat>)
    requires Run(ss, ts) && n <= |ts|
    ensures Enabled(ss[n], Crash(keep))
    ensures var l := Load(Survivor(ss[n].dev.durable, ss[n].dev.pending, keep));
            && Acceptable(ss[n], l)
            && (Idle(ss[n]) && ss[n].loose.None? ==> l == Some(ss[n].committed))
    ensures Inv(ss[n])
  {
    hide Inv, Apply, Load, Survivor;
    if n > 0 {
      CrashAtomicity(ss, ts, n - 1, {});
      StepKeepsInv(ss[n - 1], ts[n - 1]);
    }
    LoadAfterCrash(ss[n], keep);
  }

  lemma CompletionStep(s: State)
    requires Inv(s) && Enabled(s, Advance) && s.loose.None? && Idle(Apply(s, Advance)) && Fits(s.target.inodes)
    ensures var s' := Apply(s, Advance);
            && s'.committed == s.target && s'.committed.sequence > s.committed.sequence
            && s'.active != s.active && s'.dev.pending == [] && s'.loose.None?
  {
    assert Running(s);
    assert s.script[|s.script| - 1] == SyncOp;
  }

  /** Completed checkpoints have strictly growing sequence numbers, and alternate between the regions. */
  lemma CompletionAdvances(ss: seq<State>, ts: seq<Step>, n: nat)
    requires Run(ss, ts) && n < |ts| && ts[n] == Advance && Idle(ss[n + 1]) && Fits(ss[n].target.inodes)
    ensures ss[n + 1].committed == ss[n].target
    ensures ss[n + 1].committed.sequence > ss[n].committed.sequence
    ensures ss[n + 1].active != ss[n].active
    ensures Load(Visible(ss[n + 1].dev.durable, ss[n + 1].dev.pending)) == Some(ss[n].target)
  {
    hide Inv, Apply, Load;
    CrashAtomicity(ss, ts, n, {});
    CompletionStep(ss[n]);
    CrashAtomicity(ss, ts, n + 1, {});
  }
}
