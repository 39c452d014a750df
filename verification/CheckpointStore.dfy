/**
 * The checkpoint code itself (src/checkpoint.c): the in-memory sequence number and
 * active region, and the writes it issues, tied to the script of CheckpointCrash.
 */
module CheckpointStore {
  import opened Layout
  import opened CheckpointFormat
  import opened CheckpointCrash

  /** Performs operations in order. */
  function DoAll(dev: Device, ops: seq<Op>): Device
  {
    if ops == [] then dev else Do(DoAll(dev, ops[..|ops| - 1]), ops[|ops| - 1])
  }

  lemma {:induction false} DoAllConcat(dev: Device, xs: seq<Op>, ys: seq<Op>)
    ensures DoAll(dev, xs + ys) == DoAll(DoAll(dev, xs), ys)
    decreases |ys|
  {
    if ys == [] {
      assert xs + ys == xs;
    } else {
      var n := |ys| - 1;
      assert (xs + ys)[..|xs + ys| - 1] == xs + ys[..n];
      DoAllConcat(dev, xs, ys[..n]);
    }
  }

  lemma WriteOpsNone(dev: Device, start: nat, bs: seq<Block>)
    ensures DoAll(dev, WriteOps(start, bs[..0])) == dev
  {
  }

  lemma WriteOpsNext(dev: Device, start: nat, bs: seq<Block>, i: nat)
    requires i < |bs|
    ensures DoAll(dev, WriteOps(start, bs[..i + 1])) == Do(DoAll(dev, WriteOps(start, bs[..i])), WriteOp(Write(start + i, bs[i])))
  {
    var ops, op := WriteOps(start, bs[..i]), WriteOp(Write(start + i, bs[i]));
    assert bs[..i + 1][..i] == bs[..i];
    assert WriteOps(start, bs[..i + 1]) == ops + [op];
    assert (ops + [op])[..|ops|] == ops;
  }

  /** The operation of a checkpoint that the disk refuses; the inode map may be written in part. */
  datatype Fault = NoFault | AtHeader | AtMap(written: nat) | AtSync | AtMarker | AtSuperblock | AtLastSync

  /** The operations of a script that are performed before a fault. */
  function Issued(ops: seq<Op>, inodes: seq<Entry>, fault: Fault): (k: nat)
    requires |ops| >= 1 && (Fits(inodes) ==> |ops| >= |SaveEntries(inodes)| + 5)
  {
    if fault.AtHeader? then 0
    else if !Fits(inodes) then 1
    else
      match fault
      case AtMap(written) => 1 + Min(written, |SaveEntries(inodes)|)
      case AtSync => |ops| - 4
      case AtMarker => |ops| - 3
      case AtSuperblock => |ops| - 2
      case AtLastSync => |ops| - 1
      case _ => |ops|
  }

  /** What a load sees of the disk: a header that cannot be read is not there. */
  function HeadersRead(d: Disk, headersOk: seq<bool>): Disk
    requires |headersOk| == 2
  {
    var d1 := if headersOk[0] then d else d - {CHECKPOINT0_START};
    if headersOk[1] then d1 else d1 - {CHECKPOINT1_START}
  }

  /** The better of the headers that can be read, and its map if that can be read too. */
  function LoadRead(d: Disk, headersOk: seq<bool>, mapOk: bool): Option<Snapshot>
    requires |headersOk| == 2
  {
    match BestRegion(HeadersRead(d, headersOk))
    case None => None
    case Some(r) => if mapOk then Some(Stored(d, r)) else None
  }

  /** With the header of one region lost, the other one is loaded if it is valid, though it may be the older. */
  lemma OtherRegionIsLoaded(d: Disk, lost: bool)
    ensures var headersOk := if lost then [true, false] else [false, true];
            LoadRead(d, headersOk, true) ==
              if ValidHeader(At(d, RegionStart(!lost))) then Some(Stored(d, !lost)) else None
  {
  }

  class Store {
    var durable: Disk
    var pending: seq<Write>
    var readonly: bool
    var sequence: nat
    var active: bool

    ghost function Dev(): Device
      reads this
    {
      Device(durable, pending)
    }

    constructor (disk: Disk, readonly: bool)
      ensures Dev() == Device(disk, []) && this.readonly == readonly && sequence == 0
    {
      durable, pending, this.readonly, sequence, active := disk, [], readonly, 0, false;
    }

    /** lsfs_write_block: fails on a read-only mount, or when the disk refuses. */
    method WriteBlock(a: nat, b: Block, diskOk: bool) returns (ok: bool)
      modifies this`pending
      ensures ok == (!readonly && diskOk)
      ensures Dev() == if ok then Do(old(Dev()), WriteOp(Write(a, b))) else old(Dev())
    {
      ok := !readonly && diskOk;
      if ok {
        pending := pending + [Write(a, b)];
      }
    }

    /** lsfs_write_blocks: the blocks of one request reach the disk one by one, `taken` of them at most. */
    method WriteBlocks(start: nat, bs: seq<Block>, taken: nat) returns (ok: bool)
      modifies this`pending
      ensures ok == (!readonly && taken >= |bs|)
      ensures Dev() == if readonly then old(Dev()) else DoAll(old(Dev()), WriteOps(start, bs[..Min(taken, |bs|)]))
    {
      hide DoAll, WriteOps;
      if readonly {
        return false;
      }
      WriteOpsNone(Dev(), start, bs);
      var i := 0;
      while i < |bs| && i < taken
        invariant 0 <= i <= Min(taken, |bs|)
        invariant Dev() == DoAll(old(Dev()), WriteOps(start, bs[..i]))
      {
        pending := pending + [Write(start + i, bs[i])];
        WriteOpsNext(old(Dev()), start, bs, i);
        i := i + 1;
      }
      return i == |bs|;
    }

    method SyncDisk()
      modifies this`durable, this`pending
      ensures Dev() == Do(old(Dev()), SyncOp)
    {
      durable := Visible(durable, pending);
      pending := [];
    }

    /**
     * lsfs_checkpoint_write, after its flush, with its exits. It issues the operations of
     * the script up to the one that fails; the sequence number grows even then. The region
     * is made the active one before the superblock is written, and stays that when this
     * write fails.
     */
    method WriteCheckpoint(timestamp: nat, logHead: nat, inodes: seq<Entry>, table: seq<Block>, superblock: Block, fault: Fault)
      returns (ok: bool)
      modifies this`durable, this`pending, this`sequence, this`active
      ensures ok == (!readonly && Fits(inodes) && fault in {NoFault, AtLastSync})
      ensures sequence == old(sequence) + 1
      ensures active == if !readonly && Fits(inodes) && fault in {NoFault, AtLastSync, AtSuperblock} then !old(active)
                        else old(active)
      ensures var script := Script(!old(active), Snapshot(sequence, timestamp, logHead, inodes), table, superblock);
              Dev() == if readonly then old(Dev()) else DoAll(old(Dev()), script[..Issued(script, inodes, fault)])
    {
      hide DoAll, WriteOps, Script, SaveEntries, Visible, HeaderOf, RegionStart;
      var region := !active;
      var start := RegionStart(region);
      sequence := sequence + 1;
      var snap := Snapshot(sequence, timestamp, logHead, inodes);
      Stages(Dev(), region, snap, table, superblock);
      ok := WriteBlock(start, HeaderOf(snap, 0), fault != AtHeader);
      if !ok {
        return;
      }
      if BlocksNeeded(|inodes|) > CHECKPOINT_BLOCKS - 1 {
        return false;
      }
      var saved := SaveEntries(inodes);
      MapStages(old(Dev()), region, snap, table, superblock, if fault.AtMap? then Min(fault.written, |saved|) else |saved|);
      ok := WriteBlocks(start + 1, saved, if fault.AtMap? then fault.written else |saved|);
      if !ok || fault.AtMap? {
        return false;
      }
      assert saved[..|saved|] == saved && table[..|table|] == table;
      var _ := WriteBlocks(SEGTABLE_START, table, |table|);
      if fault.AtSync? {
        return false;
      }
      SyncDisk();
      ok := WriteBlock(start, HeaderOf(snap, 1), fault != AtMarker);
      if !ok {
        return;
      }
      active := region;
      ok := WriteBlock(0, superblock, fault != AtSuperblock);
      if !ok {
        return;
      }
      if !fault.AtLastSync? {
        SyncDisk();
      }
    }

    /**
     * lsfs_checkpoint_load: reads both headers, then the inode map behind the better one. A
     * header that cannot be read counts as invalid; `headersOk` and `mapOk` are which reads succeed.
     */
    method LoadCheckpoint(headersOk: seq<bool>, mapOk: bool) returns (r: Option<Snapshot>)
      requires |headersOk| == 2
      modifies this`sequence, this`active
      ensures r == LoadRead(Visible(durable, pending), headersOk, mapOk)
      ensures headersOk == [true, true] && mapOk ==> r == Load(Visible(durable, pending))
      ensures r.Some? ==>
                sequence == r.value.sequence && BestRegion(HeadersRead(Visible(durable, pending), headersOk)) == Some(active)
      ensures r.None? ==> sequence == old(sequence) && active == old(active)
    {
      hide Visible, LoadEntries, CheckpointFormat.Decode;
      var disk := Visible(durable, pending);
      var headers: seq<Block> := [];
      var valid: seq<bool> := [];
      var i := 0;
      while i < 2
        invariant 0 <= i <= 2 && |headers| == |valid| == i
        invariant forall j :: 0 <= j < i ==>
                    headers[j] == At(disk, RegionStart(j == 1)) && valid[j] == (headersOk[j] && ValidHeader(headers[j]))
      {
        headers := headers + [At(disk, RegionStart(i == 1))];
        valid := valid + [headersOk[i] && ValidHeader(headers[i])];
        i := i + 1;
      }
      var best: bool;
      if valid[0] && valid[1] {
        best := !(headers[0].sequence > headers[1].sequence);
      } else if valid[0] {
        best := false;
      } else if valid[1] {
        best := true;
      } else {
        return None;
      }
      if !mapOk {
        return None;
      }
      var h := headers[if best then 1 else 0];
      r := Some(Snapshot(h.sequence, h.timestamp, h.logHead, LoadEntries(disk, RegionStart(best) + 1, h.entries)));
      sequence, active := h.sequence, best;
    }
  }

  // --------------------------------------------------- the parts of a script

  lemma DoAllNext(d: Device, ops: seq<Op>, i: nat)
    requires i < |ops|
    ensures DoAll(d, ops[..i + 1]) == Do(DoAll(d, ops[..i]), ops[i])
  {
    assert ops[..i + 1][..i] == ops[..i];
  }

  /** A script in its four parts. */
  lemma Parts(r: bool, s: Snapshot, table: seq<Block>, superblock: Block)
    requires Fits(s.inodes)
    ensures var b := WriteOps(RegionStart(r) + 1, SaveEntries(s.inodes));
            var c := WriteOps(SEGTABLE_START, table);
            var ops := Script(r, s, table, superblock);
            && ops == [WriteOp(Write(RegionStart(r), HeaderOf(s, 0)))] + b + c +
                      [SyncOp, WriteOp(Write(RegionStart(r), HeaderOf(s, 1))), WriteOp(Write(0, superblock)), SyncOp]
            && |ops| == |b| + |c| + 5 && |b| == |SaveEntries(s.inodes)|
  {
  }

  lemma WriteOpsPrefix(start: nat, bs: seq<Block>, k: nat)
    requires k <= |bs|
    ensures WriteOps(start, bs[..k]) == WriteOps(start, bs)[..k]
  {
  }

  /** The device after `k` blocks of the inode map, and after all of it and the segment table. */
  lemma MapStages(d: Device, r: bool, s: Snapshot, table: seq<Block>, superblock: Block, k: nat)
    requires Fits(s.inodes) && k <= |SaveEntries(s.inodes)|
    ensures var saved := SaveEntries(s.inodes);
            var ops := Script(r, s, table, superblock);
            var d1 := Do(d, WriteOp(Write(RegionStart(r), HeaderOf(s, 0))));
            && |ops| >= |saved| + 5
            && DoAll(d, ops[..k + 1]) == DoAll(d1, WriteOps(RegionStart(r) + 1, saved[..k]))
            && DoAll(d, ops[..|ops| - 4]) == DoAll(DoAll(d1, WriteOps(RegionStart(r) + 1, saved)), WriteOps(SEGTABLE_START, table))
  {
    hide DoAll;
    var saved := SaveEntries(s.inodes);
    var a := [WriteOp(Write(RegionStart(r), HeaderOf(s, 0)))];
    var b := WriteOps(RegionStart(r) + 1, saved);
    var c := WriteOps(SEGTABLE_START, table);
    var ops := Script(r, s, table, superblock);
    Parts(r, s, table, superblock);
    WriteOpsPrefix(RegionStart(r) + 1, saved, k);
    assert ops[..k + 1] == a + b[..k];
    DoAllConcat(d, a, b[..k]);
    assert ops[..|ops| - 4] == a + b + c;
    DoAllConcat(d, a + b, c);
    DoAllConcat(d, a, b);
    DoAllOne(d, a[0]);
  }

  lemma DoAllOne(d: Device, op: Op)
    ensures DoAll(d, [op]) == Do(d, op)
  {
    assert [op][..0] == [];
  }

  /** The device after the header, and after each of the last four operations. */
  lemma Stages(d: Device, r: bool, s: Snapshot, table: seq<Block>, superblock: Block)
    ensures var ops := Script(r, s, table, superblock);
            var n := |ops|;
            && n >= 1 && DoAll(d, ops[..0]) == d
            && DoAll(d, ops[..1]) == Do(d, WriteOp(Write(RegionStart(r), HeaderOf(s, 0))))
            && if !Fits(s.inodes) then n == 1
               else
                 && n >= 5
                 && DoAll(d, ops[..n - 3]) == Do(DoAll(d, ops[..n - 4]), SyncOp)
                 && DoAll(d, ops[..n - 2]) == Do(DoAll(d, ops[..n - 3]), WriteOp(Write(RegionStart(r), HeaderOf(s, 1))))
                 && DoAll(d, ops[..n - 1]) == Do(DoAll(d, ops[..n - 2]), WriteOp(Write(0, superblock)))
                 && DoAll(d, ops[..n]) == Do(DoAll(d, ops[..n - 1]), SyncOp)
  {
    var ops := Script(r, s, table, superblock);
    var n := |ops|;
    assert ops[..0] == [];
    DoAllNext(d, ops, 0);
    if Fits(s.inodes) {
      Parts(r, s, table, superblock);
      DoAllNext(d, ops, n - 4);
      DoAllNext(d, ops, n - 3);
      DoAllNext(d, ops, n - 2);
      DoAllNext(d, ops, n - 1);
    }
  }

  // ------------------------------------------------- the steps of the machine

  function AdvanceMany(s: State, n: nat): (r: State)
    requires s.pc + n < |s.script|
    ensures r.pc == s.pc + n && r.script == s.script
  {
    if n == 0 then s else Apply(AdvanceMany(s, n - 1), Advance)
  }

  lemma AdvanceOnce(s: State)
    requires s.pc + 1 < |s.script|
    ensures var s' := Apply(s, Advance);
            && s'.dev == Do(s.dev, s.script[s.pc]) && s'.pc == s.pc + 1 && s'.script == s.script
            && s'.active == s.active && s'.sequence == s.sequence && s'.target == s.target
            && (s.loose.None? ==> s'.loose.None?)
  {
  }

  /** The first operations of a checkpoint, made by the machine one step at a time. */
  lemma {:induction false} StepsOfCheckpoint(s: State, n: nat)
    requires s.pc == 0 && n < |s.script|
    ensures var s' := AdvanceMany(s, n);
            && s'.dev == DoAll(s.dev, s.script[..n]) && s'.active == s.active
            && s'.sequence == s.sequence && s'.target == s.target
  {
    hide Apply, Do;
    if n > 0 {
      StepsOfCheckpoint(s, n - 1);
      AdvanceOnce(AdvanceMany(s, n - 1));
      DoAllNext(s.dev, s.script, n - 1);
    } else {
      assert s.script[..0] == [];
    }
  }

  /** The machine's state behind a checkpoint that ends at a fault. */
  function Ended(s: State, k: nat): State
    requires s.pc == 0 && k <= |s.script| && s.script != []
  {
    if k < |s.script| then Apply(AdvanceMany(s, k), Fail) else Apply(AdvanceMany(s, k - 1), Advance)
  }

  lemma IssuedBounds(ops: seq<Op>, inodes: seq<Entry>, fault: Fault)
    requires |ops| >= 1 && (Fits(inodes) ==> |ops| >= |SaveEntries(inodes)| + 5)
    ensures Issued(ops, inodes, fault) <= |ops|
  {
  }

  lemma EndsAt(s: State, k: nat)
    requires s.pc == 0 && k <= |s.script| && s.script != []
    ensures var s' := Ended(s, k);
            && Idle(s') && s'.dev == DoAll(s.dev, s.script[..k]) && s'.sequence == s.sequence
            && s'.active == if Fits(s.target.inodes) && |s.script| - k <= 2 then !s.active else s.active
  {
    hide DoAll, Do, AdvanceMany;
    var n := |s.script|;
    if k < n {
      StepsOfCheckpoint(s, k);
    } else {
      StepsOfCheckpoint(s, n - 1);
      DoAllNext(s.dev, s.script, n - 1);
    }
  }

  lemma Begun(s: State, t: Step)
    requires Idle(s) && t.Begin?
    ensures var s1 := Apply(s, t);
            && s1.pc == 0 && s1.dev == s.dev && s1.sequence == s.sequence + 1 && s1.active == s.active
            && s1.loose == s.loose && s1.target.inodes == t.inodes && s1.script == Script(!s.active, s1.target, t.table, t.superblock)
            && |s1.script| >= 1 && (if Fits(t.inodes) then |s1.script| >= |SaveEntries(t.inodes)| + 5 else |s1.script| == 1)
  {
    ScriptShape(!s.active, Apply(s, t).target, t.table, t.superblock);
  }

  /**
   * A checkpoint as a whole, whichever operation fails, is the steps of the machine: same
   * device, same active region, same sequence number as the method leaves.
   */
  lemma CheckpointIsItsSteps(s: State, t: Step, fault: Fault)
    requires Idle(s) && t.Begin?
    ensures var s1 := Apply(s, t);
            && |s1.script| >= 1 && (Fits(t.inodes) ==> |s1.script| >= |SaveEntries(t.inodes)| + 5)
            && var k := Issued(s1.script, t.inodes, fault);
               && s1.pc == 0 && k <= |s1.script|
               && var s2 := Ended(s1, k);
                  && Idle(s2) && s2.dev == DoAll(s.dev, s1.script[..k]) && s2.sequence == s.sequence + 1
                  && s2.active == if Fits(t.inodes) && fault in {NoFault, AtLastSync, AtSuperblock} then !s.active else s.active
  {
    hide Apply, Ended, DoAll, Fits;
    Begun(s, t);
    var s1 := Apply(s, t);
    IssuedBounds(s1.script, t.inodes, fault);
    EndsAt(s1, Issued(s1.script, t.inodes, fault));
  }

  // ------------------------------------------------------ the failing input

  /** Up to the superblock the machine keeps its invariant, with the marker written and unsynced. */
  lemma {:induction false} MarkerIsUnsynced(s: State, n: nat)
    requires Inv(s) && s.pc == 0 && s.loose.None? && Fits(s.target.inodes) && n + 2 <= |s.script| && !Idle(s)
    ensures var s' := AdvanceMany(s, n);
            && Inv(s') && s'.loose.None? && s'.target == s.target && s'.active == s.active
            && (Left(s') == 2 ==> MarkerPending(s'.dev, RegionStart(!s.active), s.target))
  {
    hide Inv, Apply, MarkerPending;
    ScriptIsLong(s);
    if n > 0 {
      MarkerIsUnsynced(s, n - 1);
      var s0 := AdvanceMany(s, n - 1);
      AdvanceOnce(s0);
      StepKeepsInv(s0, Advance);
      if Left(s0) == 3 {
        MarkerStep(s0);
      }
    }
  }

  lemma ScriptIsLong(s: State)
    requires Inv(s) && !Idle(s) && Fits(s.target.inodes)
    ensures |s.script| >= 5
  {
  }

  lemma MarkerStep(s: State)
    requires Inv(s) && s.loose.None? && !Idle(s) && Fits(s.target.inodes) && Left(s) == 3
    ensures MarkerPending(Apply(s, Advance).dev, RegionStart(!s.active), s.target)
  {
    assert Running(s);
    assert s.script[|s.script| - 3] == WriteOp(Write(RegionStart(!s.active), HeaderOf(s.target, 1)));
    SeenAfterWrite(s.dev, s.script[s.pc].w, RegionStart(!s.active));
  }

  /**
   * The failing input, first half: whatever the state and the checkpoint, if its superblock
   * write fails it is left loose.
   */
  lemma SuperblockFailure(s: State, t: Step)
    requires Inv(s) && Idle(s) && s.loose.None? && t.Begin? && Fits(t.inodes)
    ensures var s1 := Apply(s, t);
            && s1.pc == 0 && |s1.script| > 2
            && var f := Ended(s1, |s1.script| - 2);
               Inv(f) && Idle(f) && f.loose == Some(s1.target)
  {
    hide Inv, Apply, MarkerPending, Script, AdvanceMany;
    var s1 := Apply(s, t);
    BeginKeeps(s, t);
    Begun(s, t);
    var n := |s1.script| - 2;
    MarkerIsUnsynced(s1, n);
    PendingIsLoose(AdvanceMany(s1, n), s1.target);
  }

  lemma PendingIsLoose(s: State, t: Snapshot)
    requires Inv(s) && !Idle(s) && Fits(t.inodes) && s.target == t && Left(s) == 2
    requires MarkerPending(s.dev, RegionStart(!s.active), t)
    ensures var f := Apply(s, Fail);
            Inv(f) && Idle(f) && f.loose == Some(t)
  {
    hide Inv;
    LateFailKeeps(s);
  }

  /** The second half: the header of the next checkpoint may be all that a crash keeps. */
  lemma NextHeaderLosesAll(f: State, u: Step)
    requires Inv(f) && Idle(f) && f.loose.Some? && u.Begin?
    ensures var s := Apply(f, u);
            && Inv(s) && Enabled(s, Advance)
            && var dev := Apply(s, Advance).dev;
               Load(Survivor(dev.durable, dev.pending, {|s.dev.pending|})).None?
  {
    BeginKeeps(f, u);
    Begun(f, u);
    hide Inv, Load, Survivor;
    NothingToLoad(Apply(f, u));
  }

  // ------------------------------------------ what a whole checkpoint leaves

  /** The last write to a block is what reads see of it. */
  lemma {:induction false} LastWriteSeen(d: Device, ops: seq<Op>, j: nat)
    requires j < |ops| && ops[j].WriteOp?
    requires forall x :: j < x < |ops| && ops[x].WriteOp? ==> ops[x].w.a != ops[j].w.a
    ensures Seen(DoAll(d, ops), ops[j].w.a) == ops[j].w.b
    decreases |ops|
  {
    hide Seen;
    var n := |ops| - 1;
    assert ops[..n + 1] == ops;
    DoAllNext(d, ops, n);
    if j < n {
      LastWriteSeen(d, ops[..n], j);
    }
    match ops[n] {
      case WriteOp(w) => SeenAfterWrite(DoAll(d, ops[..n]), w, ops[j].w.a);
      case SyncOp => SyncFacts(DoAll(d, ops[..n]), ops[j].w.a);
    }
  }

  /** Where a script writes the segment table and the superblock, and that nothing later writes there. */
  lemma TableInScript(r: bool, s: Snapshot, table: seq<Block>, superblock: Block, i: nat)
    requires Fits(s.inodes) && i < |table|
    ensures var ops := Script(r, s, table, superblock);
            var j := 1 + |SaveEntries(s.inodes)| + i;
            && j < |ops| - 4 && ops[j] == WriteOp(Write(SEGTABLE_START + i, table[i]))
            && forall x :: j < x < |ops| && ops[x].WriteOp? ==> ops[x].w.a != SEGTABLE_START + i
  {
    hide SaveEntries;
    var b := WriteOps(RegionStart(r) + 1, SaveEntries(s.inodes));
    var c := WriteOps(SEGTABLE_START, table);
    var ops := Script(r, s, table, superblock);
    var m := 1 + |b|;
    assert ops[m..m + |c|] == c;
    forall x | m <= x < m + |c|
      ensures ops[x] == c[x - m]
    {
      assert ops[x] == ops[m..m + |c|][x - m];
    }
  }

  /**
   * A checkpoint that runs to its end leaves nothing unsynced; on the disk are the segment
   * table and the superblock it was given, beside the checkpoint that a load then finds.
   */
  lemma CheckpointPersists(s: State, t: Step)
    requires Idle(s) && t.Begin? && Fits(t.inodes)
    ensures var s1 := Apply(s, t);
            && s1.pc == 0 && s1.script != []
            && var d := Ended(s1, |s1.script|).dev;
               && d.pending == [] && At(d.durable, 0) == t.superblock
               && forall i :: 0 <= i < |t.table| ==> At(d.durable, SEGTABLE_START + i) == t.table[i]
  {
    hide Script, DoAll, Visible;
    Begun(s, t);
    var s1 := Apply(s, t);
    var ops := s1.script;
    var n := |ops|;
    EndsAt(s1, n);
    assert ops[..n] == ops;
    ScriptShape(!s.active, s1.target, t.table, t.superblock);
    DoAllNext(s.dev, ops, n - 1);
    var before := DoAll(s.dev, ops[..n - 1]);
    assert Ended(s1, n).dev == Do(before, SyncOp);
    SuperblockInScript(!s.active, s1.target, t.table, t.superblock);
    LastWriteSeen(s.dev, ops[..n - 1], n - 2);
    SyncFacts(before, 0);
    forall i | 0 <= i < |t.table|
      ensures At(Do(before, SyncOp).durable, SEGTABLE_START + i) == t.table[i]
    {
      TableInScript(!s.active, s1.target, t.table, t.superblock, i);
      LastWriteSeen(s.dev, ops[..n - 1], 1 + |SaveEntries(t.inodes)| + i);
      SyncFacts(before, SEGTABLE_START + i);
    }
  }

  lemma SuperblockInScript(r: bool, s: Snapshot, table: seq<Block>, superblock: Block)
    requires Fits(s.inodes)
    ensures var ops := Script(r, s, table, superblock);
            |ops| > 4 && ops[|ops| - 2] == WriteOp(Write(0, superblock)) && ops[|ops| - 1] == SyncOp
  {
  }
}
