/**
 * Cleaning in the middle of any run of file operations, on both of its paths: the
 * operations keep the log's records truthful, which the copying path relies on, and the
 * live counts sound, which the path for empty segments relies on.
 */
module CleanerRuns {
  import opened Layout
  import opened Log
  import opened FileSystem
  import opened FsRuns
  import opened Cleaner
  import A = Accounting

  lemma ExtendsKeepsTruth(f: Fs, f': Fs)
    requires Truth(f) && Extends(f.log, f'.log) && Valid(f'.log)
    requires f'.inodeMap == f.inodeMap && f'.icache == f.icache
    ensures Truth(f')
  {
  }

  lemma ReplaceKeepsTruth(f: Fs, was: nat, data: Block, i: BlockInfo)
    requires Truth(f) && CanAppend(f.log)
    ensures var (f', a) := AppendFs(MarkDeadFs(f, was), data, i);
            && Truth(f') && Truthful(f'.log, a, i) && a > 0
            && f'.inodeMap == f.inodeMap && f'.icache == f.icache
  {
    ReplaceKeeps(f, was, data, i);
    MarkDeadKeepsFs(f, was);
    AppendFsFacts(MarkDeadFs(f, was), data, i);
    ExtendsKeepsTruth(f, AppendFs(MarkDeadFs(f, was), data, i).0);
  }

  lemma SetDirectKeepsTruth(f: Fs, n: Inode, ino: nat, idx: nat, a: nat)
    requires Truth(f) && ino in f.icache && idx < DIRECT_BLOCKS
    requires Truthful(f.log, a, BlockInfo(ino, idx, DataBlock))
    requires n.disk.direct == f.icache[ino].disk.direct[idx := a]
    ensures Truth(f.(icache := f.icache[ino := n]))
  {
  }

  lemma WriteBlockKeepsTruth(f: Fs, ino: nat, idx: nat, data: Block)
    requires Truth(f) && Enabled(f, WriteBlockStep(ino, idx, data))
    ensures Truth(WriteBlock(f, ino, idx, data).0)
  {
    hide Truthful, AppendFs, MarkDeadFs;
    var d := f.icache[ino].disk;
    ReplaceKeepsTruth(f, if idx < DIRECT_BLOCKS then d.direct[idx] else 0, data, BlockInfo(ino, idx % UINT32, DataBlock));
    var (f1, a) := AppendData(f, ino, idx, data);
    if idx < DIRECT_BLOCKS {
      SetDirectKeepsTruth(f1, WriteBlock(f, ino, idx, data).0.icache[ino], ino, idx, a);
    } else if idx < MAPPED_BLOCKS {
      var words := if d.indirect == 0 then Zeros(WORDS_PER_BLOCK) else Words(DiskAt(f1.log.disk, d.indirect));
      ReplaceKeepsTruth(f1, d.indirect, Payload(words[idx - DIRECT_BLOCKS := a]), BlockInfo(ino, 0, IndirectBlock));
    }
  }

  lemma WriteInodeKeepsTruth(f: Fs, ino: nat)
    requires Truth(f) && Enabled(f, WriteInodeStep(ino))
    ensures Truth(WriteInode(f, ino).0)
  {
    var n := f.icache[ino];
    ReplaceKeepsTruth(f, n.location, InodeImage(n.disk), BlockInfo(ino, 0, InodeBlock));
  }

  lemma FreeInodeKeepsTruth(f: Fs, ino: nat)
    requires Truth(f) && Enabled(f, FreeInodeStep(ino))
    ensures Truth(FreeInode(f, ino))
  {
    var n := f.icache[ino];
    var addrs := n.disk.direct + [n.disk.indirect, n.disk.doubleIndirect, n.location];
    MarkAllDeadKeeps(f, addrs);
    ExtendsKeepsTruth(f, MarkAllDead(f, addrs));
  }

  lemma StepKeepsTruth(f: Fs, s: Step)
    requires Truth(f) && Enabled(f, s) && !s.FreeEmptyStep? && (s.NewInodeStep? ==> s.ino != 0)
    ensures Truth(Apply(f, s))
  {
    match s
    case WriteBlockStep(ino, idx, data) => WriteBlockKeepsTruth(f, ino, idx, data);
    case WriteInodeStep(ino) => WriteInodeKeepsTruth(f, ino);
    case FreeInodeStep(ino) => FreeInodeKeepsTruth(f, ino);
    case FlushStep =>
      FlushFsFacts(f);
      ExtendsKeepsTruth(f, FlushFs(f).0);
    case CheckpointStep =>
      FlushFsFacts(f);
      CheckpointKeepsLog(f);
      ExtendsKeepsTruth(f, CheckpointFs(f).0);
    case SyncStep =>
      SyncKeeps(f.log);
      ExtendsKeepsTruth(f, Apply(f, s));
    case _ =>
  }

  // ---------------------------------------------- slots under the cleaner

  /** What points at a block is a slot. */
  lemma PointedIsSlot(f: Fs, m: A.Slots, a: nat)
    requires A.Inv(f, m) && PointedAt(f, a) && a != 0
    ensures exists s :: s in m && m[s] == a
  {
    if ino :| ino in f.inodeMap && f.inodeMap[ino] == a {
      assert m[A.ImageSlot(ino)] == a;
    } else {
      var ino, idx :| ino in f.icache && 0 <= idx < |f.icache[ino].disk.direct| && f.icache[ino].disk.direct[idx] == a;
      assert A.Coherent(f.icache[ino].disk, ino, m);
      assert A.Held(f.icache[ino].disk, A.DataSlot(ino, idx)) == a;
    }
  }

  /** A segment whose live count is zero has nothing pointing into it. */
  lemma EmptyIsUnpointed(f: Fs, m: A.Slots, k: nat)
    requires A.Inv(f, m) && k < |f.log.table| && f.log.table[k].state.Full? && f.log.table[k].live == 0
    ensures forall a: nat :: a != 0 && SegOf(a) == k ==> !PointedAt(f, a)
  {
    forall a: nat | a != 0 && SegOf(a) == k
      ensures PointedAt(f, a) ==> A.SlotsIn(m, k) != {}
    {
      if PointedAt(f, a) {
        PointedIsSlot(f, m, a);
        var s :| s in m && m[s] == a;
        assert s in A.SlotsIn(m, k);
      }
    }
    A.FreeEmptyAccounted(f.log, m, k);
  }

  lemma FreeingKeeps(f: Fs, k: nat)
    requires Truth(f) && k < |f.log.table| && f.log.table[k].state.Full? && f.log.table[k].live == 0
    requires forall a: nat :: a != 0 && SegOf(a) == k ==> !PointedAt(f, a)
    ensures var f' := f.(log := FreeEmpty(f.log, k));
            Truth(f') && SameContents(f, f')
  {
    var f' := f.(log := FreeEmpty(f.log, k));
    CountFreeUpdate(f.log.table, k, f.log.table[k].(state := Free));
    forall ino | ino in f.inodeMap
      ensures SegOf(f.inodeMap[ino]) != k
    {
      assert PointedAt(f, f.inodeMap[ino]);
    }
    forall ino, idx | ino in f.icache && 0 <= idx < DIRECT_BLOCKS && f.icache[ino].disk.direct[idx] != 0
      ensures SegOf(f.icache[ino].disk.direct[idx]) != k
    {
      assert PointedAt(f, f.icache[ino].disk.direct[idx]);
    }
  }

  /** The slot whose block the cleaner relocates. */
  function MovedSlot(r: BlockInfo): A.Slot
  {
    if r.kind.InodeBlock? then A.ImageSlot(r.ino) else A.DataSlot(r.ino, r.offset)
  }

  /** The slots after the rounds from block `i` on. */
  function CleanedSlots(f: Fs, m: A.Slots, k: nat, bs: seq<Block>, i: nat, n: nat): A.Slots
    requires Sound(f) && |bs| == SEGMENT_BLOCKS && 1 <= i <= n <= SEGMENT_BLOCKS
    decreases n - i
  {
    if i == n then m
    else
      var r, a := RecordAt(bs[0], i - 1), SegmentToBlock(k, i);
      var m' := if Live(f, r, a) then m[MovedSlot(r) := AppendFs(f, bs[i], r).1] else m;
      CleanedSlots(CleanBlock(f, bs[i], r, a).0, m', k, bs, i + 1, n)
  }

  /** The slots whose blocks the copying path can relocate. */
  predicate Movable(s: A.Slot)
  {
    s.ImageSlot? || (s.DataSlot? && s.idx < DIRECT_BLOCKS)
  }

  /** Everything accounted in the segment is an inode image or a direct block. */
  ghost predicate Relocatable(m: A.Slots, k: nat)
  {
    forall s :: s in m && SegOf(m[s]) == k ==> Movable(s)
  }

  /** A slot takes the address of a copy. */
  lemma CopyAccounted(f: Fs, m: A.Slots, data: Block, r: BlockInfo, s: A.Slot)
    requires A.Accounted(f.log, m) && CanAppend(f.log)
    ensures var (f1, b) := AppendFs(f, data, r);
            && b > 0 && A.Accounted(f1.log, m[s := b]) && f1.inodeMap == f.inodeMap && f1.icache == f.icache
  {
    A.Forget(f.log, m, {s});
    A.AppendAccounted(f, m - {s}, data, r, s);
    var b := AppendFs(f, data, r).1;
    assert (m - {s})[s := b] == m[s := b];
  }

  lemma ImageMoves(f: Fs, m: A.Slots, f1: Fs, ino: nat, b: nat)
    requires A.Inv(f, m) && ino in f.inodeMap && b > 0
    requires f1.inodeMap == f.inodeMap && f1.icache == f.icache && A.Accounted(f1.log, m[A.ImageSlot(ino) := b])
    ensures A.Inv(f1.(inodeMap := f1.inodeMap[ino := b]), m[A.ImageSlot(ino) := b])
  {
    hide A.Accounted, A.Coherent;
    var m' := m[A.ImageSlot(ino) := b];
    assert A.ImageSlot(ino) in m;
    forall i | i in f.icache
      ensures A.Coherent(f.icache[i].disk, i, m')
    {
      SlotChanged(f.icache[i].disk, i, m, A.ImageSlot(ino), b);
    }
  }

  lemma SlotChanged(d: DiskInode, ino: nat, m: A.Slots, s: A.Slot, b: nat)
    requires A.Coherent(d, ino, m) && s in m && (s.ImageSlot? || s.ino != ino)
    ensures A.Coherent(d, ino, m[s := b])
  {
    var m' := m[s := b];
    forall t: A.Slot | t.ino == ino && A.Direct(t)
      ensures A.Held(d, t) == if t in m' then m'[t] else 0
    {
      assert A.Held(d, t) == if t in m then m[t] else 0;
    }
  }

  lemma DataMoves(f: Fs, m: A.Slots, f1: Fs, ino: nat, idx: nat, b: nat)
    requires A.Inv(f, m) && ino in f.icache && idx < DIRECT_BLOCKS && A.DataSlot(ino, idx) in m && b > 0
    requires f1.inodeMap == f.inodeMap && f1.icache == f.icache && A.Accounted(f1.log, m[A.DataSlot(ino, idx) := b])
    ensures idx < |f.icache[ino].disk.direct|
    ensures A.Inv(f1.(icache := f1.icache[ino := PointAt(f.icache[ino], idx, b)]), m[A.DataSlot(ino, idx) := b])
  {
    hide A.Accounted;
    assert A.Coherent(f.icache[ino].disk, ino, m);
    var f' := f1.(icache := f1.icache[ino := PointAt(f.icache[ino], idx, b)]);
    A.CoherentData(f.icache[ino].disk, f'.icache[ino].disk, ino, m, idx, b);
    A.CoherentAfter(f, m, f', m[A.DataSlot(ino, idx) := b], ino);
  }

  lemma CleanBlockAccounts(f: Fs, m: A.Slots, k: nat, bs: seq<Block>, i: nat)
    requires A.Inv(f, m) && Cleaner.Cleaning(f, k, bs, i) && 1 <= i < SEGMENT_BLOCKS
    requires Live(f, RecordAt(bs[0], i - 1), SegmentToBlock(k, i)) ==> CanAppend(f.log)
    ensures var r, a := RecordAt(bs[0], i - 1), SegmentToBlock(k, i);
            var m' := if Live(f, r, a) then m[MovedSlot(r) := AppendFs(f, bs[i], r).1] else m;
            && A.Inv(CleanBlock(f, bs[i], r, a).0, m')
            && (Relocatable(m, k) ==> Relocatable(m', k))
  {
    hide A.Inv, AppendFs;
    var r, a := RecordAt(bs[0], i - 1), SegmentToBlock(k, i);
    if Live(f, r, a) {
      AppendCopy(f, k, bs, i, bs[i], r);
      A.InvIsAccounted(f, m);
      CopyAccounted(f, m, bs[i], r, MovedSlot(r));
      var (f1, b) := AppendFs(f, bs[i], r);
      if LiveImage(f, r, a) {
        ImageMoves(f, m, f1, r.ino, b);
      } else {
        HeldIsSlot(f, m, r.ino, r.offset);
        DataMoves(f, m, f1, r.ino, r.offset, b);
      }
    }
  }

  lemma HeldIsSlot(f: Fs, m: A.Slots, ino: nat, idx: nat)
    requires A.Inv(f, m) && ino in f.icache && idx < DIRECT_BLOCKS && idx < |f.icache[ino].disk.direct| && f.icache[ino].disk.direct[idx] != 0
    ensures A.DataSlot(ino, idx) in m && m[A.DataSlot(ino, idx)] == f.icache[ino].disk.direct[idx]
  {
    assert A.Coherent(f.icache[ino].disk, ino, m);
    assert A.Held(f.icache[ino].disk, A.DataSlot(ino, idx)) == f.icache[ino].disk.direct[idx];
  }

  lemma {:induction false} CleanFromAccounts(f: Fs, m: A.Slots, k: nat, bs: seq<Block>, i: nat, n: nat)
    requires A.Inv(f, m) && Relocatable(m, k)
    requires Cleaner.Cleaning(f, k, bs, i) && 1 <= i <= n <= SEGMENT_BLOCKS && Allocates(f, k, bs, i, n)
    ensures var m' := CleanedSlots(f, m, k, bs, i, n);
            A.Inv(CleanFrom(f, k, bs, i, n).0, m') && Relocatable(m', k)
    decreases n - i
  {
    if i < n {
      hide A.Inv, Cleaner.Cleaning, CleanBlock, AppendFs, Relocatable, Live;
      var r, a := RecordAt(bs[0], i - 1), SegmentToBlock(k, i);
      CleanBlockAccounts(f, m, k, bs, i);
      CleanBlockKeeps(f, k, bs, i);
      var m' := if Live(f, r, a) then m[MovedSlot(r) := AppendFs(f, bs[i], r).1] else m;
      CleanFromAccounts(CleanBlock(f, bs[i], r, a).0, m', k, bs, i + 1, n);
    }
  }

  /** When nothing points into the segment any more, no relocatable slot is left in it. */
  ghost predicate NoSlotIn(m: A.Slots, k: nat)
  {
    forall s :: s in m ==> SegOf(m[s]) != k
  }

  lemma NoSlotsLeft(f: Fs, m: A.Slots, k: nat)
    requires A.Inv(f, m) && Relocatable(m, k)
    requires forall a: nat :: a != 0 && SegOf(a) == k ==> !PointedAt(f, a)
    ensures forall s :: s in m ==> SegOf(m[s]) != k
  {
    forall s | s in m
      ensures SegOf(m[s]) != k
    {
      if Movable(s) {
        SlotIsPointed(f, m, s);
      }
    }
  }

  lemma SlotIsPointed(f: Fs, m: A.Slots, s: A.Slot)
    requires A.Inv(f, m) && s in m && Movable(s)
    ensures PointedAt(f, m[s]) && m[s] != 0
  {
    assert A.Coherent(f.icache[s.ino].disk, s.ino, m);
    if s.ImageSlot? {
      assert m[s] == f.inodeMap[s.ino];
    } else {
      assert A.Held(f.icache[s.ino].disk, s) == m[s];
      assert f.icache[s.ino].disk.direct[s.idx] == m[s];
    }
  }

  lemma StartAccounted(f: Fs, m: A.Slots, k: nat)
    requires A.Inv(f, m) && k < |f.log.table| && f.log.table[k].state.Full?
    ensures A.Inv(Started(f, k), m)
  {
    CountFreeUpdate(f.log.table, k, f.log.table[k].(state := SegState.Cleaning));
    assert f.log.seg != k;
  }

  lemma FinishAccounted(f: Fs, m: A.Slots, k: nat)
    requires A.Inv(f, m) && k < |f.log.table| && f.log.table[k].state.Cleaning?
    requires forall s :: s in m ==> SegOf(m[s]) != k
    ensures A.Inv(f.(log := FinishCleaning(f.log, k)), m)
  {
    CountFreeUpdate(f.log.table, k, f.log.table[k].(state := Free, live := 0));
    assert f.log.seg != k;
  }

  /** The slots after a cleaning. */
  function SlotsAfter(f: Fs, m: A.Slots, k: nat): A.Slots
    requires Sound(f)
  {
    var bs := ReadSegment(f.log.disk, k);
    CleanedSlots(Started(f, k), m, k, bs, 1, BlocksToVisit(bs[0]))
  }

  /** Copying a segment whose accounted blocks can all be relocated keeps the accounting. */
  lemma CleanSegmentAccounts(f: Fs, m: A.Slots, k: nat)
    requires A.Inv(f, m) && Truth(f) && Cleanable(f, k) && CleaningAllocates(f, k) && Relocatable(m, k)
    ensures A.Inv(CleanSegment(f, k).0, SlotsAfter(f, m, k))
    ensures NoSlotIn(SlotsAfter(f, m, k), k)
  {
    assert Sound(f);
    hide A.Inv, CleanFrom, CleanedSlots, Truth;
    var bs := ReadSegment(f.log.disk, k);
    var n := BlocksToVisit(bs[0]);
    var f1 := Started(f, k);
    StartAccounted(f, m, k);
    StartFacts(f, k);
    CleanFromAccounts(f1, m, k, bs, 1, n);
    CleanFromKeeps(f1, k, bs, 1, n);
    var f2 := CleanFrom(f1, k, bs, 1, n).0;
    FinishFacts(f2, k, bs, n);
    UnpointedBefore(f2, k);
    NoSlotsLeft(f2, SlotsAfter(f, m, k), k);
    FinishAccounted(f2, SlotsAfter(f, m, k), k);
  }

  lemma UnpointedBefore(f: Fs, k: nat)
    requires forall a: nat :: a != 0 && SegOf(a) == k ==> !PointedAt(f.(log := FinishCleaning(f.log, k)), a)
    ensures forall a: nat :: a != 0 && SegOf(a) == k ==> !PointedAt(f, a)
  {
    forall a: nat | a != 0 && SegOf(a) == k
      ensures !PointedAt(f, a)
    {
      assert PointedAt(f, a) ==> PointedAt(f.(log := FinishCleaning(f.log, k)), a);
    }
  }

  // ---------------------------------------------- blocks behind pointer blocks

  lemma {:induction false} CleanFromExtends(f: Fs, k: nat, bs: seq<Block>, i: nat, n: nat)
    requires Valid(f.log) && |bs| == SEGMENT_BLOCKS && 1 <= i <= n <= SEGMENT_BLOCKS && Allocates(f, k, bs, i, n)
    ensures Valid(CleanFrom(f, k, bs, i, n).0.log) && Extends(f.log, CleanFrom(f, k, bs, i, n).0.log)
    decreases n - i
  {
    if i < n {
      hide Extends;
      var r, a := RecordAt(bs[0], i - 1), SegmentToBlock(k, i);
      ExtendsItself(f.log);
      if Live(f, r, a) {
        AppendFsFacts(f, bs[i], r);
      }
      var f1 := CleanBlock(f, bs[i], r, a).0;
      CleanFromExtends(f1, k, bs, i + 1, n);
      ExtendsTransitive(f.log, f1.log, CleanFrom(f, k, bs, i, n).0.log);
    } else {
      ExtendsItself(f.log);
    }
  }

  lemma ExtendsItself(l: State)
    ensures Extends(l, l)
  {
  }

  /** Blocks in use outside the cleaned segment keep their content. */
  lemma CleaningKeepsOthers(f: Fs, k: nat, a: nat)
    requires Truth(f) && Cleanable(f, k) && CleaningAllocates(f, k) && Occupied(f.log, a) && SegOf(a) != k
    ensures Overlay(CleanSegment(f, k).0.log, a) == Overlay(f.log, a)
  {
    hide CleanFrom, Allocates;
    var bs := ReadSegment(f.log.disk, k);
    var n := BlocksToVisit(bs[0]);
    var f1 := Started(f, k);
    StartFacts(f, k);
    assert Occupied(f1.log, a);
    CleanFromExtends(f1, k, bs, 1, n);
  }

  /** Slots of blocks that the copying path does not look at stay. */
  lemma {:induction false} OtherSlotsStay(f: Fs, m: A.Slots, k: nat, bs: seq<Block>, i: nat, n: nat, s: A.Slot)
    requires Sound(f) && |bs| == SEGMENT_BLOCKS && 1 <= i <= n <= SEGMENT_BLOCKS && !Movable(s)
    ensures A.Latest(CleanedSlots(f, m, k, bs, i, n), s) == A.Latest(m, s)
    decreases n - i
  {
    if i < n {
      var r, a := RecordAt(bs[0], i - 1), SegmentToBlock(k, i);
      var m' := if Live(f, r, a) then m[MovedSlot(r) := AppendFs(f, bs[i], r).1] else m;
      OtherSlotsStay(CleanBlock(f, bs[i], r, a).0, m', k, bs, i + 1, n, s);
    }
  }

  /** Block `j` of the inode reads the same in both states. */
  predicate SameRead(f: Fs, f': Fs, ino: nat, j: nat)
    requires Usable(f, ino)
  {
    Usable(f', ino) && ReadBlock(f'.log, f'.icache[ino].disk, j, true) == ReadBlock(f.log, f.icache[ino].disk, j, true)
  }

  /** So does every block of every inode in use, direct or behind a pointer block. */
  ghost predicate SameReads(f: Fs, f': Fs)
  {
    forall ino, j :: Usable(f, ino) && 0 <= j < MAPPED_BLOCKS ==> SameRead(f, f', ino, j)
  }

  /** A copying that everything accounted in its segment survives. */
  ghost predicate Copyable(f: Fs, m: A.Slots, k: nat)
  {
    A.Inv(f, m) && Truth(f) && Cleanable(f, k) && CleaningAllocates(f, k) && Relocatable(m, k)
  }

  /** The pointer of an indirect index, and what it leads to, stay. */
  lemma CleaningKeepsPointer(f: Fs, m: A.Slots, k: nat, ino: nat, j: nat)
    requires Copyable(f, m, k) && A.Reaches(f, m) && Usable(f, ino) && DIRECT_BLOCKS <= j < MAPPED_BLOCKS
    ensures var f' := CleanSegment(f, k).0;
            && Usable(f', ino)
            && PointerTo(f'.log, f'.icache[ino].disk, j, true) == PointerTo(f.log, f.icache[ino].disk, j, true)
            && ReadBlock(f'.log, f'.icache[ino].disk, j, true) == ReadBlock(f.log, f.icache[ino].disk, j, true)
  {
    hide CleanSegment, CleaningAllocates;
    CleaningPreservesContents(f, k);
    var f' := CleanSegment(f, k).0;
    var d := f.icache[ino].disk;
    assert SameFile(f.log, f.icache[ino], f'.log, f'.icache[ino]);
    A.PointerHeld(f, m, ino);
    if d.indirect != 0 {
      assert A.PointerSlot(ino) in m && m[A.PointerSlot(ino)] == d.indirect;
      CleaningKeepsOthers(f, k, d.indirect);
      var w := PointerTo(f.log, d, j, true);
      assert w == A.Latest(m, A.DataSlot(ino, j));
      if w != 0 {
        assert m[A.DataSlot(ino, j)] == w && Occupied(f.log, w);
        CleaningKeepsOthers(f, k, w);
      }
    }
  }

  /** After copying a segment every block of every file in use reads as before, and readers stay on the latest blocks. */
  lemma CleaningKeepsReads(f: Fs, m: A.Slots, k: nat)
    requires Copyable(f, m, k) && A.Reaches(f, m)
    ensures var f' := CleanSegment(f, k).0;
            A.Reaches(f', SlotsAfter(f, m, k)) && SameReads(f, f')
  {
    hide CleanSegment, SlotsAfter;
    CleaningPreservesContents(f, k);
    CleanSegmentAccounts(f, m, k);
    var f' := CleanSegment(f, k).0;
    forall ino, j | Usable(f, ino) && 0 <= j < MAPPED_BLOCKS
      ensures SameRead(f, f', ino, j)
    {
      if j < DIRECT_BLOCKS {
        DirectReads(f, f', ino, j);
      } else {
        CleaningKeepsPointer(f, m, k, ino, j);
      }
    }
    forall ino, j | Usable(f', ino) && 0 <= j < MAPPED_BLOCKS
      ensures PointerTo(f'.log, f'.icache[ino].disk, j, true) == A.Latest(SlotsAfter(f, m, k), A.DataSlot(ino, j))
    {
      ReachedAfter(f, m, k, ino, j);
    }
  }

  lemma DirectReads(f: Fs, f': Fs, ino: nat, j: nat)
    requires SameContents(f, f') && Usable(f, ino) && j < DIRECT_BLOCKS
    ensures Usable(f', ino) && ReadBlock(f'.log, f'.icache[ino].disk, j, true) == ReadBlock(f.log, f.icache[ino].disk, j, true)
  {
    assert SameFile(f.log, f.icache[ino], f'.log, f'.icache[ino]);
  }

  lemma ReachedAfter(f: Fs, m: A.Slots, k: nat, ino: nat, j: nat)
    requires Copyable(f, m, k) && A.Reaches(f, m)
    requires Usable(CleanSegment(f, k).0, ino) && j < MAPPED_BLOCKS
    ensures var f' := CleanSegment(f, k).0;
            PointerTo(f'.log, f'.icache[ino].disk, j, true) == A.Latest(SlotsAfter(f, m, k), A.DataSlot(ino, j))
  {
    hide CleanSegment, CleanedSlots, CleaningAllocates;
    CleaningPreservesContents(f, k);
    var f' := CleanSegment(f, k).0;
    assert SameFile(f.log, f.icache[ino], f'.log, f'.icache[ino]);
    if j < DIRECT_BLOCKS {
      CleanSegmentAccounts(f, m, k);
      assert A.Coherent(f'.icache[ino].disk, ino, SlotsAfter(f, m, k));
      assert A.Held(f'.icache[ino].disk, A.DataSlot(ino, j)) == f'.icache[ino].disk.direct[j];
    } else {
      CleaningKeepsPointer(f, m, k, ino, j);
      assert PointerTo(f.log, f.icache[ino].disk, j, true) == A.Latest(m, A.DataSlot(ino, j));
      var bs := ReadSegment(f.log.disk, k);
      OtherSlotsStay(Started(f, k), m, k, bs, 1, BlocksToVisit(bs[0]), A.DataSlot(ino, j));
    }
  }

  // ------------------------------------------------------------------ runs

  datatype Event = FileEvent(step: Step) | CleanEvent(k: nat)

  /**
   * File operations know the location that they mark dead, and a segment that is copied
   * has its records and nothing but inode images and direct blocks in use.
   */
  ghost predicate Possible(f: Fs, m: A.Slots, e: Event)
    requires Sound(f)
  {
    match e
    case FileEvent(s) => Enabled(f, s) && A.KnowsLocation(f, s) && (s.NewInodeStep? ==> s.ino != 0)
    case CleanEvent(k) => Cleanable(f, k) && CleaningAllocates(f, k) && Relocatable(m, k)
  }

  ghost function Occur(f: Fs, m: A.Slots, e: Event): (r: Fs)
    requires Sound(f) && Possible(f, m, e)
    ensures Sound(r)
  {
    match e
    case FileEvent(s) => Apply(f, s)
    case CleanEvent(k) => CleanSegment(f, k).0
  }

  ghost function NextSlots(f: Fs, m: A.Slots, e: Event): A.Slots
    requires Sound(f) && Possible(f, m, e)
  {
    match e
    case FileEvent(s) => A.Next(f, m, s)
    case CleanEvent(k) => SlotsAfter(f, m, k)
  }

  /** Any interleaving of file operations and cleaning, from truthful records and sound counts. */
  ghost predicate Run(fs: seq<Fs>, ms: seq<A.Slots>, es: seq<Event>)
  {
    && |fs| == |ms| == |es| + 1
    && Truth(fs[0]) && A.Inv(fs[0], ms[0])
    && forall i :: 0 <= i < |es| ==>
         && Sound(fs[i]) && Possible(fs[i], ms[i], es[i])
         && fs[i + 1] == Occur(fs[i], ms[i], es[i]) && ms[i + 1] == NextSlots(fs[i], ms[i], es[i])
  }

  lemma EventKeeps(f: Fs, m: A.Slots, e: Event)
    requires Truth(f) && A.Inv(f, m) && Possible(f, m, e)
    ensures Truth(Occur(f, m, e)) && A.Inv(Occur(f, m, e), NextSlots(f, m, e))
  {
    hide Truth, A.Inv, CleanSegment, A.Next;
    match e
    case FileEvent(s) =>
      A.StepKeepsInv(f, m, s);
      if s.FreeEmptyStep? {
        FreeEmptyKeepsTruth(f, m, s.k);
      } else {
        StepKeepsTruth(f, s);
      }
    case CleanEvent(k) =>
      CleaningPreservesContents(f, k);
      CleanSegmentAccounts(f, m, k);
  }

  lemma FreeEmptyKeepsTruth(f: Fs, m: A.Slots, k: nat)
    requires Truth(f) && A.Inv(f, m)
    ensures Truth(f.(log := FreeEmpty(f.log, k))) && SameContents(f, f.(log := FreeEmpty(f.log, k)))
  {
    hide A.Inv;
    if k < |f.log.table| && f.log.table[k].state.Full? && f.log.table[k].live == 0 {
      EmptyIsUnpointed(f, m, k);
      FreeingKeeps(f, k);
    } else {
      SameContentsReflexive(f);
    }
  }

  lemma {:induction false} RunKeepsTruth(fs: seq<Fs>, ms: seq<A.Slots>, es: seq<Event>, n: nat)
    requires Run(fs, ms, es) && n <= |es|
    ensures Truth(fs[n]) && A.Inv(fs[n], ms[n])
  {
    hide Truth, A.Inv, Possible, Occur, NextSlots;
    if n > 0 {
      RunKeepsTruth(fs, ms, es, n - 1);
      EventKeeps(fs[n - 1], ms[n - 1], es[n - 1]);
    }
  }

  /** Freeing an empty segment changes no block that a reader finds. */
  lemma FreeEmptyKeepsReads(f: Fs, m: A.Slots, k: nat)
    requires Truth(f) && A.Inv(f, m) && A.Reaches(f, m)
    ensures var f' := f.(log := FreeEmpty(f.log, k));
            A.Reaches(f', m) && SameReads(f, f')
  {
    var f' := f.(log := FreeEmpty(f.log, k));
    assert forall a: nat :: Overlay(f'.log, a) == Overlay(f.log, a);
    forall ino, j | Usable(f, ino) && 0 <= j < MAPPED_BLOCKS
      ensures SameRead(f, f', ino, j)
    {
    }
    forall ino, j | Usable(f', ino) && 0 <= j < MAPPED_BLOCKS
      ensures PointerTo(f'.log, f'.icache[ino].disk, j, true) == A.Latest(m, A.DataSlot(ino, j))
    {
      assert Usable(f, ino);
      assert PointerTo(f.log, f.icache[ino].disk, j, true) == A.Latest(m, A.DataSlot(ino, j));
    }
  }

  lemma EmptyHasNoSlots(f: Fs, m: A.Slots, k: nat)
    requires A.Inv(f, m) && k < |f.log.table| && f.log.table[k].state.Full? && f.log.table[k].live == 0
    ensures NoSlotIn(m, k)
  {
    A.FreeEmptyAccounted(f.log, m, k);
    forall s | s in m
      ensures SegOf(m[s]) != k
    {
      assert SegOf(m[s]) == k ==> s in A.SlotsIn(m, k);
    }
  }

  /** Every indirect write of the run finds the pointers that it rewrites. */
  ghost predicate PointersFollowed(fs: seq<Fs>, es: seq<Event>)
    requires |fs| == |es| + 1
  {
    forall i :: 0 <= i < |es| && es[i].FileEvent? ==>
      Sound(fs[i]) && Enabled(fs[i], es[i].step) && A.PointersAgree(fs[i], es[i].step)
  }

  lemma {:induction false} RunKeepsReaches(fs: seq<Fs>, ms: seq<A.Slots>, es: seq<Event>, n: nat)
    requires Run(fs, ms, es) && A.Reaches(fs[0], ms[0]) && PointersFollowed(fs, es) && n <= |es|
    ensures A.Reaches(fs[n], ms[n])
  {
    if n > 0 {
      RunKeepsReaches(fs, ms, es, n - 1);
      RunKeepsTruth(fs, ms, es, n - 1);
      EventKeepsReaches(fs[n - 1], ms[n - 1], es[n - 1]);
    }
  }

  lemma EventKeepsReaches(f: Fs, m: A.Slots, e: Event)
    requires Truth(f) && A.Inv(f, m) && A.Reaches(f, m) && Possible(f, m, e)
    requires e.FileEvent? ==> A.PointersAgree(f, e.step)
    ensures A.Reaches(Occur(f, m, e), NextSlots(f, m, e))
  {
    hide Truth, A.Inv, A.Reaches, CleanSegment, A.Next, Apply;
    match e
    case FileEvent(s) => A.StepKeepsReaches(f, m, s);
    case CleanEvent(k) => CleaningKeepsReads(f, m, k);
  }

  /**
   * Wherever in a run the cleaner works, on either path, it changes no content that the
   * inode map or a direct pointer leads to, nor a block that a reader finds behind a pointer
   * block; in the segment it frees nothing is left that anything points at.
   */
  lemma CleaningIsInvisible(fs: seq<Fs>, ms: seq<A.Slots>, es: seq<Event>, n: nat, k: nat)
    requires Run(fs, ms, es) && n < |es| && k < |fs[n].log.table| && fs[n].log.table[k].state.Full?
    requires es[n] == CleanEvent(k) || (es[n] == FileEvent(FreeEmptyStep(k)) && fs[n].log.table[k].live == 0)
    ensures SameContents(fs[n], fs[n + 1])
    ensures A.Reaches(fs[n], ms[n]) ==> SameReads(fs[n], fs[n + 1])
    ensures k < |fs[n + 1].log.table| && fs[n + 1].log.table[k].state.Free?
    ensures forall a: nat :: a != 0 && SegOf(a) == k ==> !PointedAt(fs[n + 1], a)
    ensures NoSlotIn(ms[n + 1], k)
  {
    hide Truth, A.Inv, SameContents, CleanSegment, A.Reaches, SameReads, SlotsAfter, CleaningAllocates;
    RunKeepsTruth(fs, ms, es, n);
    if es[n].CleanEvent? {
      CleaningPreservesContents(fs[n], k);
      CleanSegmentAccounts(fs[n], ms[n], k);
      if A.Reaches(fs[n], ms[n]) {
        CleaningKeepsReads(fs[n], ms[n], k);
      }
    } else {
      EmptyIsUnpointed(fs[n], ms[n], k);
      EmptyHasNoSlots(fs[n], ms[n], k);
      FreeEmptyKeepsTruth(fs[n], ms[n], k);
      if A.Reaches(fs[n], ms[n]) {
        FreeEmptyKeepsReads(fs[n], ms[n], k);
      }
      UnpointedAfterFree(fs[n], k);
    }
  }

  lemma UnpointedAfterFree(f: Fs, k: nat)
    requires forall a: nat :: a != 0 && SegOf(a) == k ==> !PointedAt(f, a)
    ensures forall a: nat :: a != 0 && SegOf(a) == k ==> !PointedAt(f.(log := FreeEmpty(f.log, k)), a)
  {
    forall a: nat
      ensures PointedAt(f.(log := FreeEmpty(f.log, k)), a) == PointedAt(f, a)
    {
    }
  }
}
