/**
 * Live-block accounting (src/gc.c, src/inode.c): a FULL segment's live count never
 * falls below the number of blocks in it that some inode still refers to, so a
 * segment freed because its count is zero holds nothing that is referred to.
 */
module Accounting {
  import opened Layout
  import opened Log
  import opened FileSystem
  import opened FsRuns
  import BlockMap

  /** The places of an inode that hold a block address. */
  datatype Slot =
    | DataSlot(ino: nat, idx: nat)
    | PointerSlot(ino: nat)
    | DoubleSlot(ino: nat)
    | ImageSlot(ino: nat)

  /** The latest address given to each slot in use. */
  type Slots = map<Slot, nat>

  /** The slots whose block lies in segment `k`. */
  function SlotsIn(m: Slots, k: nat): set<Slot>
  {
    set s | s in m && SegOf(m[s]) == k
  }

  predicate Distinct(m: Slots)
  {
    forall s, t :: s in m && t in m && s != t ==> m[s] != m[t]
  }

  /** Every slot's block is in use, and no FULL segment counts fewer live blocks than slots. */
  ghost predicate Accounted(l: State, m: Slots)
  {
    && Valid(l) && Distinct(m)
    && (forall s :: s in m ==> Occupied(l, m[s]))
    && (forall k :: 0 <= k < |l.table| && l.table[k].state.Full? ==> l.table[k].live >= |SlotsIn(m, k)|)
  }

  // ------------------------------------------------------------ log level

  lemma SubsetSize<T>(a: set<T>, b: set<T>)
    requires a <= b
    ensures |a| <= |b|
  {
    assert b == a + (b - a);
  }

  lemma {:induction false} SlotsFit(m: Slots, ss: set<Slot>, k: nat, n: nat)
    requires Distinct(m) && n >= 1
    requires forall s :: s in ss ==> s in m && m[s] >= LOG_START && SegOf(m[s]) == k && 1 <= OffOf(m[s]) < n
    ensures |ss| <= n - 1
    decreases n
  {
    if n == 1 {
      assert ss == {};
    } else if s :| s in ss && OffOf(m[s]) == n - 1 {
      forall t | t in ss - {s}
        ensures OffOf(m[t]) != n - 1
      {
        Address(m[s]);
        Address(m[t]);
        assert m[s] != m[t];
      }
      SlotsFit(m, ss - {s}, k, n - 1);
    } else {
      SlotsFit(m, ss, k, n - 1);
    }
  }

  /** Forgetting slots keeps the accounting. */
  lemma Forget(l: State, m: Slots, gone: set<Slot>)
    requires Accounted(l, m)
    ensures Accounted(l, m - gone)
  {
    forall k | 0 <= k < |l.table| && l.table[k].state.Full?
      ensures l.table[k].live >= |SlotsIn(m - gone, k)|
    {
      SubsetSize(SlotsIn(m - gone, k), SlotsIn(m, k));
    }
  }

  lemma RetireCounts(l: State, m: Slots, s: Slot, k: nat)
    requires s in m && SegOf(m[s]) < |l.table| < UINT32 && k < |l.table| && l.table[k].live >= |SlotsIn(m, k)|
    ensures MarkDead(l, m[s]).table[k].live >= |SlotsIn(m - {s}, k)|
  {
    if k == SegOf(m[s]) {
      assert SlotsIn(m - {s}, k) == SlotsIn(m, k) - {s};
      assert s in SlotsIn(m, k);
    } else {
      assert SlotsIn(m - {s}, k) == SlotsIn(m, k);
    }
  }

  /** Marking the block of a slot dead is matched by retiring the slot. */
  lemma Retire(l: State, m: Slots, s: Slot)
    requires Accounted(l, m) && s in m
    ensures Accounted(MarkDead(l, m[s]), m - {s})
  {
    var l' := MarkDead(l, m[s]);
    MarkDeadKeeps(l, m[s]);
    forall t | t in m - {s}
      ensures Occupied(l', (m - {s})[t])
    {
      assert Occupied(l, m[t]);
    }
    forall k | 0 <= k < |l'.table| && l'.table[k].state.Full?
      ensures l'.table[k].live >= |SlotsIn(m - {s}, k)|
    {
      RetireCounts(l, m, s, k);
    }
  }

  /** A flush changes the live count of the segment it writes, which is then that of all its blocks. */
  lemma FlushedCounts(l: State, now: nat, k: nat)
    requires Valid(l) && CanFlush(l) && |l.buf| > 1
    ensures var l' := Flush(l, now).0;
            k < |l'.table| && l'.table[k].state.Full? ==>
              k < |l.table| && if k == l.seg then l'.table[k].live == |l.buf| - 1 else l.table[k] == l'.table[k]
  {
    CountFreeUpdate(l.table, l.seg, Usage(Full, |l.buf| - 1, now));
    AllocFacts(WriteOut(l, now), now);
  }

  lemma SlotsInBuffer(l: State, m: Slots)
    requires Accounted(l, m)
    ensures |SlotsIn(m, l.seg)| <= |l.buf| - 1
  {
    SlotsFit(m, SlotsIn(m, l.seg), l.seg, |l.buf|);
  }

  lemma FlushAccounted(l: State, m: Slots, now: nat)
    requires Accounted(l, m) && CanFlush(l)
    ensures Accounted(Flush(l, now).0, m)
  {
    FlushFacts(l, now);
    if |l.buf| > 1 {
      hide Flush, SlotsIn;
      var l' := Flush(l, now).0;
      SlotsInBuffer(l, m);
      forall k | 0 <= k < |l'.table| && l'.table[k].state.Full?
        ensures l'.table[k].live >= |SlotsIn(m, k)|
      {
        FlushedCounts(l, now, k);
      }
    }
  }

  /** Syncing changes nothing that is accounted. */
  lemma FlushFsAccounted(f: Fs, m: Slots)
    requires Accounted(f.log, m) && CanFlush(f.log)
    ensures Accounted(FlushFs(f).0.log, m)
  {
    FlushFsFacts(f);
    FlushAccounted(f.log, m, f.now);
  }

  /** Appending keeps the slots that were accounted. */
  lemma AppendKeeps(f: Fs, m: Slots, data: Block, i: BlockInfo)
    requires Accounted(f.log, m) && CanAppend(f.log)
    ensures var (f', a) := AppendFs(f, data, i);
            && a > 0 && Accounted(f'.log, m) && f'.inodeMap == f.inodeMap && f'.icache == f.icache
            && Buffered(f'.log, a) && Occupied(f'.log, a) && !Occupied(f.log, a)
  {
    AppendFsFacts(f, data, i);
    if |f.log.buf| == SEGMENT_BLOCKS {
      FlushFsAccounted(f, m);
    }
  }

  /** A block appended for an unused slot is accounted to that slot. */
  lemma AppendAccounted(f: Fs, m: Slots, data: Block, i: BlockInfo, s: Slot)
    requires Accounted(f.log, m) && CanAppend(f.log) && s !in m
    ensures var (f', a) := AppendFs(f, data, i);
            a > 0 && Accounted(f'.log, m[s := a]) && f'.inodeMap == f.inodeMap && f'.icache == f.icache
  {
    var (f', a) := AppendFs(f, data, i);
    AppendKeeps(f, m, data, i);
    var m' := m[s := a];
    forall k | 0 <= k < |f'.log.table| && f'.log.table[k].state.Full?
      ensures f'.log.table[k].live >= |SlotsIn(m', k)|
    {
      assert SlotsIn(m', k) == SlotsIn(m, k);
    }
  }

  /** A segment freed because nothing in it is live holds no slot's block. */
  lemma FreeEmptyAccounted(l: State, m: Slots, k: nat)
    requires Accounted(l, m)
    ensures Accounted(FreeEmpty(l, k), m)
    ensures k < |l.table| && l.table[k].state.Full? && l.table[k].live == 0 ==> SlotsIn(m, k) == {}
  {
    if k < |l.table| && l.table[k].state.Full? && l.table[k].live == 0 {
      CountFreeUpdate(l.table, k, l.table[k].(state := Free));
      assert SlotsIn(m, k) == {};
      forall s | s in m
        ensures SegOf(m[s]) != k
      {
        assert s !in SlotsIn(m, k);
      }
    }
  }

  // ------------------------------------------------------------ operations

  /** Where the inode keeps the address of a slot, for the slots it holds itself. */
  function Held(d: DiskInode, s: Slot): nat
    requires WellFormed(d)
  {
    match s
    case DataSlot(_, idx) => if idx < DIRECT_BLOCKS then d.direct[idx] else 0
    case PointerSlot(_) => d.indirect
    case DoubleSlot(_) => d.doubleIndirect
    case ImageSlot(_) => 0
  }

  /** The slot is one whose address the inode holds, rather than a pointer block or the inode map. */
  predicate Direct(s: Slot)
  {
    !s.ImageSlot? && (s.DataSlot? ==> s.idx < DIRECT_BLOCKS)
  }

  /** An inode and the slots agree: 0 for an unused slot, else its latest address. */
  ghost predicate Coherent(d: DiskInode, ino: nat, m: Slots)
  {
    && WellFormed(d)
    && (d.deleted ==> forall s :: s in m ==> s.ino != ino)
    && (forall s: Slot :: s.ino == ino && Direct(s) ==> Held(d, s) == if s in m then m[s] else 0)
  }

  /** The image slots are the inode map. */
  ghost predicate Mapped(f: Fs, m: Slots)
  {
    && (forall ino :: ino in f.inodeMap ==> ImageSlot(ino) in m && m[ImageSlot(ino)] == f.inodeMap[ino])
    && (forall s :: s in m && s.ImageSlot? ==> s.ino in f.inodeMap)
  }

  /** The invariant of every run: accounted slots that agree with the cached inodes and the inode map. */
  ghost predicate Inv(f: Fs, m: Slots)
  {
    && Accounted(f.log, m) && Mapped(f, m)
    && (forall s :: s in m ==> s.ino in f.icache && m[s] != 0)
    && (forall ino :: ino in f.icache ==> Coherent(f.icache[ino].disk, ino, m))
  }

  /** The cached location of an inode is the one in the inode map. */
  predicate Fresh(f: Fs, ino: nat)
  {
    ino in f.icache && f.icache[ino].location == if ino in f.inodeMap then f.inodeMap[ino] else 0
  }

  /** An operation that marks the location of an inode dead finds it up to date. */
  predicate KnowsLocation(f: Fs, s: Step)
  {
    s.WriteInodeStep? || s.FreeInodeStep? ==> Fresh(f, s.ino)
  }

  /** The slots after a step: the addresses the step handed out, without the slots it gave up. */
  function Next(f: Fs, m: Slots, s: Step): Slots
    requires Sound(f) && Enabled(f, s)
  {
    match s
    case WriteBlockStep(ino, idx, data) =>
      var (f1, a) := AppendData(f, ino, idx, data);
      if idx >= MAPPED_BLOCKS then m
      else if idx < DIRECT_BLOCKS then m[DataSlot(ino, idx) := a]
      else m[DataSlot(ino, idx) := a][PointerSlot(ino) := AppendPointers(f1, ino, f.icache[ino].disk, idx, a).1]
    case WriteInodeStep(ino) =>
      var n := f.icache[ino];
      if !n.dirty then m
      else m[ImageSlot(ino) := AppendFs(MarkDeadFs(f, n.location), InodeImage(n.disk), BlockInfo(ino, 0, InodeBlock)).1]
    case FreeInodeStep(ino) => m - (set t | t in m && t.ino == ino)
    case _ => m
  }

  /** Retires the slot behind an address held by an inode, if there is one. */
  lemma RetireHeld(f: Fs, m: Slots, s: Slot, a: nat)
    requires Accounted(f.log, m) && a == (if s in m then m[s] else 0) && (s in m ==> a != 0)
    ensures Accounted(MarkDeadFs(f, a).log, m - {s})
    ensures MarkDeadFs(f, a) == f.(log := MarkDeadFs(f, a).log)
    ensures CanAppend(f.log) ==> CanAppend(MarkDeadFs(f, a).log)
  {
    if s in m {
      Retire(f.log, m, s);
      MarkDeadFacts(f, a);
    } else {
      assert m - {s} == m;
    }
  }

  lemma AppendImageKeeps(f: Fs, m: Slots, ino: nat)
    requires Inv(f, m) && Usable(f, ino) && Fresh(f, ino) && CanAppend(f.log)
    ensures var n := f.icache[ino];
            var (f1, a) := AppendFs(MarkDeadFs(f, n.location), InodeImage(n.disk), BlockInfo(ino, 0, InodeBlock));
            && a > 0 && Accounted(f1.log, m[ImageSlot(ino) := a])
            && f1.inodeMap == f.inodeMap && f1.icache == f.icache
  {
    var n := f.icache[ino];
    var s := ImageSlot(ino);
    RetireHeld(f, m, s, n.location);
    AppendAccounted(MarkDeadFs(f, n.location), m - {s}, InodeImage(n.disk), BlockInfo(ino, 0, InodeBlock), s);
    var a := AppendFs(MarkDeadFs(f, n.location), InodeImage(n.disk), BlockInfo(ino, 0, InodeBlock)).1;
    assert (m - {s})[s := a] == m[s := a];
  }

  lemma CoherentImage(d: DiskInode, ino: nat, m: Slots, a: nat)
    requires Coherent(d, ino, m) && !d.deleted
    ensures Coherent(d, ino, m[ImageSlot(ino) := a])
  {
    var m' := m[ImageSlot(ino) := a];
    forall s: Slot | s.ino == ino && Direct(s)
      ensures Held(d, s) == if s in m' then m'[s] else 0
    {
      assert Held(d, s) == if s in m then m[s] else 0;
    }
  }

  lemma CoherentData(d: DiskInode, d': DiskInode, ino: nat, m: Slots, idx: nat, a: nat)
    requires Coherent(d, ino, m) && !d.deleted && idx < DIRECT_BLOCKS
    requires d' == d.(direct := d.direct[idx := a], blocks := d'.blocks)
    ensures Coherent(d', ino, m[DataSlot(ino, idx) := a])
  {
    var m' := m[DataSlot(ino, idx) := a];
    forall s: Slot | s.ino == ino && Direct(s)
      ensures Held(d', s) == if s in m' then m'[s] else 0
    {
      assert Held(d, s) == if s in m then m[s] else 0;
    }
  }

  lemma CoherentPointer(d: DiskInode, d': DiskInode, ino: nat, m: Slots, idx: nat, a: nat, p: nat)
    requires Coherent(d, ino, m) && !d.deleted && idx >= DIRECT_BLOCKS
    requires d' == d.(indirect := p, blocks := d'.blocks)
    ensures Coherent(d', ino, m[DataSlot(ino, idx) := a][PointerSlot(ino) := p])
  {
    var m' := m[DataSlot(ino, idx) := a][PointerSlot(ino) := p];
    forall s: Slot | s.ino == ino && Direct(s)
      ensures Held(d', s) == if s in m' then m'[s] else 0
    {
      assert Held(d, s) == if s in m then m[s] else 0;
    }
  }

  lemma CoherentFreed(ino: nat, m: Slots, d: DiskInode)
    requires d == DiskInode(d.ino, d.blocks, Zeros(DIRECT_BLOCKS), 0, 0, true)
    ensures Coherent(d, ino, m - (set t | t in m && t.ino == ino))
  {
  }

  lemma WriteInodeKeeps(f: Fs, m: Slots, ino: nat)
    requires Inv(f, m) && Enabled(f, WriteInodeStep(ino)) && Fresh(f, ino)
    ensures Inv(WriteInode(f, ino).0, Next(f, m, WriteInodeStep(ino)))
  {
    hide AppendFs, MarkDeadFs, Coherent;
    if f.icache[ino].dirty {
      AppendImageKeeps(f, m, ino);
      var m' := Next(f, m, WriteInodeStep(ino));
      CoherentImage(f.icache[ino].disk, ino, m, m'[ImageSlot(ino)]);
      CoherentAfter(f, m, WriteInode(f, ino).0, m', ino);
    }
  }

  /** An operation on one inode leaves the others coherent. */
  lemma CoherentAfter(f: Fs, m: Slots, f': Fs, m': Slots, ino: nat)
    requires Inv(f, m) && Accounted(f'.log, m')
    requires f'.icache.Keys == f.icache.Keys + {ino}
    requires forall i :: i in f.icache && i != ino ==> f'.icache[i] == f.icache[i]
    requires forall s: Slot :: s.ino != ino ==> (s in m' <==> s in m) && (s in m ==> m'[s] == m[s])
    requires forall s :: s in m' ==> m'[s] != 0
    requires Coherent(f'.icache[ino].disk, ino, m') && Mapped(f', m')
    ensures Inv(f', m')
  {
    forall i | i in f'.icache && i != ino
      ensures Coherent(f'.icache[i].disk, i, m')
    {
      assert Coherent(f.icache[i].disk, i, m);
    }
  }

  /** The data part of a block write, at an index that has a slot. */
  lemma AppendDataKeeps(f: Fs, m: Slots, ino: nat, idx: nat, data: Block)
    requires Inv(f, m) && Usable(f, ino) && CanAppend(f.log) && idx < MAPPED_BLOCKS
    ensures var (f1, a) := AppendData(f, ino, idx, data);
            && a > 0 && Accounted(f1.log, m[DataSlot(ino, idx) := a])
            && f1.inodeMap == f.inodeMap && f1.icache == f.icache
  {
    var n := f.icache[ino];
    var s := DataSlot(ino, idx);
    if idx < DIRECT_BLOCKS {
      assert Held(n.disk, s) == n.disk.direct[idx];
      RetireHeld(f, m, s, n.disk.direct[idx]);
    } else {
      Forget(f.log, m, {s});
    }
    var f0 := MarkDeadFs(f, if idx < DIRECT_BLOCKS then n.disk.direct[idx] else 0);
    AppendAccounted(f0, m - {s}, data, BlockInfo(ino, idx % UINT32, DataBlock), s);
    var a := AppendData(f, ino, idx, data).1;
    assert (m - {s})[s := a] == m[s := a];
  }

  lemma AppendPointersKeeps(f: Fs, m: Slots, ino: nat, d: DiskInode, idx: nat, a: nat)
    requires Accounted(f.log, m) && CanAppend(f.log) && DIRECT_BLOCKS <= idx < MAPPED_BLOCKS
    requires d.indirect == (if PointerSlot(ino) in m then m[PointerSlot(ino)] else 0)
    requires PointerSlot(ino) in m ==> d.indirect != 0
    ensures var (f', p) := AppendPointers(f, ino, d, idx, a);
            && p > 0 && Accounted(f'.log, m[PointerSlot(ino) := p])
            && f'.inodeMap == f.inodeMap && f'.icache == f.icache
  {
    var s := PointerSlot(ino);
    RetireHeld(f, m, s, d.indirect);
    var words := if d.indirect == 0 then Zeros(WORDS_PER_BLOCK) else Words(DiskAt(f.log.disk, d.indirect));
    AppendAccounted(MarkDeadFs(f, d.indirect), m - {s}, Payload(words[idx - DIRECT_BLOCKS := a]),
                    BlockInfo(ino, 0, IndirectBlock), s);
    var p := AppendPointers(f, ino, d, idx, a).1;
    assert (m - {s})[s := p] == m[s := p];
  }

  lemma WriteBlockKeeps(f: Fs, m: Slots, ino: nat, idx: nat, data: Block)
    requires Inv(f, m) && Enabled(f, WriteBlockStep(ino, idx, data))
    ensures Inv(WriteBlock(f, ino, idx, data).0, Next(f, m, WriteBlockStep(ino, idx, data)))
  {
    if idx >= MAPPED_BLOCKS {
      AppendKeeps(f, m, data, BlockInfo(ino, idx % UINT32, DataBlock));
    } else if idx < DIRECT_BLOCKS {
      WriteDirectKeeps(f, m, ino, idx, data);
    } else {
      WriteIndirectKeeps(f, m, ino, idx, data);
    }
  }

  /** The pointer slot is what the inode holds. */
  lemma PointerHeld(f: Fs, m: Slots, ino: nat)
    requires Inv(f, m) && ino in f.icache
    ensures f.icache[ino].disk.indirect == if PointerSlot(ino) in m then m[PointerSlot(ino)] else 0
    ensures PointerSlot(ino) in m ==> m[PointerSlot(ino)] != 0 && Occupied(f.log, m[PointerSlot(ino)])
  {
    assert Coherent(f.icache[ino].disk, ino, m);
    assert Held(f.icache[ino].disk, PointerSlot(ino)) == f.icache[ino].disk.indirect;
  }

  lemma MappedSame(f: Fs, f': Fs, m: Slots, m': Slots)
    requires Mapped(f, m) && f'.inodeMap == f.inodeMap
    requires forall s: Slot :: s.ImageSlot? ==> (s in m' <==> s in m) && (s in m ==> m'[s] == m[s])
    ensures Mapped(f', m')
  {
  }

  lemma WriteDirectKeeps(f: Fs, m: Slots, ino: nat, idx: nat, data: Block)
    requires Inv(f, m) && Enabled(f, WriteBlockStep(ino, idx, data)) && idx < DIRECT_BLOCKS
    ensures Inv(WriteBlock(f, ino, idx, data).0, Next(f, m, WriteBlockStep(ino, idx, data)))
  {
    hide AppendFs, MarkDeadFs;
    AppendDataKeeps(f, m, ino, idx, data);
    var a := AppendData(f, ino, idx, data).1;
    var f' := WriteBlock(f, ino, idx, data).0;
    CoherentData(f.icache[ino].disk, f'.icache[ino].disk, ino, m, idx, a);
    CoherentAfter(f, m, f', m[DataSlot(ino, idx) := a], ino);
  }

  lemma WriteIndirectAccounts(f: Fs, m: Slots, ino: nat, idx: nat, data: Block) returns (a: nat, p: nat)
    requires Inv(f, m) && Enabled(f, WriteBlockStep(ino, idx, data)) && DIRECT_BLOCKS <= idx < MAPPED_BLOCKS
    ensures a != 0 && p != 0
    ensures var f' := WriteBlock(f, ino, idx, data).0;
            var m' := m[DataSlot(ino, idx) := a][PointerSlot(ino) := p];
            && m' == Next(f, m, WriteBlockStep(ino, idx, data)) && Accounted(f'.log, m')
            && f'.inodeMap == f.inodeMap && ino in f'.icache && f'.icache == f.icache[ino := f'.icache[ino]]
            && f'.icache[ino].disk == f.icache[ino].disk.(indirect := p, blocks := f'.icache[ino].disk.blocks)
  {
    assert Sound(f);
    hide AppendFs, MarkDeadFs, AppendData, AppendPointers, Coherent, Accounted, Mapped, Held;
    var n := f.icache[ino];
    AppendDataKeeps(f, m, ino, idx, data);
    var f1 := AppendData(f, ino, idx, data).0;
    a := AppendData(f, ino, idx, data).1;
    PointerHeld(f, m, ino);
    AppendPointersKeeps(f1, m[DataSlot(ino, idx) := a], ino, n.disk, idx, a);
    p := AppendPointers(f1, ino, n.disk, idx, a).1;
  }

  /** A new data and a new pointer slot that the inode agrees with. */
  lemma PointerAdded(f: Fs, m: Slots, f': Fs, ino: nat, idx: nat, a: nat, p: nat)
    requires Inv(f, m) && ino in f.icache && !f.icache[ino].disk.deleted
    requires idx >= DIRECT_BLOCKS && a != 0 && p != 0
    requires Accounted(f'.log, m[DataSlot(ino, idx) := a][PointerSlot(ino) := p]) && f'.inodeMap == f.inodeMap
    requires ino in f'.icache && f'.icache == f.icache[ino := f'.icache[ino]]
    requires f'.icache[ino].disk == f.icache[ino].disk.(indirect := p, blocks := f'.icache[ino].disk.blocks)
    ensures Inv(f', m[DataSlot(ino, idx) := a][PointerSlot(ino) := p])
  {
    hide Coherent, Accounted, Mapped;
    var m' := m[DataSlot(ino, idx) := a][PointerSlot(ino) := p];
    CoherentPointer(f.icache[ino].disk, f'.icache[ino].disk, ino, m, idx, a, p);
    MappedSame(f, f', m, m');
    CoherentAfter(f, m, f', m', ino);
  }

  lemma WriteIndirectKeeps(f: Fs, m: Slots, ino: nat, idx: nat, data: Block)
    requires Inv(f, m) && Enabled(f, WriteBlockStep(ino, idx, data)) && DIRECT_BLOCKS <= idx < MAPPED_BLOCKS
    ensures Inv(WriteBlock(f, ino, idx, data).0, Next(f, m, WriteBlockStep(ino, idx, data)))
  {
    assert Sound(f);
    hide WriteBlock, Next, Inv, Accounted;
    var a, p := WriteIndirectAccounts(f, m, ino, idx, data);
    PointerAdded(f, m, WriteBlock(f, ino, idx, data).0, ino, idx, a, p);
  }

  /** The slots of an inode in the order lsfs_inode_free visits them. */
  function OwnSlots(ino: nat): (ss: seq<Slot>)
    ensures |ss| == DIRECT_BLOCKS + 3
    ensures forall i :: 0 <= i < |ss| ==> ss[i].ino == ino && (Direct(ss[i]) || ss[i] == ImageSlot(ino))
    ensures forall i, j :: 0 <= i < j < |ss| ==> ss[i] != ss[j]
  {
    [DataSlot(ino, 0), DataSlot(ino, 1), DataSlot(ino, 2), DataSlot(ino, 3),
     DataSlot(ino, 4), DataSlot(ino, 5), DataSlot(ino, 6), DataSlot(ino, 7),
     DataSlot(ino, 8), DataSlot(ino, 9), DataSlot(ino, 10), DataSlot(ino, 11),
     PointerSlot(ino), DoubleSlot(ino), ImageSlot(ino)]
  }

  /** Marks a list of addresses dead, retiring their slots one by one. */
  lemma {:induction false} RetireAll(f: Fs, m: Slots, ss: seq<Slot>, addrs: seq<nat>)
    requires Accounted(f.log, m) && |ss| == |addrs|
    requires forall i, j :: 0 <= i < j < |ss| ==> ss[i] != ss[j]
    requires forall i :: 0 <= i < |ss| ==> addrs[i] == if ss[i] in m then m[ss[i]] else 0
    requires forall s :: s in m ==> m[s] != 0
    ensures var f' := MarkAllDead(f, addrs);
            && f' == f.(log := f'.log) && Accounted(f'.log, m - (set s | s in ss))
    decreases |ss|
  {
    if ss == [] {
      assert m - (set s | s in ss) == m;
    } else {
      RetireHeld(f, m, ss[0], addrs[0]);
      RetireAll(MarkDeadFs(f, addrs[0]), m - {ss[0]}, ss[1..], addrs[1..]);
      assert m - {ss[0]} - (set s | s in ss[1..]) == m - (set s | s in ss);
    }
  }

  /** The addresses lsfs_inode_free marks dead are those of the inode's own slots. */
  lemma OwnAddresses(f: Fs, m: Slots, ino: nat)
    requires Inv(f, m) && Usable(f, ino) && Fresh(f, ino)
    ensures var n := f.icache[ino];
            var addrs := n.disk.direct + [n.disk.indirect, n.disk.doubleIndirect, n.location];
            forall i :: 0 <= i < DIRECT_BLOCKS + 3 ==>
              addrs[i] == if OwnSlots(ino)[i] in m then m[OwnSlots(ino)[i]] else 0
  {
    hide Accounted, OwnSlots, Coherent;
    var n := f.icache[ino];
    forall i | 0 <= i < DIRECT_BLOCKS + 2
      ensures (n.disk.direct + [n.disk.indirect, n.disk.doubleIndirect, n.location])[i] ==
                if OwnSlots(ino)[i] in m then m[OwnSlots(ino)[i]] else 0
    {
      OwnAddress(n, ino, m, i);
    }
    LastOwnSlot(ino);
  }

  lemma LastOwnSlot(ino: nat)
    ensures OwnSlots(ino)[DIRECT_BLOCKS + 2] == ImageSlot(ino)
  {
  }

  lemma OwnAddress(n: Inode, ino: nat, m: Slots, i: nat)
    requires Coherent(n.disk, ino, m) && i < DIRECT_BLOCKS + 2
    ensures (n.disk.direct + [n.disk.indirect, n.disk.doubleIndirect, n.location])[i] ==
              if OwnSlots(ino)[i] in m then m[OwnSlots(ino)[i]] else 0
  {
    assert Held(n.disk, OwnSlots(ino)[i]) == (n.disk.direct + [n.disk.indirect, n.disk.doubleIndirect, n.location])[i];
  }

  /** Retiring the inode's own slots leaves those behind its pointer block, which are forgotten. */
  lemma RetireInode(f: Fs, m: Slots, ino: nat)
    requires Inv(f, m) && Usable(f, ino) && Fresh(f, ino)
    ensures var n := f.icache[ino];
            var f1 := MarkAllDead(f, n.disk.direct + [n.disk.indirect, n.disk.doubleIndirect, n.location]);
            && f1 == f.(log := f1.log)
            && Accounted(f1.log, m - (set t | t in m && t.ino == ino))
  {
    var n := f.icache[ino];
    var ss := OwnSlots(ino);
    var addrs := n.disk.direct + [n.disk.indirect, n.disk.doubleIndirect, n.location];
    OwnAddresses(f, m, ino);
    RetireAll(f, m, ss, addrs);
    var own := set s | s in ss;
    var gone := set t | t in m && t.ino == ino;
    Forget(MarkAllDead(f, addrs).log, m - own, gone);
    assert m - own - gone == m - gone;
  }

  lemma FreeInodeKeeps(f: Fs, m: Slots, ino: nat)
    requires Inv(f, m) && Usable(f, ino) && Fresh(f, ino)
    ensures Inv(FreeInode(f, ino), Next(f, m, FreeInodeStep(ino)))
  {
    hide MarkAllDead, Coherent;
    RetireInode(f, m, ino);
    CoherentFreed(ino, m, FreeInode(f, ino).icache[ino].disk);
    CoherentAfter(f, m, FreeInode(f, ino), m - (set t | t in m && t.ino == ino), ino);
  }

  lemma StepKeepsInv(f: Fs, m: Slots, s: Step)
    requires Inv(f, m) && Enabled(f, s) && KnowsLocation(f, s)
    ensures Inv(Apply(f, s), Next(f, m, s))
  {
    match s
    case WriteBlockStep(ino, idx, data) => WriteBlockKeeps(f, m, ino, idx, data);
    case WriteInodeStep(ino) => WriteInodeKeeps(f, m, ino);
    case FreeInodeStep(ino) => FreeInodeKeeps(f, m, ino);
    case NewInodeStep(ino) => NewInodeKeeps(f, m, ino);
    case FlushStep => FlushStepKeeps(f, m);
    case CheckpointStep => CheckpointStepKeeps(f, m);
    case SyncStep => SyncAccounted(f.log, m);
    case TickStep(now) =>
    case FreeEmptyStep(k) => FreeEmptyAccounted(f.log, m, k);
  }

  lemma NewInodeKeeps(f: Fs, m: Slots, ino: nat)
    requires Inv(f, m) && Enabled(f, NewInodeStep(ino))
    ensures Inv(NewInode(f, ino), m)
  {
    CoherentAfter(f, m, NewInode(f, ino), m, ino);
  }

  lemma SyncAccounted(l: State, m: Slots)
    requires Accounted(l, m)
    ensures Accounted(Sync(l), m)
  {
    SyncKeeps(l);
  }

  lemma FlushStepKeeps(f: Fs, m: Slots)
    requires Inv(f, m) && CanFlush(f.log)
    ensures Inv(FlushFs(f).0, m)
  {
    FlushFsFacts(f);
    FlushFsAccounted(f, m);
  }

  lemma CheckpointStepKeeps(f: Fs, m: Slots)
    requires Inv(f, m) && CanFlush(f.log)
    ensures Inv(CheckpointFs(f).0, m)
  {
    FlushStepKeeps(f, m);
    var f1 := if |f.log.buf| > 1 then FlushFs(f).0 else f;
    SyncAccounted(f1.log, m);
  }

  // --------------------------------------------------- what a reader can reach

  function Latest(m: Slots, s: Slot): nat
  {
    if s in m then m[s] else 0
  }

  /** Following the pointers of any inode in use leads to the latest address of each block. */
  ghost predicate Reaches(f: Fs, m: Slots)
  {
    forall ino, idx :: Usable(f, ino) && 0 <= idx < MAPPED_BLOCKS ==>
      PointerTo(f.log, f.icache[ino].disk, idx, true) == Latest(m, DataSlot(ino, idx))
  }

  /**
   * A block write reads the pointer block from disk. It finds the other pointers there: the
   * pointer block is not in the buffer, or the buffer is full and goes to disk first, or the
   * disk happens to hold the same pointers.
   */
  predicate PointersAgree(f: Fs, s: Step)
    requires Sound(f) && Enabled(f, s)
  {
    s.WriteBlockStep? && DIRECT_BLOCKS <= s.idx < MAPPED_BLOCKS ==>
      var p := f.icache[s.ino].disk.indirect;
      || p == 0 || !Buffered(f.log, p) || |f.log.buf| == SEGMENT_BLOCKS
      || forall j :: 0 <= j < WORDS_PER_BLOCK && j != s.idx - DIRECT_BLOCKS ==>
           Words(DiskAt(f.log.disk, p))[j] == Words(Overlay(f.log, p))[j]
  }

  lemma OverlayKept(f: Fs, s: Step, a: nat)
    requires Valid(f.log) && Enabled(f, s) && Occupied(f.log, a)
    ensures Overlay(Apply(f, s).log, a) == Overlay(f.log, a)
  {
    if !s.FreeEmptyStep? {
      StepKeepsLog(f, s);
    }
  }

  /** The pointer block written by an indirect write. */
  lemma NewPointers(f: Fs, ino: nat, idx: nat, data: Block)
    requires Valid(f.log) && Enabled(f, WriteBlockStep(ino, idx, data)) && DIRECT_BLOCKS <= idx < MAPPED_BLOCKS
    requires PointersAgree(f, WriteBlockStep(ino, idx, data))
    requires var p := f.icache[ino].disk.indirect; p == 0 || Occupied(f.log, p)
    ensures var d := f.icache[ino].disk;
            var f' := WriteBlock(f, ino, idx, data).0;
            && ino in f'.icache
            && f'.icache[ino].disk == d.(indirect := f'.icache[ino].disk.indirect, blocks := f'.icache[ino].disk.blocks)
            && f'.icache[ino].disk.indirect != 0
            && var words := if d.indirect == 0 then Zeros(WORDS_PER_BLOCK) else Words(Overlay(f.log, d.indirect));
               Words(Overlay(f'.log, f'.icache[ino].disk.indirect)) ==
                 words[idx - DIRECT_BLOCKS := AppendData(f, ino, idx, data).1]
  {
    var d := f.icache[ino].disk;
    ReplaceKeeps(f, 0, data, BlockInfo(ino, idx % UINT32, DataBlock));
    var (f1, a) := AppendData(f, ino, idx, data);
    if d.indirect != 0 {
      BlockMap.PointersFound(f, ino, idx, data);
      SameWords(Words(DiskAt(f1.log.disk, d.indirect)), Words(Overlay(f.log, d.indirect)), idx - DIRECT_BLOCKS, a);
    }
    BlockMap.AppendPointersFacts(f1, ino, d, idx, a);
  }

  lemma SameWords(v: seq<nat>, w: seq<nat>, i: nat, a: nat)
    requires |v| == |w| && i < |v| && forall j :: 0 <= j < |v| && j != i ==> v[j] == w[j]
    ensures v[i := a] == w[i := a]
  {
  }

  /** An inode that a step does not write keeps its pointers and their blocks. */
  lemma OtherInode(f: Fs, m: Slots, s: Step, ino: nat)
    requires Inv(f, m) && Enabled(f, s) && Usable(f, ino)
    requires ino in Apply(f, s).icache && Apply(f, s).icache[ino].disk == f.icache[ino].disk
    ensures forall idx :: DIRECT_BLOCKS <= idx < MAPPED_BLOCKS ==>
              PointerTo(Apply(f, s).log, f.icache[ino].disk, idx, true) ==
              PointerTo(f.log, f.icache[ino].disk, idx, true)
  {
    var p := f.icache[ino].disk.indirect;
    assert Held(f.icache[ino].disk, PointerSlot(ino)) == p;
    if p != 0 {
      OverlayKept(f, s, p);
    }
  }

  /** What a step does to the cached inodes other than the one it is about. */
  lemma StepFrame(f: Fs, s: Step, ino: nat)
    requires Valid(f.log) && Enabled(f, s) && ino in f.icache
    requires (s.WriteBlockStep? || s.FreeInodeStep? || s.NewInodeStep?) ==> s.ino != ino
    ensures ino in Apply(f, s).icache && Apply(f, s).icache[ino].disk == f.icache[ino].disk
    ensures Apply(f, s).icache.Keys == f.icache.Keys + (if s.NewInodeStep? then {s.ino} else {})
  {
    hide AppendFs, MarkDeadFs, Valid;
    match s
    case WriteBlockStep(i, idx, data) => WriteBlockFrame(f, i, idx, data);
    case WriteInodeStep(i) =>
      ReplaceKeeps(f, f.icache[i].location, InodeImage(f.icache[i].disk), BlockInfo(i, 0, InodeBlock));
    case FreeInodeStep(i) =>
      var n := f.icache[i];
      MarkAllDeadKeeps(f, n.disk.direct + [n.disk.indirect, n.disk.doubleIndirect, n.location]);
    case FlushStep => FlushFsFacts(f);
    case CheckpointStep => FlushFsFacts(f);
    case _ =>
  }

  lemma WriteBlockFrame(f: Fs, ino: nat, idx: nat, data: Block)
    requires Valid(f.log) && Enabled(f, WriteBlockStep(ino, idx, data))
    ensures var f' := WriteBlock(f, ino, idx, data).0;
            && f'.icache.Keys == f.icache.Keys
            && (forall i :: i in f.icache && i != ino ==> f'.icache[i] == f.icache[i])
  {
    var d := f.icache[ino].disk;
    ReplaceKeeps(f, if idx < DIRECT_BLOCKS then d.direct[idx] else 0, data, BlockInfo(ino, idx % UINT32, DataBlock));
    var (f1, a) := AppendData(f, ino, idx, data);
    if DIRECT_BLOCKS <= idx < MAPPED_BLOCKS {
      var words := if d.indirect == 0 then Zeros(WORDS_PER_BLOCK) else Words(DiskAt(f1.log.disk, d.indirect));
      ReplaceKeeps(f1, d.indirect, Payload(words[idx - DIRECT_BLOCKS := a]), BlockInfo(ino, 0, IndirectBlock));
    }
  }

  /** A write at a direct index, or at one with no slot, leaves the pointer block alone. */
  lemma PointerBlockKept(f: Fs, ino: nat, idx: nat, data: Block)
    requires Valid(f.log) && Enabled(f, WriteBlockStep(ino, idx, data)) && !(DIRECT_BLOCKS <= idx < MAPPED_BLOCKS)
    ensures var f' := WriteBlock(f, ino, idx, data).0;
            Usable(f', ino) && f'.icache[ino].disk.indirect == f.icache[ino].disk.indirect
  {
    var d := f.icache[ino].disk;
    ReplaceKeeps(f, if idx < DIRECT_BLOCKS then d.direct[idx] else 0, data, BlockInfo(ino, idx % UINT32, DataBlock));
  }

  /** The word for a block after a write at an indirect index: the new address, or the word before. */
  lemma WordAfterWrite(f: Fs, m: Slots, ino: nat, at: nat, data: Block, idx: nat)
    requires Inv(f, m) && Reaches(f, m)
    requires Enabled(f, WriteBlockStep(ino, at, data)) && PointersAgree(f, WriteBlockStep(ino, at, data))
    requires DIRECT_BLOCKS <= idx < MAPPED_BLOCKS && DIRECT_BLOCKS <= at < MAPPED_BLOCKS
    ensures var f' := WriteBlock(f, ino, at, data).0;
            && Usable(f', ino)
            && PointerTo(f'.log, f'.icache[ino].disk, idx, true) ==
                 if idx == at then AppendData(f, ino, at, data).1 else Latest(m, DataSlot(ino, idx))
  {
    var d := f.icache[ino].disk;
    assert PointerTo(f.log, d, idx, true) == Latest(m, DataSlot(ino, idx));
    PointerHeld(f, m, ino);
    NewPointers(f, ino, at, data);
  }

  /** A write at any other index leaves the word. */
  lemma WordKept(f: Fs, m: Slots, ino: nat, at: nat, data: Block, idx: nat)
    requires Inv(f, m) && Reaches(f, m)
    requires Enabled(f, WriteBlockStep(ino, at, data))
    requires DIRECT_BLOCKS <= idx < MAPPED_BLOCKS && !(DIRECT_BLOCKS <= at < MAPPED_BLOCKS)
    ensures var f' := WriteBlock(f, ino, at, data).0;
            Usable(f', ino) && PointerTo(f'.log, f'.icache[ino].disk, idx, true) == Latest(m, DataSlot(ino, idx))
  {
    var d := f.icache[ino].disk;
    assert PointerTo(f.log, d, idx, true) == Latest(m, DataSlot(ino, idx));
    PointerHeld(f, m, ino);
    PointerBlockKept(f, ino, at, data);
    if d.indirect != 0 {
      OverlayKept(f, WriteBlockStep(ino, at, data), d.indirect);
    }
  }

  lemma LatestAfterWrite(f: Fs, m: Slots, ino: nat, at: nat, data: Block, idx: nat)
    requires Sound(f) && Enabled(f, WriteBlockStep(ino, at, data)) && DIRECT_BLOCKS <= idx < MAPPED_BLOCKS
    ensures Latest(Next(f, m, WriteBlockStep(ino, at, data)), DataSlot(ino, idx)) ==
              if idx == at then AppendData(f, ino, at, data).1 else Latest(m, DataSlot(ino, idx))
  {
  }

  lemma ReachesAfterWrite(f: Fs, m: Slots, ino: nat, at: nat, data: Block, idx: nat)
    requires Inv(f, m) && Reaches(f, m)
    requires Enabled(f, WriteBlockStep(ino, at, data)) && PointersAgree(f, WriteBlockStep(ino, at, data))
    requires DIRECT_BLOCKS <= idx < MAPPED_BLOCKS
    ensures var s := WriteBlockStep(ino, at, data);
            var f' := Apply(f, s);
            && Usable(f', ino)
            && PointerTo(f'.log, f'.icache[ino].disk, idx, true) == Latest(Next(f, m, s), DataSlot(ino, idx))
  {
    assert Sound(f);
    hide WriteBlock, AppendData, PointerTo, Latest, Next, Inv, Reaches;
    LatestAfterWrite(f, m, ino, at, data, idx);
    if DIRECT_BLOCKS <= at < MAPPED_BLOCKS {
      WordAfterWrite(f, m, ino, at, data, idx);
    } else {
      WordKept(f, m, ino, at, data, idx);
    }
  }

  /** A step keeps readers on the latest blocks if and only if it finds the pointers it rewrites. */
  lemma StepKeepsReaches(f: Fs, m: Slots, s: Step)
    requires Inv(f, m) && Reaches(f, m) && Enabled(f, s) && KnowsLocation(f, s)
    ensures Reaches(Apply(f, s), Next(f, m, s)) <==> PointersAgree(f, s)
  {
    if PointersAgree(f, s) {
      FoundPointersReach(f, m, s);
    } else {
      hide Apply, Next;
      LostPointer(f, m, s);
    }
  }

  lemma FoundPointersReach(f: Fs, m: Slots, s: Step)
    requires Inv(f, m) && Reaches(f, m) && Enabled(f, s) && PointersAgree(f, s) && KnowsLocation(f, s)
    ensures Reaches(Apply(f, s), Next(f, m, s))
  {
    var f' := Apply(f, s);
    var m' := Next(f, m, s);
    StepKeepsInv(f, m, s);
    forall ino, idx | Usable(f', ino) && 0 <= idx < MAPPED_BLOCKS
      ensures PointerTo(f'.log, f'.icache[ino].disk, idx, true) == Latest(m', DataSlot(ino, idx))
    {
      assert Coherent(f'.icache[ino].disk, ino, m');
      if idx < DIRECT_BLOCKS {
        assert Held(f'.icache[ino].disk, DataSlot(ino, idx)) == Latest(m', DataSlot(ino, idx));
      } else {
        ReachesPast(f, m, s, ino, idx);
      }
    }
  }

  /** A pointer that is not found on disk leads its reader astray. */
  lemma LostPointer(f: Fs, m: Slots, s: Step)
    requires Inv(f, m) && Reaches(f, m) && Enabled(f, s) && !PointersAgree(f, s)
    ensures !Reaches(Apply(f, s), Next(f, m, s))
  {
    var p := f.icache[s.ino].disk.indirect;
    PointerHeld(f, m, s.ino);
    var j :| 0 <= j < WORDS_PER_BLOCK && j != s.idx - DIRECT_BLOCKS
             && Words(DiskAt(f.log.disk, p))[j] != Words(Overlay(f.log, p))[j];
    PointerIsLost(f, m, s.ino, s.idx, s.data, j + DIRECT_BLOCKS);
  }

  lemma PointerIsLost(f: Fs, m: Slots, ino: nat, at: nat, data: Block, idx: nat)
    requires Inv(f, m) && Reaches(f, m) && Enabled(f, WriteBlockStep(ino, at, data))
    requires DIRECT_BLOCKS <= at < MAPPED_BLOCKS && DIRECT_BLOCKS <= idx < MAPPED_BLOCKS && idx != at
    requires var p := f.icache[ino].disk.indirect;
             && p != 0 && Buffered(f.log, p) && Occupied(f.log, p) && |f.log.buf| < SEGMENT_BLOCKS
             && Words(DiskAt(f.log.disk, p))[idx - DIRECT_BLOCKS] != Words(Overlay(f.log, p))[idx - DIRECT_BLOCKS]
    ensures var s := WriteBlockStep(ino, at, data);
            var f' := Apply(f, s);
            && Usable(f', ino)
            && PointerTo(f'.log, f'.icache[ino].disk, idx, true) != Latest(Next(f, m, s), DataSlot(ino, idx))
  {
    assert Sound(f);
    assert PointerTo(f.log, f.icache[ino].disk, idx, true) == Latest(m, DataSlot(ino, idx));
    BlockMap.UnflushedPointersAreLost(f, ino, at, data, idx);
    LatestAfterWrite(f, m, ino, at, data, idx);
    StillUsable(f, ino, at, data);
  }

  lemma StillUsable(f: Fs, ino: nat, idx: nat, data: Block)
    requires Valid(f.log) && Enabled(f, WriteBlockStep(ino, idx, data))
    ensures Usable(WriteBlock(f, ino, idx, data).0, ino)
  {
    hide AppendFs, MarkDeadFs;
    var d := f.icache[ino].disk;
    ReplaceKeeps(f, if idx < DIRECT_BLOCKS then d.direct[idx] else 0, data, BlockInfo(ino, idx % UINT32, DataBlock));
    var (f1, a) := AppendData(f, ino, idx, data);
    if DIRECT_BLOCKS <= idx < MAPPED_BLOCKS {
      var words := if d.indirect == 0 then Zeros(WORDS_PER_BLOCK) else Words(DiskAt(f1.log.disk, d.indirect));
      ReplaceKeeps(f1, d.indirect, Payload(words[idx - DIRECT_BLOCKS := a]), BlockInfo(ino, 0, IndirectBlock));
    }
  }

  lemma ReachesPast(f: Fs, m: Slots, s: Step, ino: nat, idx: nat)
    requires Inv(f, m) && Reaches(f, m) && Enabled(f, s) && PointersAgree(f, s)
    requires Usable(Apply(f, s), ino) && DIRECT_BLOCKS <= idx < MAPPED_BLOCKS
    ensures PointerTo(Apply(f, s).log, Apply(f, s).icache[ino].disk, idx, true) == Latest(Next(f, m, s), DataSlot(ino, idx))
  {
    if s.WriteBlockStep? && s.ino == ino {
      ReachesAfterWrite(f, m, ino, s.idx, s.data, idx);
    } else if s.FreeInodeStep? && s.ino == ino {
    } else if s.NewInodeStep? && s.ino == ino {
      assert DataSlot(ino, idx) in m ==> Coherent(f.icache[ino].disk, ino, m);
    } else {
      AppliedKeys(f, s, ino);
      StepFrame(f, s, ino);
      assert PointerTo(f.log, f.icache[ino].disk, idx, true) == Latest(m, DataSlot(ino, idx));
      OtherInode(f, m, s, ino);
    }
  }

  /** Only allocation adds an inode to the cache. */
  lemma AppliedKeys(f: Fs, s: Step, ino: nat)
    requires Valid(f.log) && Enabled(f, s) && ino in Apply(f, s).icache
    ensures ino in f.icache || (s.NewInodeStep? && s.ino == ino)
  {
    match s
    case WriteBlockStep(i, idx, data) => WriteBlockFrame(f, i, idx, data);
    case WriteInodeStep(i) => StepFrame(f, s, i);
    case FreeInodeStep(i) =>
      var n := f.icache[i];
      MarkAllDeadKeeps(f, n.disk.direct + [n.disk.indirect, n.disk.doubleIndirect, n.location]);
    case FlushStep => FlushFsFacts(f);
    case CheckpointStep => FlushFsFacts(f);
    case _ =>
  }

  // ------------------------------------------------------------------- runs

  /** Without the copying cleaner, every cached location is up to date. */
  ghost predicate AllFresh(f: Fs)
  {
    forall ino :: Usable(f, ino) ==> Fresh(f, ino)
  }

  lemma WriteInodeFresh(f: Fs, ino: nat)
    requires Valid(f.log) && Enabled(f, WriteInodeStep(ino)) && AllFresh(f)
    ensures AllFresh(WriteInode(f, ino).0)
  {
    hide AppendFs, MarkDeadFs;
    var n := f.icache[ino];
    ReplaceKeeps(f, n.location, InodeImage(n.disk), BlockInfo(ino, 0, InodeBlock));
    FreshAfter(f, WriteInode(f, ino).0, ino);
  }

  /** An operation on one inode leaves the locations of the others alone. */
  lemma FreshAfter(f: Fs, f': Fs, ino: nat)
    requires AllFresh(f) && f'.icache.Keys == f.icache.Keys + {ino}
    requires forall i :: i in f.icache && i != ino ==> f'.icache[i] == f.icache[i]
    requires forall i :: i != ino ==> (i in f'.inodeMap <==> i in f.inodeMap) && (i in f.inodeMap ==> f'.inodeMap[i] == f.inodeMap[i])
    requires Usable(f', ino) ==> Fresh(f', ino)
    ensures AllFresh(f')
  {
    forall i | Usable(f', i)
      ensures Fresh(f', i)
    {
      if i != ino {
        assert Usable(f, i);
      }
    }
  }

  lemma WriteBlockFresh(f: Fs, ino: nat, idx: nat, data: Block)
    requires Valid(f.log) && Enabled(f, WriteBlockStep(ino, idx, data)) && AllFresh(f)
    ensures AllFresh(WriteBlock(f, ino, idx, data).0)
  {
    WriteBlockFrame(f, ino, idx, data);
    WriteBlockKeepsLog(f, ino, idx, data);
    WriteBlockLocation(f, ino, idx, data);
    assert Fresh(f, ino);
    FreshAfter(f, WriteBlock(f, ino, idx, data).0, ino);
  }

  lemma WriteBlockLocation(f: Fs, ino: nat, idx: nat, data: Block)
    requires Valid(f.log) && Enabled(f, WriteBlockStep(ino, idx, data))
    ensures var f' := WriteBlock(f, ino, idx, data).0;
            ino in f'.icache && f'.icache[ino].location == f.icache[ino].location
  {
    hide AppendFs, MarkDeadFs;
    var d := f.icache[ino].disk;
    ReplaceKeeps(f, if idx < DIRECT_BLOCKS then d.direct[idx] else 0, data, BlockInfo(ino, idx % UINT32, DataBlock));
    var (f1, a) := AppendData(f, ino, idx, data);
    if DIRECT_BLOCKS <= idx < MAPPED_BLOCKS {
      var words := if d.indirect == 0 then Zeros(WORDS_PER_BLOCK) else Words(DiskAt(f1.log.disk, d.indirect));
      ReplaceKeeps(f1, d.indirect, Payload(words[idx - DIRECT_BLOCKS := a]), BlockInfo(ino, 0, IndirectBlock));
    }
  }

  lemma StepKeepsFresh(f: Fs, s: Step)
    requires Valid(f.log) && Enabled(f, s) && AllFresh(f)
    ensures AllFresh(Apply(f, s)) && KnowsLocation(f, s)
  {
    match s
    case WriteBlockStep(ino, idx, data) => WriteBlockFresh(f, ino, idx, data);
    case WriteInodeStep(ino) => WriteInodeFresh(f, ino);
    case FreeInodeStep(ino) =>
      var n := f.icache[ino];
      MarkAllDeadKeeps(f, n.disk.direct + [n.disk.indirect, n.disk.doubleIndirect, n.location]);
      FreshAfter(f, FreeInode(f, ino), ino);
    case NewInodeStep(ino) => FreshAfter(f, NewInode(f, ino), ino);
    case FlushStep =>
      FlushFsFacts(f);
      FreshSame(f, FlushFs(f).0);
    case CheckpointStep =>
      CheckpointMaps(f);
      FreshSame(f, CheckpointFs(f).0);
    case _ => FreshSame(f, Apply(f, s));
  }

  lemma FreshSame(f: Fs, f': Fs)
    requires AllFresh(f) && f'.icache == f.icache && f'.inodeMap == f.inodeMap
    ensures AllFresh(f')
  {
    forall i | Usable(f', i)
      ensures Fresh(f', i)
    {
      assert Usable(f, i);
    }
  }

  lemma CheckpointMaps(f: Fs)
    requires Valid(f.log) && CanFlush(f.log)
    ensures CheckpointFs(f).0.icache == f.icache && CheckpointFs(f).0.inodeMap == f.inodeMap
  {
    hide FlushFs;
    FlushFsFacts(f);
  }

  /** States and slots of a run from any accounted state. */
  ghost predicate Run(fs: seq<Fs>, ms: seq<Slots>, steps: seq<Step>)
  {
    && |fs| == |ms| == |steps| + 1
    && Inv(fs[0], ms[0]) && AllFresh(fs[0])
    && forall i :: 0 <= i < |steps| ==>
         && Sound(fs[i]) && Enabled(fs[i], steps[i])
         && fs[i + 1] == Apply(fs[i], steps[i]) && ms[i + 1] == Next(fs[i], ms[i], steps[i])
  }

  lemma {:induction false} RunKeepsInv(fs: seq<Fs>, ms: seq<Slots>, steps: seq<Step>, n: nat)
    requires Run(fs, ms, steps) && n <= |steps|
    ensures Inv(fs[n], ms[n]) && AllFresh(fs[n])
  {
    hide Inv, AllFresh, Apply, Next, Enabled;
    if n > 0 {
      RunKeepsInv(fs, ms, steps, n - 1);
      InvIsValid(fs[n - 1], ms[n - 1]);
      StepKeepsFresh(fs[n - 1], steps[n - 1]);
      StepKeepsInv(fs[n - 1], ms[n - 1], steps[n - 1]);
    }
  }

  /** Every indirect write of the run finds the pointers that it rewrites. */
  ghost predicate PointersFollowed(fs: seq<Fs>, steps: seq<Step>)
    requires |fs| == |steps| + 1
  {
    forall i :: 0 <= i < |steps| ==> Sound(fs[i]) && Enabled(fs[i], steps[i]) && PointersAgree(fs[i], steps[i])
  }

  lemma {:induction false} RunKeepsReaches(fs: seq<Fs>, ms: seq<Slots>, steps: seq<Step>, n: nat)
    requires Run(fs, ms, steps) && Reaches(fs[0], ms[0]) && PointersFollowed(fs, steps) && n <= |steps|
    ensures Reaches(fs[n], ms[n])
  {
    hide Inv, Reaches, AllFresh, Apply, Next, Enabled, PointersAgree;
    if n > 0 {
      RunKeepsReaches(fs, ms, steps, n - 1);
      RunKeepsInv(fs, ms, steps, n - 1);
      InvIsValid(fs[n - 1], ms[n - 1]);
      StepKeepsFresh(fs[n - 1], steps[n - 1]);
      StepKeepsReaches(fs[n - 1], ms[n - 1], steps[n - 1]);
    }
  }

  lemma InvIsValid(f: Fs, m: Slots)
    requires Inv(f, m)
    ensures Valid(f.log)
  {
  }

  lemma InvIsAccounted(f: Fs, m: Slots)
    requires Inv(f, m)
    ensures Accounted(f.log, m)
  {
  }

  /**
   * A block that is referred to: by the inode map, or by an inode in use directly, as its
   * pointer block or as its own image.
   */
  ghost predicate Referenced(f: Fs, a: nat)
  {
    a != 0 &&
    (|| (exists ino :: ino in f.inodeMap && f.inodeMap[ino] == a)
     || (exists ino :: Usable(f, ino) && Refers(f, ino, a)))
  }

  ghost predicate Refers(f: Fs, ino: nat, a: nat)
    requires Usable(f, ino)
  {
    || a == f.icache[ino].location || a == f.icache[ino].disk.indirect
    || exists idx :: 0 <= idx < DIRECT_BLOCKS && f.icache[ino].disk.direct[idx] == a
  }

  /** The latest address of some block of some inode. */
  predicate IsLatest(m: Slots, a: nat)
  {
    exists s :: s in m && m[s] == a
  }

  /** A block that a reader finds through a pointer block. */
  ghost predicate FoundBehind(f: Fs, a: nat)
  {
    a != 0 && exists ino, idx :: Usable(f, ino) && DIRECT_BLOCKS <= idx < MAPPED_BLOCKS
                                 && PointerTo(f.log, f.icache[ino].disk, idx, true) == a
  }

  /** Referenced blocks are the blocks of slots. */
  lemma ReferencedIsSlot(f: Fs, m: Slots, a: nat)
    requires Inv(f, m) && AllFresh(f) && Referenced(f, a)
    ensures IsLatest(m, a)
  {
    if ino :| ino in f.inodeMap && f.inodeMap[ino] == a {
      assert m[ImageSlot(ino)] == a;
    } else {
      var ino :| Usable(f, ino) && Refers(f, ino, a);
      var n := f.icache[ino];
      assert Fresh(f, ino) && Coherent(n.disk, ino, m);
      if a == n.disk.indirect {
        assert Held(n.disk, PointerSlot(ino)) == a;
      } else if idx :| 0 <= idx < DIRECT_BLOCKS && n.disk.direct[idx] == a {
        assert Held(n.disk, DataSlot(ino, idx)) == a;
      }
    }
  }

  /**
   * Live accounting is safe: over every run, a FULL segment counts at least as many live
   * blocks as the inode map, the inodes and the latest addresses of all blocks, indirect
   * ones included, name in it.
   */
  lemma LiveCountCovers(fs: seq<Fs>, ms: seq<Slots>, steps: seq<Step>, n: nat, k: nat, refs: set<nat>)
    requires Run(fs, ms, steps) && n <= |steps|
    requires k < |fs[n].log.table| && fs[n].log.table[k].state.Full?
    requires forall a :: a in refs ==> SegOf(a) == k && (Referenced(fs[n], a) || IsLatest(ms[n], a))
    ensures |refs| <= fs[n].log.table[k].live
  {
    RunKeepsInv(fs, ms, steps, n);
    var m := ms[n];
    forall a | a in refs
      ensures IsLatest(m, a)
    {
      if Referenced(fs[n], a) {
        ReferencedIsSlot(fs[n], m, a);
      }
    }
    ImageSize(m, SlotsIn(m, k), refs);
  }

  /** Blocks found through pointer blocks are covered too, as long as writes find the pointers they rewrite. */
  lemma LiveCountCoversWords(fs: seq<Fs>, ms: seq<Slots>, steps: seq<Step>, n: nat, k: nat, refs: set<nat>)
    requires Run(fs, ms, steps) && Reaches(fs[0], ms[0]) && PointersFollowed(fs, steps) && n <= |steps|
    requires k < |fs[n].log.table| && fs[n].log.table[k].state.Full?
    requires forall a :: a in refs ==>
               SegOf(a) == k && (Referenced(fs[n], a) || IsLatest(ms[n], a) || FoundBehind(fs[n], a))
    ensures |refs| <= fs[n].log.table[k].live
  {
    RunKeepsReaches(fs, ms, steps, n);
    forall a | a in refs
      ensures Referenced(fs[n], a) || IsLatest(ms[n], a)
    {
      if FoundBehind(fs[n], a) {
        FoundIsLatest(fs[n], ms[n], a);
      }
    }
    LiveCountCovers(fs, ms, steps, n, k, refs);
  }

  lemma FoundIsLatest(f: Fs, m: Slots, a: nat)
    requires Reaches(f, m) && FoundBehind(f, a)
    ensures IsLatest(m, a)
  {
    var ino, idx :| Usable(f, ino) && DIRECT_BLOCKS <= idx < MAPPED_BLOCKS
                    && PointerTo(f.log, f.icache[ino].disk, idx, true) == a;
    assert Latest(m, DataSlot(ino, idx)) == a;
  }

  lemma {:induction false} ImageSize(m: Slots, ss: set<Slot>, refs: set<nat>)
    requires forall s :: s in ss ==> s in m
    requires forall a :: a in refs ==> exists s :: s in ss && m[s] == a
    ensures |refs| <= |ss|
    decreases refs
  {
    if refs != {} {
      var a :| a in refs;
      var s :| s in ss && m[s] == a;
      ImageSize(m, ss - {s}, refs - {a});
    }
  }

  /**
   * So a segment freed because its live count is zero holds no block that the inode map or
   * an inode refers to, and not the latest block of any inode.
   */
  lemma FreedSegmentIsUnreferenced(fs: seq<Fs>, ms: seq<Slots>, steps: seq<Step>, n: nat, k: nat, a: nat)
    requires Run(fs, ms, steps) && n < |steps| && steps[n] == FreeEmptyStep(k)
    requires k < |fs[n].log.table| && fs[n].log.table[k].state.Full? && fs[n].log.table[k].live == 0
    requires SegOf(a) == k
    ensures fs[n + 1].log.table[k].state.Free?
    ensures !Referenced(fs[n], a) && !Referenced(fs[n + 1], a) && !IsLatest(ms[n], a) && !IsLatest(ms[n + 1], a)
  {
    if Referenced(fs[n], a) || IsLatest(ms[n], a) {
      LiveCountCovers(fs, ms, steps, n, k, {a});
    }
    RunKeepsInv(fs, ms, steps, n + 1);
    if Referenced(fs[n + 1], a) {
      ReferencedIsSlot(fs[n + 1], ms[n + 1], a);
    }
  }
}
