/**
 * A mounted file system, updated in place (src/segment.c, src/inode.c, src/gc.c and the
 * flush of src/checkpoint.c). Each method is tied to the function on states that
 * specifies it; what holds over runs is proved about those functions.
 */
module Volume {
  import opened Layout
  import opened Log
  import opened FileSystem
  import opened Cleaner
  import opened Collector
  import Accounting
  import BlockMap
  import CleanInodes

  lemma {:induction false} MarkAllDeadLast(f: Fs, addrs: seq<nat>, a: nat)
    ensures MarkAllDead(f, addrs + [a]) == MarkDeadFs(MarkAllDead(f, addrs), a)
    decreases |addrs|
  {
    if addrs == [] {
      assert addrs + [a] == [a] && [a][1..] == [];
    } else {
      assert (addrs + [a])[1..] == addrs[1..] + [a];
      MarkAllDeadLast(MarkDeadFs(f, addrs[0]), addrs[1..], a);
    }
  }

  /** The outcome of the rounds that are left, with those before them counted. */
  function Counted(r: (Fs, nat, CleanResult), before: nat): (Fs, nat, CleanResult)
  {
    (r.0, r.1 + before, r.2)
  }

  lemma RoundsStep(f: Fs, left: nat)
    requires Sound(f)
    ensures var k := Best(f.log.table, f.now);
            if left == 0 || f.log.freeCount * 100 / |f.log.table| >= THRESHOLD_HIGH || k == |f.log.table|
            then Rounds(f, left) == (f, 0, Cleaned)
            else
              var (f1, r) := Cleaner.CleanSegment(f, k);
              Rounds(f, left) == if r == Cleaned then Counted(Rounds(f1, left - 1), 1) else (f1, 0, r)
  {
  }

  lemma FirstFreeIs(t: seq<Usage>, k: nat)
    requires k < |t| && t[k].state.Free? && forall j :: 0 <= j < k ==> !t[j].state.Free?
    ensures FirstFree(t) == k
  {
  }

  class Fsys {
    var disk: Disk
    var unsynced: set<nat>
    var readonly: bool
    var table: seq<Usage>
    var freeCount: nat
    var seg: nat
    const data: array<Block>
    const infos: array<BlockInfo>
    var count: nat
    var logHead: nat
    var inodeMap: map<nat, nat>
    var icache: map<nat, Inode>
    var now: nat
    var lastCheckpoint: nat
    var writes: nat
    ghost var checkpoints: seq<Saved>

    ghost predicate Valid()
      reads this
    {
      data.Length == infos.Length == SEGMENT_BLOCKS && 1 <= count <= SEGMENT_BLOCKS && seg < |table|
    }

    /** The log; block 0 of the buffer is scratch space for the summary. */
    ghost function LogNow(): Log.State
      requires Valid()
      reads this, data, infos
    {
      Log.State(disk, unsynced, readonly, table, freeCount, seg, [ZERO_BLOCK] + data[1..count], infos[..count], logHead)
    }

    ghost function Now(): Fs
      requires Valid()
      reads this, data, infos
    {
      Fs(LogNow(), inodeMap, icache, now, lastCheckpoint, writes, checkpoints)
    }

    /** Mounts a disk, given the segment table and the inode map read off it. */
    constructor (disk: Disk, readonly: bool, loaded: seq<Usage>, logHead: nat, inodeMap: map<nat, nat>, now: nat)
      requires 0 < |loaded| < UINT32
      ensures Valid() && count == 1 && fresh(data) && fresh(infos)
      ensures this.disk == disk && this.readonly == readonly && this.inodeMap == inodeMap && icache == map[] && this.now == now
      ensures Log.Valid(LogNow()) <==> FirstFree(loaded) < |loaded| || loaded[0].state.Active?
    {
      this.disk, this.readonly, this.logHead, this.inodeMap, this.now := disk, readonly, logHead, inodeMap, now;
      unsynced, freeCount, seg, count, table := {}, 0, 0, 1, loaded;
      icache, lastCheckpoint, writes, checkpoints := map[], now, 0, [];
      data := new Block[SEGMENT_BLOCKS](_ => ZERO_BLOCK);
      infos := new BlockInfo[SEGMENT_BLOCKS](_ => NO_INFO);
      new;
      Mount(loaded);
    }

    /** lsfs_segment_alloc: takes the first FREE segment. */
    method Alloc() returns (ok: bool, k: nat)
      requires Valid()
      modifies this`table, this`freeCount
      ensures Valid()
      ensures var (l, done) := Log.Alloc(old(LogNow()), now);
              ok == done && (ok ==> k < |table|) && LogNow() == l.(seg := seg) && (ok ==> l.seg == k)
    {
      if freeCount == 0 {
        return false, 0;
      }
      k := 0;
      while k < |table|
        invariant 0 <= k <= |table| && table == old(table) && freeCount == old(freeCount)
        invariant forall j :: 0 <= j < k ==> !table[j].state.Free?
      {
        if table[k].state.Free? {
          FirstFreeIs(table, k);
          table := table[k := Usage(Active, 0, now)];
          freeCount := freeCount - 1;
          return true, k;
        }
        k := k + 1;
      }
      return false, 0;
    }

    /** lsfs_segment_init, from the table read off the disk: counts the FREE segments and takes one. */
    method Mount(loaded: seq<Usage>)
      requires data.Length == infos.Length == SEGMENT_BLOCKS && 0 < |loaded| < UINT32
      modifies this`table, this`freeCount, this`seg, this`count, data, infos
      ensures Valid() && count == 1
      ensures freeCount == CountFree(table)
      ensures var k := FirstFree(loaded);
              if k < |loaded| then seg == k && table == loaded[k := Usage(Active, 0, now)] else seg == 0 && table == loaded
      ensures Log.Valid(LogNow()) <==> FirstFree(loaded) < |loaded| || loaded[0].state.Active?
    {
      seg, table := 0, loaded;
      ResetBuffer();
      CountSegments();
      FreeExists(loaded);
      var ok, k := Alloc();
      if ok {
        seg := k;
        CountFreeUpdate(loaded, k, Usage(Active, 0, now));
      }
    }

    method CountSegments()
      modifies this`freeCount
      ensures freeCount == CountFree(table)
    {
      freeCount := 0;
      var i := 0;
      while i < |table|
        invariant 0 <= i <= |table| && freeCount == CountFree(table[..i])
      {
        assert table[..i + 1][..i] == table[..i];
        if table[i].state.Free? {
          freeCount := freeCount + 1;
        }
        i := i + 1;
      }
      assert table[..|table|] == table;
    }

    /** The buffer is zeroed, with its first block reserved for the summary. */
    method ResetBuffer()
      requires data.Length == infos.Length == SEGMENT_BLOCKS
      modifies this`count, data, infos
      ensures count == 1 && [ZERO_BLOCK] + data[1..count] == EMPTY_BUF && infos[..count] == EMPTY_INFO
    {
      forall i | 0 <= i < SEGMENT_BLOCKS {
        data[i] := ZERO_BLOCK;
      }
      forall i | 0 <= i < SEGMENT_BLOCKS {
        infos[i] := NO_INFO;
      }
      count := 1;
    }

    /** The middle of lsfs_segment_flush: summary, write, table entry, log head. */
    method WriteOut()
      requires Valid() && count > 1
      modifies this`disk, this`unsynced, this`table, this`logHead, data
      ensures Valid() && LogNow() == Log.WriteOut(old(LogNow()), now)
    {
      ghost var l := LogNow();
      var fits := if count - 1 <= SUMMARY_RECORDS then infos[1..count] else [];
      assert l.info[1..] == infos[1..count] && l.buf[1..] == data[1..count];
      data[0] := Summary(SEGMENT_MAGIC, seg, now, count, fits);
      assert data[0] == SummaryOf(l, now);
      var start := SegmentToBlock(seg, 0);
      assert data[..count] == [SummaryOf(l, now)] + l.buf[1..];
      disk := WriteBlocks(disk, start, data[..count]);
      unsynced := unsynced + Addresses(start, count);
      table := table[seg := Usage(Full, count - 1, now)];
      logHead := start + count;
    }

    /** lsfs_segment_flush up to the checkpoint: the buffer goes to disk, and the log to a free segment if there is one. */
    method Rotate()
      requires Valid() && count > 1 && !readonly
      modifies this`disk, this`unsynced, this`table, this`freeCount, this`seg, this`logHead, this`count, data, infos
      ensures Valid() && count == 1 && LogNow() == Log.Flush(old(LogNow()), now).0
    {
      hide Log.WriteOut, FirstFree, SegmentToBlock;
      WriteOut();
      var found, k := Alloc();
      if found {
        seg := k;
      }
      ResetBuffer();
    }

    /** lsfs_segment_flush: writes the buffer out, moves to a free segment, and checkpoints when one is due. */
    method Flush() returns (ok: bool)
      requires Valid()
      modifies this, data, infos
      ensures Valid() && (Now(), ok) == FlushFs(old(Now()))
      ensures Log.Valid(old(LogNow())) && CanFlush(old(LogNow())) ==>
                ok && count == 1 && forall a: nat :: Occupied(old(LogNow()), a) ==> DiskAt(disk, a) == Overlay(old(LogNow()), a)
      decreases count, 0
    {
      if Log.Valid(LogNow()) && CanFlush(LogNow()) {
        FlushFsFacts(Now());
        OneBlock();
      }
      hide Log.Flush, Overlay, Occupied;
      if count <= 1 {
        return true;
      }
      if readonly {
        return false;
      }
      Rotate();
      var due := writes >= CHECKPOINT_INTERVAL || now < lastCheckpoint || now - lastCheckpoint >= CHECKPOINT_SECONDS;
      if due {
        var _ := Checkpoint();
      }
      return true;
    }

    /** lsfs_checkpoint_write, up to the order of its own disk writes. */
    method Checkpoint() returns (ok: bool)
      requires Valid()
      modifies this, data, infos
      ensures Valid() && (Now(), ok) == CheckpointFs(old(Now()))
      ensures ok <==> !old(readonly) && |old(inodeMap)| <= 65280
      ensures ok ==> count == 1 && unsynced == {} && checkpoints != [] && checkpoints[|checkpoints| - 1].inodeMap == inodeMap
      decreases count, 1
    {
      hide FlushFs;
      FlushLeaves(Now());
      if count > 1 {
        ok := Flush();
        if !ok {
          return;
        }
      }
      ok := Save();
    }

    /** The rest of lsfs_checkpoint_write: save the inode map, sync, mark the checkpoint complete. */
    method Save() returns (ok: bool)
      requires Valid()
      modifies this`unsynced, this`checkpoints, this`lastCheckpoint, this`writes
      ensures Valid() && ok == !(readonly || |inodeMap| > MAX_SAVED)
      ensures !ok ==> Now() == old(Now())
      ensures ok ==> var l := Sync(old(LogNow()));
                     Now() == old(Now()).(log := l, checkpoints := old(checkpoints) + [Saved(inodeMap, l.disk, l.unsynced)],
                                          lastCheckpoint := now, writes := 0)
    {
      if readonly || |inodeMap| > MAX_SAVED {
        return false;
      }
      unsynced := {};
      checkpoints := checkpoints + [Saved(inodeMap, disk, unsynced)];
      lastCheckpoint, writes := now, 0;
      return true;
    }

    /** Copies one block into the buffer. */
    method PutBlock(b: Block, i: BlockInfo) returns (a: nat)
      requires Valid() && count < SEGMENT_BLOCKS
      modifies this`count, this`writes, data, infos
      ensures Valid() && (Now(), a) == PutFs(old(Now()), b, i)
    {
      ghost var l := LogNow();
      data[count], infos[count] := b, i;
      a := SegmentToBlock(seg, count);
      count, writes := count + 1, writes + 1;
      assert data[1..count] == l.buf[1..] + [b];
      assert [ZERO_BLOCK] + data[1..count] == l.buf + [b];
      assert infos[..count] == l.info + [i];
    }

    /** lsfs_segment_append_block: flushes first when the buffer is full; address 0 is failure. */
    method Append(b: Block, i: BlockInfo) returns (a: nat)
      requires Valid()
      modifies this, data, infos
      ensures Valid() && (Now(), a) == AppendFs(old(Now()), b, i)
      ensures Log.Valid(old(LogNow())) && CanAppend(old(LogNow())) ==>
                Holds(LogNow(), a, b, i) && !Occupied(old(LogNow()), a) && Extends(old(LogNow()), LogNow())
    {
      if Log.Valid(LogNow()) && CanAppend(LogNow()) {
        AppendFsFacts(Now(), b, i);
      }
      hide FlushFs, PutFs, Extends, Holds, Occupied;
      if count >= SEGMENT_BLOCKS {
        FlushEmpties(Now());
        var ok := Flush();
        if !ok {
          return 0;
        }
      }
      a := PutBlock(b, i);
    }

    /** lsfs_gc_mark_block_dead: one live block less in the segment of the block. */
    method MarkDead(a: nat)
      requires Valid()
      modifies this`table
      ensures Valid() && Now() == old(Now()).(log := Log.MarkDead(old(LogNow()), a))
      ensures |table| == |old(table)|
      ensures forall k :: 0 <= k < |table| ==>
                table[k] == if k == BlockToSegment(a).0 && old(table)[k].live > 0
                            then old(table)[k].(live := old(table)[k].live - 1) else old(table)[k]
    {
      var k := BlockToSegment(a).0;
      if k >= |table| {
        return;
      }
      if table[k].live > 0 {
        table := table[k := table[k].(live := table[k].live - 1)];
      }
    }

    /** lsfs_inode_write: appends the inode and moves its map entry, which then leads to this image. */
    method WriteInode(ino: nat) returns (ok: bool)
      requires Valid() && ino in icache
      modifies this, data, infos
      ensures Valid() && (Now(), ok) == FileSystem.WriteInode(old(Now()), ino)
      ensures Log.Valid(old(LogNow())) && CanAppend(old(LogNow())) && old(icache)[ino].dirty ==>
                && ok && ino in icache && ino in inodeMap && inodeMap[ino] == icache[ino].location
                && Overlay(LogNow(), inodeMap[ino]) == InodeImage(icache[ino].disk) && icache[ino].disk == old(icache)[ino].disk
    {
      if Log.Valid(LogNow()) && CanAppend(LogNow()) && icache[ino].dirty {
        WrittenInode(Now(), ino);
      }
      hide FileSystem.WriteInode, Overlay;
      ok := PutInode(ino);
    }

    /** The steps of lsfs_inode_write. */
    method PutInode(ino: nat) returns (ok: bool)
      requires Valid() && ino in icache
      modifies this, data, infos
      ensures Valid() && (Now(), ok) == FileSystem.WriteInode(old(Now()), ino)
    {
      hide AppendFs, Log.MarkDead;
      var n := icache[ino];
      if !n.dirty {
        return true;
      }
      if n.location != 0 {
        MarkDead(n.location);
      }
      var a := Append(InodeImage(n.disk), BlockInfo(ino, 0, InodeBlock));
      if a == 0 {
        return false;
      }
      inodeMap := inodeMap[ino := a];
      icache := icache[ino := n.(location := a, dirty := false)];
      return true;
    }

    /** lsfs_inode_write_block: the file is updated at one index, if the pointer block was flushed. */
    method WriteBlock(ino: nat, idx: nat, b: Block) returns (ok: bool)
      requires Valid() && ino in icache && WellFormed(icache[ino].disk)
      modifies this, data, infos
      ensures Valid() && (Now(), ok) == FileSystem.WriteBlock(old(Now()), ino, idx, b)
      ensures var f := old(Now());
              BlockMap.CanWrite(f, ino, idx, b) && BlockMap.PointersInUse(f.log, f.icache[ino].disk) &&
              BlockMap.IndirectOnDisk(f.log, f.icache[ino].disk) ==>
                ok && ino in icache && BlockMap.Updated(f.log, f.icache[ino].disk, LogNow(), icache[ino].disk, idx, b)
      ensures ok ==> ino in icache && icache[ino].dirty
      ensures ok <==> idx < MAPPED_BLOCKS && (!old(readonly) || old(count) + (if idx < DIRECT_BLOCKS then 1 else 2) <= SEGMENT_BLOCKS)
    {
      if BlockMap.CanWrite(Now(), ino, idx, b) && BlockMap.PointersInUse(LogNow(), icache[ino].disk) &&
         BlockMap.IndirectOnDisk(LogNow(), icache[ino].disk) {
        BlockMap.WriteUpdatesOverlay(Now(), ino, idx, b);
      }
      BlockMap.WriteSucceeds(Now(), ino, idx, b);
      hide FileSystem.WriteBlock, BlockMap.CanWrite, BlockMap.PointersInUse, BlockMap.Updated;
      ok := PutData(ino, idx, b);
    }

    /** The steps of lsfs_inode_write_block: append the block, and for an indirect index the rewritten pointer block. */
    method PutData(ino: nat, idx: nat, b: Block) returns (ok: bool)
      requires Valid() && ino in icache && WellFormed(icache[ino].disk)
      modifies this, data, infos
      ensures Valid() && (Now(), ok) == FileSystem.WriteBlock(old(Now()), ino, idx, b)
    {
      hide AppendFs, Log.MarkDead, Words, Touch, DiskAt, SegmentToBlock;
      var n := icache[ino];
      if idx < DIRECT_BLOCKS && n.disk.direct[idx] != 0 {
        MarkDead(n.disk.direct[idx]);
      }
      var a := Append(b, BlockInfo(ino, idx % UINT32, DataBlock));
      if a == 0 {
        return false;
      }
      var d := n.disk;
      if idx < DIRECT_BLOCKS {
        d := d.(direct := d.direct[idx := a]);
      } else if idx < MAPPED_BLOCKS {
        var words := if d.indirect == 0 then Zeros(WORDS_PER_BLOCK) else Words(DiskAt(disk, d.indirect));
        if d.indirect != 0 {
          MarkDead(d.indirect);
        }
        var p := Append(Payload(words[idx - DIRECT_BLOCKS := a]), BlockInfo(ino, 0, IndirectBlock));
        if p == 0 {
          return false;
        }
        d := d.(indirect := p);
      } else {
        return false;
      }
      icache := icache[ino := Touch(n.(disk := d), idx)];
      return true;
    }

    method Retire(a: nat)
      requires Valid()
      modifies this`table
      ensures Valid() && Now() == MarkDeadFs(old(Now()), a)
    {
      if a != 0 {
        MarkDead(a);
      }
    }

    method RetireDirect(direct: seq<nat>)
      requires Valid() && |direct| == DIRECT_BLOCKS
      modifies this`table
      ensures Valid() && Now() == MarkAllDead(old(Now()), direct)
    {
      hide MarkDeadFs;
      ghost var f := Now();
      var i := 0;
      while i < DIRECT_BLOCKS
        invariant 0 <= i <= DIRECT_BLOCKS && Valid() && Now() == MarkAllDead(f, direct[..i])
      {
        Retire(direct[i]);
        MarkAllDeadLast(f, direct[..i], direct[i]);
        assert direct[..i + 1] == direct[..i] + [direct[i]];
        i := i + 1;
      }
      assert direct[..i] == direct;
    }

    method RetireAll(n: Inode)
      requires Valid() && WellFormed(n.disk)
      modifies this`table
      ensures Valid()
      ensures Now() == MarkAllDead(old(Now()), n.disk.direct + [n.disk.indirect, n.disk.doubleIndirect, n.location])
    {
      hide MarkDeadFs, MarkAllDead;
      MarkAllDeadThree(Now(), n.disk.direct, n.disk.indirect, n.disk.doubleIndirect, n.location);
      RetireDirect(n.disk.direct);
      Retire(n.disk.indirect);
      Retire(n.disk.doubleIndirect);
      Retire(n.location);
    }

    /** lsfs_inode_free: every block of the inode is dead, and its map entry is gone. */
    method FreeInode(ino: nat)
      requires Valid() && ino in icache && WellFormed(icache[ino].disk)
      modifies this`table, this`inodeMap, this`icache
      ensures Valid() && Now() == FileSystem.FreeInode(old(Now()), ino)
    {
      hide MarkAllDead;
      var n := icache[ino];
      var d := n.disk;
      RetireAll(n);
      inodeMap := inodeMap - {ino};
      icache := icache[ino := Inode(DiskInode(d.ino, d.blocks, Zeros(DIRECT_BLOCKS), 0, 0, true), n.location, false)];
    }

    /** lsfs_inode_alloc, given the number that the inode map handed out. */
    method NewInode(ino: nat)
      requires Valid()
      modifies this`icache
      ensures Valid() && Now() == FileSystem.NewInode(old(Now()), ino)
      ensures forall i :: i in old(icache) && i != ino ==> i in icache && icache[i] == old(icache)[i]
      ensures ino in icache && WellFormed(icache[ino].disk)
      ensures forall idx :: 0 <= idx < READ_BLOCKS ==>
                ReadBlock(LogNow(), icache[ino].disk, idx, false) == Contents(ZERO_BLOCK)
    {
      icache := icache[ino := Inode(DiskInode(ino, 0, Zeros(DIRECT_BLOCKS), 0, 0, false), 0, true)];
    }

    /** lsfs_gc_select_segment: the first of the best candidates, or the table size if there is none. */
    method SelectSegment() returns (k: nat)
      ensures IsBest(table, now, k) && k == Best(table, now)
    {
      hide Candidate, Utility, Best;
      var best := -1.0;
      k := |table|;
      var i := 0;
      while i < |table|
        invariant 0 <= i <= |table|
        invariant k == |table| || k < i
        invariant k == |table| ==> best == -1.0 && forall j :: 0 <= j < i ==> !Candidate(table[j])
        invariant k < i ==> Candidate(table[k]) && best == Utility(table[k], now)
        invariant k < i ==> forall j :: 0 <= j < i && Candidate(table[j]) ==> Utility(table[j], now) <= best
        invariant k < i ==> forall j :: 0 <= j < k && Candidate(table[j]) ==> Utility(table[j], now) < best
      {
        if Candidate(table[i]) {
          UtilityNotNegative(table[i], now);
          var utility := Utility(table[i], now);
          if utility > best {
            best, k := utility, i;
          }
        }
        i := i + 1;
      }
      BestIsUnique(table, now, k);
    }

    /** One round of the cleaning loop: a live block is appended again, and what led to it follows. */
    method CleanBlock(b: Block, r: BlockInfo, a: nat) returns (ok: bool)
      requires Valid()
      modifies this, data, infos
      ensures Valid() && (Now(), ok) == Cleaner.CleanBlock(old(Now()), b, r, a)
    {
      hide AppendFs;
      if r.ino == 0 {
        return true;
      }
      if r.kind.InodeBlock? {
        if r.ino in inodeMap && inodeMap[r.ino] == a {
          var moved := Append(b, r);
          if moved == 0 {
            return false;
          }
          inodeMap := inodeMap[r.ino := moved];
        }
      } else if r.kind.DataBlock? && r.ino in icache && WellFormed(icache[r.ino].disk) {
        var n := icache[r.ino];
        if r.offset < DIRECT_BLOCKS && n.disk.direct[r.offset] == a {
          var moved := Append(b, r);
          if moved == 0 {
            return false;
          }
          icache := icache[r.ino := PointAt(n, r.offset, moved)];
        }
      }
      return true;
    }

    /** The loop of lsfs_gc_clean_segment over the blocks of a segment that was read into `bs`. */
    method CleanBlocks(k: nat, bs: seq<Block>, n: nat) returns (ok: bool)
      requires Valid() && |bs| == SEGMENT_BLOCKS && 1 <= n <= SEGMENT_BLOCKS
      modifies this, data, infos
      ensures Valid() && (Now(), ok) == CleanFrom(old(Now()), k, bs, 1, n)
    {
      hide Cleaner.CleanBlock;
      var i := 1;
      while i < n
        invariant 1 <= i <= n && Valid()
        invariant CleanFrom(Now(), k, bs, i, n) == CleanFrom(old(Now()), k, bs, 1, n)
      {
        ok := CleanBlock(bs[i], RecordAt(bs[0], i - 1), SegmentToBlock(k, i));
        if !ok {
          return;
        }
        i := i + 1;
      }
      return true;
    }

    /**
     * lsfs_gc_clean_segment: what the inode map and direct pointers lead to stays the same.
     * A segment that cannot be read stays as it is; `readOk` is whether it can.
     */
    method CleanSegment(k: nat, readOk: bool) returns (r: CleanResult)
      requires Valid()
      modifies this, data, infos
      ensures Valid()
      ensures (Now(), r) == if readOk || !NeedsRead(old(Now()), k) then Cleaner.CleanSegment(old(Now()), k)
                            else (old(Now()), ReadFailed)
      ensures readOk && Truth(old(Now())) && Cleanable(old(Now()), k) && CleaningAllocates(old(Now()), k) ==>
                && r == Cleaned && SameContents(old(Now()), Now()) && k < |table| && table[k].state.Free?
                && (forall a: nat :: a != 0 && SegOf(a) == k ==> !PointedAt(Now(), a))
                && (CleanInodes.CleanIsImage(old(Now())) ==> CleanInodes.CleanIsImage(Now()))
    {
      if Truth(Now()) && Cleanable(Now(), k) && CleaningAllocates(Now(), k) {
        CleaningPreservesContents(Now(), k);
        if CleanInodes.CleanIsImage(Now()) {
          CleanInodes.CleaningKeepsMatches(Now(), k);
        }
      }
      hide Cleaner.CleanSegment, Truth, SameContents, PointedAt, CleaningAllocates, CleanInodes.CleanIsImage;
      r := CopySegment(k, readOk);
    }

    /** The steps of lsfs_gc_clean_segment: an empty segment is freed at once, any other after relocating its live blocks. */
    method CopySegment(k: nat, readOk: bool) returns (r: CleanResult)
      requires Valid()
      modifies this, data, infos
      ensures Valid()
      ensures (Now(), r) == if readOk || !NeedsRead(old(Now()), k) then Cleaner.CleanSegment(old(Now()), k)
                            else (old(Now()), ReadFailed)
    {
      hide CleanFrom;
      if k >= |table| {
        return InvalidSegment;
      }
      var u := table[k];
      if !u.state.Full? {
        return Cleaned;
      }
      if u.live == 0 {
        table, freeCount := table[k := u.(state := Free)], freeCount + 1;
        return Cleaned;
      }
      table := table[k := u.(state := SegState.Cleaning)];
      if !readOk {
        table := table[k := u];
        assert table == old(table);
        return ReadFailed;
      }
      var bs := ReadSegment(disk, k);
      if !bs[0].Summary? || bs[0].magic != SEGMENT_MAGIC {
        table := table[k := u];
        assert table == old(table);
        return CorruptSegment;
      }
      var ok := CleanBlocks(k, bs, BlocksToVisit(bs[0]));
      if k < |table| {
        table, freeCount := table[k := table[k].(state := Free, live := 0)], freeCount + 1;
      }
      return if ok then Cleaned else NoSpace;
    }

    /** The cleaning loop of lsfs_gc_run. */
    method CleanSegments() returns (cleaned: nat, r: CleanResult)
      requires Valid()
      modifies this, data, infos
      ensures Valid() && (Now(), cleaned, r) == Rounds(old(Now()), MAX_CLEANED)
    {
      hide Cleaner.CleanSegment, Best, IsBest, Rounds, FreePercent;
      cleaned, r := 0, Cleaned;
      while cleaned < MAX_CLEANED
        invariant 0 <= cleaned <= MAX_CLEANED && Valid() && r == Cleaned
        invariant Rounds(old(Now()), MAX_CLEANED) == Counted(Rounds(Now(), MAX_CLEANED - cleaned), cleaned)
      {
        RoundsStep(Now(), MAX_CLEANED - cleaned);
        if freeCount * 100 / |table| >= THRESHOLD_HIGH {
          break;
        }
        var k := SelectSegment();
        if k == |table| {
          break;
        }
        r := CopySegment(k, true);
        if r != Cleaned {
          break;
        }
        cleaned := cleaned + 1;
      }
      RoundsStep(Now(), MAX_CLEANED - cleaned);
    }

    /** lsfs_gc_run: up to five cleanings, then a flush and a checkpoint. */
    method Collect(ghost m: Accounting.Slots) returns (r: CleanResult)
      requires Valid()
      modifies this, data, infos
      ensures Valid() && (Now(), r) == Collector.Collect(old(Now()))
      ensures Collects(old(Now()), m) ==> r == Cleaned && Truth(Now()) && SameContents(old(Now()), Now())
      ensures Collects(old(Now()), m) && !old(readonly) && |old(inodeMap)| <= 65280 ==>
                forall k :: 0 <= k < |old(table)| && k < |table| && old(table)[k].state.Full? && table[k].state.Free? ==>
                  AllSaved(Now()) && AllDurable(Now())
    {
      ghost var f := Now();
      if Collects(f, m) && !readonly && |inodeMap| <= 65280 {
        forall k | 0 <= k < |table| && k < |Collector.Collect(f).0.log.table| && table[k].state.Full? && Collector.Collect(f).0.log.table[k].state.Free?
          ensures AllSaved(Collector.Collect(f).0) && AllDurable(Collector.Collect(f).0)
        {
          CollectedIsSaved(f, m, k);
        }
      }
      if Collects(Now(), m) {
        CollectingKeepsContents(Now(), m);
      }
      hide Rounds, FlushFs, CheckpointFs, Collects, Truth, SameContents, AllSaved, AllDurable;
      var cleaned;
      cleaned, r := CleanSegments();
      if cleaned > 0 {
        var _ := Flush();
        var _ := Checkpoint();
      }
    }
  }

  lemma OneBlock()
    ensures forall s: seq<Block> :: |[ZERO_BLOCK] + s| == 1 ==> s == []
  {
  }

  /** The inode map and the cached location name the image just appended. */
  lemma WrittenInode(f: Fs, ino: nat)
    requires Log.Valid(f.log) && CanAppend(f.log) && ino in f.icache && f.icache[ino].dirty
    ensures var (f', ok) := FileSystem.WriteInode(f, ino);
            && ok && ino in f'.icache && ino in f'.inodeMap && f'.inodeMap[ino] == f'.icache[ino].location
            && Overlay(f'.log, f'.inodeMap[ino]) == InodeImage(f.icache[ino].disk) && f'.icache[ino].disk == f.icache[ino].disk
  {
    hide AppendFs;
    MarkDeadFacts(f, f.icache[ino].location);
    AppendFsFacts(MarkDeadFs(f, f.icache[ino].location), InodeImage(f.icache[ino].disk), BlockInfo(ino, 0, InodeBlock));
  }

  lemma MarkAllDeadThree(f: Fs, addrs: seq<nat>, a: nat, b: nat, c: nat)
    ensures MarkAllDead(f, addrs + [a, b, c]) == MarkDeadFs(MarkDeadFs(MarkDeadFs(MarkAllDead(f, addrs), a), b), c)
  {
    hide MarkDeadFs, MarkAllDead;
    MarkAllDeadLast(f, addrs, a);
    MarkAllDeadLast(f, addrs + [a], b);
    MarkAllDeadLast(f, addrs + [a] + [b], c);
    assert addrs + [a] + [b] + [c] == addrs + [a, b, c];
  }

  /** A successful flush leaves room in the buffer. */
  lemma FlushEmpties(f: Fs)
    requires Sound(f) && |f.log.buf| > 1
    ensures FlushFs(f).1 ==> |FlushFs(f).0.log.buf| == 1
  {
    if !f.log.readonly {
      CheckpointShape(f.(log := Log.Flush(f.log, f.now).0));
    }
  }
}
