/**
 * Lock order (src/segment.c, src/checkpoint.c, src/imap.c, src/gc.c, src/inode.c,
 * src/fuse_ops.c): which locks each operation takes, in which order, on every path; and
 * that no interleaving of any number of threads that run them comes to a wait cycle.
 */
module Locks {
  import opened Layout

  datatype Lock = InodeLock(ino: nat) | CacheLock | SegmentBuffer | WriteLock | TableLock | MapLock | GcLock

  /** The order in which locks may be taken while others are held. */
  function Rank(l: Lock): nat
  {
    match l
    case InodeLock(_) => 0
    case CacheLock => 0
    case SegmentBuffer => 1
    case WriteLock => 2
    case TableLock => 3
    case MapLock => 3
    case GcLock => 3
  }

  // ------------------------------------------------------- lock skeletons

  /** What an operation does to locks: `shared` is a read lock. */
  datatype Code =
    | Skip
    | Acquire(lock: Lock, shared: bool)
    | Release(lock: Lock)
    | Then(first: Code, second: Code)
    | Either(left: Code, right: Code)

  /** The locks a thread holds, the last one taken on top. */
  datatype Held = Nothing | On(lock: Lock, shared: bool, below: Held)

  predicate Climbs(l: Lock, held: Held)
  {
    held.On? ==> Rank(held.lock) < Rank(l)
  }

  /** The locks held after any path through `c`, if every acquisition climbs and every release is of the top lock. */
  function Check(c: Code, held: Held): Option<Held>
  {
    match c
    case Skip => Some(held)
    case Acquire(l, shared) => if Climbs(l, held) then Some(On(l, shared, held)) else None
    case Release(l) => if held.On? && held.lock == l then Some(held.below) else None
    case Then(a, b) =>
      var h := Check(a, held);
      if h.None? then None else Check(b, h.value)
    case Either(a, b) =>
      var h := Check(a, held);
      if h == Check(b, held) then h else None
  }

  datatype Event = Take(lock: Lock, shared: bool) | Drop(lock: Lock)

  /** `t` is a path through `c`. */
  ghost predicate IsTrace(c: Code, t: seq<Event>)
  {
    match c
    case Skip => t == []
    case Acquire(l, shared) => t == [Take(l, shared)]
    case Release(l) => t == [Drop(l)]
    case Then(a, b) => exists k :: 0 <= k <= |t| && IsTrace(a, t[..k]) && IsTrace(b, t[k..])
    case Either(a, b) => IsTrace(a, t) || IsTrace(b, t)
  }

  /** The locks held after a trace, if it keeps to the order. */
  function Replay(held: Held, t: seq<Event>): Option<Held>
    decreases |t|
  {
    if t == [] then Some(held)
    else
      match t[0]
      case Take(l, shared) => if Climbs(l, held) then Replay(On(l, shared, held), t[1..]) else None
      case Drop(l) => if held.On? && held.lock == l then Replay(held.below, t[1..]) else None
  }

  lemma {:induction false} ReplayConcat(held: Held, t: seq<Event>, u: seq<Event>)
    requires Replay(held, t).Some?
    ensures Replay(held, t + u) == Replay(Replay(held, t).value, u)
    decreases |t|
  {
    if t == [] {
      assert t + u == u;
    } else {
      assert (t + u)[1..] == t[1..] + u;
      match t[0]
      case Take(l, shared) => ReplayConcat(On(l, shared, held), t[1..], u);
      case Drop(l) => ReplayConcat(held.below, t[1..], u);
    }
  }

  /** A skeleton that passes the check keeps to the order on every path. */
  lemma {:induction false} CheckIsSound(c: Code, held: Held, t: seq<Event>)
    requires Check(c, held).Some? && IsTrace(c, t)
    ensures Replay(held, t) == Check(c, held)
  {
    match c
    case Skip =>
    case Acquire(l, shared) => assert t[1..] == [];
    case Release(l) => assert t[1..] == [];
    case Then(a, b) =>
      var k :| 0 <= k <= |t| && IsTrace(a, t[..k]) && IsTrace(b, t[k..]);
      CheckIsSound(a, held, t[..k]);
      CheckIsSound(b, Check(a, held).value, t[k..]);
      ReplayConcat(held, t[..k], t[k..]);
      assert t[..k] + t[k..] == t;
    case Either(a, b) =>
      if IsTrace(a, t) {
        CheckIsSound(a, held, t);
      } else {
        CheckIsSound(b, held, t);
      }
  }

  // ------------------------------------------------------- the operations

  function Locked(l: Lock, shared: bool, body: Code): Code
  {
    Then(Acquire(l, shared), Then(body, Release(l)))
  }

  function Maybe(c: Code): Code
  {
    Either(Skip, c)
  }

  /** A loop that runs up to `k` times. */
  function Loop(c: Code, k: nat): Code
  {
    if k == 0 then Skip else Maybe(Then(c, Loop(c, k - 1)))
  }

  const TABLE := Locked(TableLock, false, Skip)
  const TRIGGER := Locked(GcLock, false, Skip)
  const MAP_GET := Locked(MapLock, true, Skip)
  const MAP_SET := Locked(MapLock, false, Skip)
  const MARK_DEAD := Maybe(TABLE)

  const UNLOCK_BOTH := Then(Release(WriteLock), Release(SegmentBuffer))

  /** lsfs_segment_flush, with at most `n` nested calls: a checkpoint that finds the buffer refilled flushes again. */
  function Flush(n: nat): Code
    decreases n
  {
    var checkpoint := if n == 0 then Skip else Maybe(Checkpoint(n - 1));
    var written := Then(TABLE, Then(TABLE, Then(Maybe(TRIGGER), Then(UNLOCK_BOTH, checkpoint))));
    Then(Acquire(SegmentBuffer, false), Then(Acquire(WriteLock, false), Either(UNLOCK_BOTH, written)))
  }

  /** lsfs_checkpoint_write: every exit behind the header releases the write lock. */
  function Checkpoint(n: nat): Code
    decreases n
  {
    var save := Then(Maybe(MAP_GET), Release(WriteLock));
    var flush := if n == 0 then Skip else Flush(n - 1);
    var again := Then(Release(WriteLock), Then(flush, Maybe(Then(Acquire(WriteLock, false), save))));
    Then(Acquire(WriteLock, false), Either(save, again))
  }

  /** lsfs_segment_append_block: the buffer is released around a flush. */
  function Append(n: nat): Code
  {
    var put := Locked(SegmentBuffer, false, Skip);
    Either(put, Then(Locked(SegmentBuffer, false, Skip), Then(Flush(n), Maybe(put))))
  }

  /** lsfs_inode_write. */
  function InodeWrite(n: nat): Code
  {
    Maybe(Then(MARK_DEAD, Then(Append(n), Maybe(MAP_SET))))
  }

  /** lsfs_inode_get, with up to `k` dirty inodes evicted on the way. */
  function InodeGet(n: nat, k: nat): Code
  {
    Locked(CacheLock, false, Maybe(Then(MAP_GET, Loop(InodeWrite(n), k))))
  }

  /** lsfs_inode_alloc. */
  function InodeAlloc(n: nat, k: nat): Code
  {
    Then(MAP_SET, Maybe(Locked(CacheLock, false, Loop(InodeWrite(n), k))))
  }

  /** lsfs_inode_free. */
  function InodeFree(): Code
  {
    Then(Loop(MARK_DEAD, 15), MAP_SET)
  }

  /** lsfs_inode_write_block. */
  function WriteBlock(n: nat): Code
  {
    Then(MARK_DEAD, Then(Append(n), Maybe(Then(MARK_DEAD, Append(n)))))
  }

  /** lsfs_op_write: up to `k` blocks and the inode, under the inode's lock. */
  function FileWrite(ino: nat, n: nat, k: nat): Code
  {
    Then(InodeGet(n, k), Locked(InodeLock(ino), false, Then(Loop(WriteBlock(n), k), InodeWrite(n))))
  }

  /** lsfs_op_setattr. */
  function SetAttr(ino: nat, n: nat, k: nat): Code
  {
    Then(InodeGet(n, k), Locked(InodeLock(ino), false, Then(Loop(MARK_DEAD, k), InodeWrite(n))))
  }

  /** One block of lsfs_gc_clean_segment: an inode, a data block, or neither. */
  function CleanBlock(n: nat, k: nat): Code
  {
    Either(Maybe(Then(MAP_GET, Maybe(Then(Append(n), MAP_SET)))), Then(InodeGet(n, k), Maybe(Append(n))))
  }

  /** lsfs_gc_clean_segment: the table is locked to claim the segment and to give it back. */
  function CleanSegment(n: nat, k: nat): Code
  {
    Then(TABLE, Maybe(Then(Loop(CleanBlock(n, k), k), TABLE)))
  }

  /** lsfs_gc_run. */
  function GcRun(n: nat, k: nat): Code
  {
    Then(Loop(Then(TABLE, Maybe(Then(TABLE, CleanSegment(n, k)))), k), Maybe(Then(Flush(n), Checkpoint(n))))
  }

  /** One round of the collector thread: waiting on the condition gives the lock up and takes it again. */
  function GcRound(n: nat, k: nat): Code
  {
    Then(Locked(GcLock, false, Then(Release(GcLock), Acquire(GcLock, false))), Maybe(Then(TABLE, Maybe(GcRun(n, k)))))
  }

  /** What a thread can run; `n` bounds nested calls and `k` the rounds of each loop, and both may be any number. */
  datatype Op =
    | OpFlush(n: nat)
    | OpCheckpoint(n: nat)
    | OpGet(n: nat, k: nat)
    | OpAlloc(n: nat, k: nat)
    | OpFree
    | OpInodeWrite(n: nat)
    | OpWriteBlock(n: nat)
    | OpFileWrite(ino: nat, n: nat, k: nat)
    | OpSetAttr(ino: nat, n: nat, k: nat)
    | OpGc(n: nat, k: nat)

  function CodeOf(op: Op): Code
  {
    match op
    case OpFlush(n) => Flush(n)
    case OpCheckpoint(n) => Checkpoint(n)
    case OpGet(n, k) => InodeGet(n, k)
    case OpAlloc(n, k) => InodeAlloc(n, k)
    case OpFree => InodeFree()
    case OpInodeWrite(n) => InodeWrite(n)
    case OpWriteBlock(n) => WriteBlock(n)
    case OpFileWrite(ino, n, k) => FileWrite(ino, n, k)
    case OpSetAttr(ino, n, k) => SetAttr(ino, n, k)
    case OpGc(n, k) => GcRound(n, k)
  }

  // ------------------------------------------------- every operation climbs

  /** On every path the acquisitions climb and everything taken is given back. */
  predicate Balanced(c: Code, held: Held)
  {
    Check(c, held) == Some(held)
  }

  lemma BalancedThen(a: Code, b: Code, held: Held)
    requires Balanced(a, held) && Balanced(b, held)
    ensures Balanced(Then(a, b), held)
  {
  }

  lemma BalancedMaybe(c: Code, held: Held)
    requires Balanced(c, held)
    ensures Balanced(Maybe(c), held)
  {
  }

  lemma BalancedLocked(l: Lock, shared: bool, body: Code, held: Held)
    requires Climbs(l, held) && Balanced(body, On(l, shared, held))
    ensures Balanced(Locked(l, shared, body), held)
  {
    assert Check(Then(body, Release(l)), On(l, shared, held)) == Some(held);
  }

  lemma {:induction false} BalancedLoop(c: Code, k: nat, held: Held)
    requires Balanced(c, held)
    ensures Balanced(Loop(c, k), held)
  {
    if k > 0 {
      BalancedLoop(c, k - 1, held);
      BalancedThen(c, Loop(c, k - 1), held);
      BalancedMaybe(Then(c, Loop(c, k - 1)), held);
    }
  }

  /** The sections under the innermost locks. */
  lemma BalancedInner(held: Held)
    requires held.On? ==> Rank(held.lock) < 3
    ensures Balanced(TABLE, held) && Balanced(TRIGGER, held) && Balanced(MAP_GET, held) && Balanced(MAP_SET, held)
    ensures Balanced(MARK_DEAD, held)
  {
    BalancedLocked(TableLock, false, Skip, held);
    BalancedLocked(GcLock, false, Skip, held);
    BalancedLocked(MapLock, true, Skip, held);
    BalancedLocked(MapLock, false, Skip, held);
    BalancedMaybe(TABLE, held);
  }

  lemma {:induction false} BalancedFlush(n: nat, held: Held)
    requires Climbs(SegmentBuffer, held)
    ensures Balanced(Flush(n), held)
    decreases n
  {
    var h1 := On(SegmentBuffer, false, held);
    var h2 := On(WriteLock, false, h1);
    var checkpoint := if n == 0 then Skip else Maybe(Checkpoint(n - 1));
    if n > 0 {
      BalancedCheckpoint(n - 1, held);
      BalancedMaybe(Checkpoint(n - 1), held);
    }
    BalancedInner(h2);
    BalancedMaybe(TRIGGER, h2);
    assert Check(UNLOCK_BOTH, h2) == Some(held) by {
      assert Check(Release(WriteLock), h2) == Some(h1) && Check(Release(SegmentBuffer), h1) == Some(held);
    }
    var unlock := Then(UNLOCK_BOTH, checkpoint);
    assert Check(unlock, h2) == Some(held);
    var trigger := Then(Maybe(TRIGGER), unlock);
    assert Check(trigger, h2) == Some(held);
    var alloc := Then(TABLE, trigger);
    assert Check(alloc, h2) == Some(held);
    var written := Then(TABLE, alloc);
    assert Check(written, h2) == Some(held);
    var body := Either(UNLOCK_BOTH, written);
    assert Check(body, h2) == Some(held);
    assert Check(Then(Acquire(WriteLock, false), body), h1) == Some(held);
  }

  lemma {:induction false} BalancedCheckpoint(n: nat, held: Held)
    requires Climbs(SegmentBuffer, held)
    ensures Balanced(Checkpoint(n), held)
    decreases n
  {
    var h := On(WriteLock, false, held);
    var flush := if n == 0 then Skip else Flush(n - 1);
    if n > 0 {
      BalancedFlush(n - 1, held);
    }
    BalancedInner(h);
    BalancedMaybe(MAP_GET, h);
    var save := Then(Maybe(MAP_GET), Release(WriteLock));
    assert Check(save, h) == Some(held);
    var retake := Then(Acquire(WriteLock, false), save);
    assert Check(retake, held) == Some(held);
    BalancedMaybe(retake, held);
    BalancedThen(flush, Maybe(retake), held);
    var again := Then(Release(WriteLock), Then(flush, Maybe(retake)));
    assert Check(again, h) == Some(held);
    assert Check(Either(save, again), h) == Some(held);
  }

  lemma BalancedAppend(n: nat, held: Held)
    requires Climbs(SegmentBuffer, held)
    ensures Balanced(Append(n), held)
  {
    var put := Locked(SegmentBuffer, false, Skip);
    BalancedLocked(SegmentBuffer, false, Skip, held);
    BalancedMaybe(put, held);
    BalancedFlush(n, held);
    BalancedThen(Flush(n), Maybe(put), held);
    BalancedThen(put, Then(Flush(n), Maybe(put)), held);
  }

  lemma BalancedInodeWrite(n: nat, held: Held)
    requires Climbs(SegmentBuffer, held)
    ensures Balanced(InodeWrite(n), held)
  {
    BalancedInner(held);
    BalancedAppend(n, held);
    BalancedMaybe(MAP_SET, held);
    BalancedThen(Append(n), Maybe(MAP_SET), held);
    BalancedThen(MARK_DEAD, Then(Append(n), Maybe(MAP_SET)), held);
    BalancedMaybe(Then(MARK_DEAD, Then(Append(n), Maybe(MAP_SET))), held);
  }

  lemma BalancedGet(n: nat, k: nat)
    ensures Balanced(InodeGet(n, k), Nothing)
  {
    var h := On(CacheLock, false, Nothing);
    BalancedInner(h);
    BalancedInodeWrite(n, h);
    BalancedLoop(InodeWrite(n), k, h);
    BalancedThen(MAP_GET, Loop(InodeWrite(n), k), h);
    BalancedMaybe(Then(MAP_GET, Loop(InodeWrite(n), k)), h);
    BalancedLocked(CacheLock, false, Maybe(Then(MAP_GET, Loop(InodeWrite(n), k))), Nothing);
  }

  lemma BalancedAlloc(n: nat, k: nat)
    ensures Balanced(InodeAlloc(n, k), Nothing)
  {
    var h := On(CacheLock, false, Nothing);
    BalancedInner(Nothing);
    BalancedInodeWrite(n, h);
    BalancedLoop(InodeWrite(n), k, h);
    BalancedLocked(CacheLock, false, Loop(InodeWrite(n), k), Nothing);
    BalancedMaybe(Locked(CacheLock, false, Loop(InodeWrite(n), k)), Nothing);
    BalancedThen(MAP_SET, Maybe(Locked(CacheLock, false, Loop(InodeWrite(n), k))), Nothing);
  }

  lemma BalancedWriteBlock(n: nat, held: Held)
    requires Climbs(SegmentBuffer, held)
    ensures Balanced(WriteBlock(n), held)
  {
    BalancedInner(held);
    BalancedAppend(n, held);
    var pointers := Then(MARK_DEAD, Append(n));
    BalancedThen(MARK_DEAD, Append(n), held);
    BalancedMaybe(pointers, held);
    BalancedThen(Append(n), Maybe(pointers), held);
    BalancedThen(MARK_DEAD, Then(Append(n), Maybe(pointers)), held);
  }

  lemma BalancedUnderInode(ino: nat, n: nat, k: nat, body: Code)
    requires Balanced(body, On(InodeLock(ino), false, Nothing))
    ensures Balanced(Then(InodeGet(n, k), Locked(InodeLock(ino), false, Then(Loop(body, k), InodeWrite(n)))), Nothing)
  {
    var h := On(InodeLock(ino), false, Nothing);
    BalancedLoop(body, k, h);
    BalancedInodeWrite(n, h);
    BalancedThen(Loop(body, k), InodeWrite(n), h);
    BalancedLocked(InodeLock(ino), false, Then(Loop(body, k), InodeWrite(n)), Nothing);
    BalancedGet(n, k);
    BalancedThen(InodeGet(n, k), Locked(InodeLock(ino), false, Then(Loop(body, k), InodeWrite(n))), Nothing);
  }

  lemma BalancedCleanBlock(n: nat, k: nat)
    ensures Balanced(CleanBlock(n, k), Nothing)
  {
    BalancedInner(Nothing);
    BalancedAppend(n, Nothing);
    BalancedGet(n, k);
    var move := Then(Append(n), MAP_SET);
    BalancedThen(Append(n), MAP_SET, Nothing);
    BalancedMaybe(move, Nothing);
    BalancedThen(MAP_GET, Maybe(move), Nothing);
    BalancedMaybe(Then(MAP_GET, Maybe(move)), Nothing);
    BalancedMaybe(Append(n), Nothing);
    BalancedThen(InodeGet(n, k), Maybe(Append(n)), Nothing);
  }

  lemma BalancedGc(n: nat, k: nat)
    ensures Balanced(GcRun(n, k), Nothing)
  {
    BalancedInner(Nothing);
    BalancedCleanBlock(n, k);
    BalancedLoop(CleanBlock(n, k), k, Nothing);
    BalancedThen(Loop(CleanBlock(n, k), k), TABLE, Nothing);
    BalancedMaybe(Then(Loop(CleanBlock(n, k), k), TABLE), Nothing);
    BalancedThen(TABLE, Maybe(Then(Loop(CleanBlock(n, k), k), TABLE)), Nothing);
    var clean := Then(TABLE, CleanSegment(n, k));
    BalancedThen(TABLE, CleanSegment(n, k), Nothing);
    BalancedMaybe(clean, Nothing);
    BalancedThen(TABLE, Maybe(clean), Nothing);
    BalancedLoop(Then(TABLE, Maybe(clean)), k, Nothing);
    BalancedFlush(n, Nothing);
    BalancedCheckpoint(n, Nothing);
    BalancedThen(Flush(n), Checkpoint(n), Nothing);
    BalancedMaybe(Then(Flush(n), Checkpoint(n)), Nothing);
    BalancedThen(Loop(Then(TABLE, Maybe(clean)), k), Maybe(Then(Flush(n), Checkpoint(n))), Nothing);
  }

  lemma BalancedRound(n: nat, k: nat)
    ensures Balanced(GcRound(n, k), Nothing)
  {
    var h := On(GcLock, false, Nothing);
    var wait := Then(Release(GcLock), Acquire(GcLock, false));
    assert Check(Release(GcLock), h) == Some(Nothing);
    assert Check(Acquire(GcLock, false), Nothing) == Some(h);
    assert Balanced(wait, h);
    BalancedLocked(GcLock, false, wait, Nothing);
    BalancedInner(Nothing);
    BalancedGc(n, k);
    BalancedMaybe(GcRun(n, k), Nothing);
    BalancedThen(TABLE, Maybe(GcRun(n, k)), Nothing);
    BalancedMaybe(Then(TABLE, Maybe(GcRun(n, k))), Nothing);
    BalancedThen(Locked(GcLock, false, wait), Maybe(Then(TABLE, Maybe(GcRun(n, k)))), Nothing);
  }

  /** On every path of every operation, acquisitions climb the order, and all locks are given back. */
  lemma OperationsClimb(op: Op)
    ensures Balanced(CodeOf(op), Nothing)
  {
    match op
    case OpFlush(n) => BalancedFlush(n, Nothing);
    case OpCheckpoint(n) => BalancedCheckpoint(n, Nothing);
    case OpGet(n, k) => BalancedGet(n, k);
    case OpAlloc(n, k) => BalancedAlloc(n, k);
    case OpFree =>
      BalancedInner(Nothing);
      BalancedLoop(MARK_DEAD, 15, Nothing);
      BalancedThen(Loop(MARK_DEAD, 15), MAP_SET, Nothing);
    case OpInodeWrite(n) => BalancedInodeWrite(n, Nothing);
    case OpWriteBlock(n) => BalancedWriteBlock(n, Nothing);
    case OpFileWrite(ino, n, k) =>
      BalancedWriteBlock(n, On(InodeLock(ino), false, Nothing));
      BalancedUnderInode(ino, n, k, WriteBlock(n));
    case OpSetAttr(ino, n, k) =>
      BalancedInner(On(InodeLock(ino), false, Nothing));
      BalancedUnderInode(ino, n, k, MARK_DEAD);
    case OpGc(n, k) => BalancedRound(n, k);
  }

  // ---------------------------------------------------------------- threads

  datatype Thread = Thread(held: Held, todo: seq<Event>)

  predicate Holds(h: Held, l: Lock)
  {
    h.On? && (h.lock == l || Holds(h.below, l))
  }

  /** Holding `h` keeps others from taking `l`; two read locks go together. */
  predicate Conflicts(h: Held, l: Lock, shared: bool)
  {
    h.On? && ((h.lock == l && !(h.shared && shared)) || Conflicts(h.below, l, shared))
  }

  /** No lock of `g` keeps a thread from holding `h`. */
  predicate Compatible(h: Held, g: Held)
  {
    h.On? ==> !Conflicts(g, h.lock, h.shared) && Compatible(h.below, g)
  }

  predicate Ordered(h: Held)
  {
    h.On? ==> Climbs(h.lock, h.below) && Ordered(h.below)
  }

  predicate Waits(s: seq<Thread>, i: nat, j: nat)
  {
    && i < |s| && j < |s| && i != j && s[i].todo != [] && s[i].todo[0].Take?
    && Conflicts(s[j].held, s[i].todo[0].lock, s[i].todo[0].shared)
  }

  ghost predicate Enabled(s: seq<Thread>, i: nat)
  {
    i < |s| && s[i].todo != [] && forall j: nat :: !Waits(s, i, j)
  }

  function After(t: Thread): (r: Thread)
    requires t.todo != [] && (t.todo[0].Take? || t.held.On?)
  {
    var rest := t.todo[1..];
    match t.todo[0]
    case Take(l, shared) => Thread(On(l, shared, t.held), rest)
    case Drop(_) => Thread(t.held.below, rest)
  }

  ghost predicate ThreadInv(t: Thread)
  {
    Ordered(t.held) && Replay(t.held, t.todo) == Some(Nothing)
  }

  ghost predicate Inv(s: seq<Thread>)
  {
    && (forall i :: 0 <= i < |s| ==> ThreadInv(s[i]))
    && (forall i, j :: 0 <= i < |s| && 0 <= j < |s| && i != j ==> Compatible(s[i].held, s[j].held))
  }

  lemma AfterKeeps(t: Thread)
    requires ThreadInv(t) && t.todo != []
    ensures (t.todo[0].Take? || t.held.On?) && ThreadInv(After(t))
  {
  }

  lemma {:induction false} ConflictSymmetric(h: Held, g: Held)
    requires Compatible(h, g)
    ensures Compatible(g, h)
    decreases g
  {
    if g.On? {
      NoConflict(h, g);
      CompatibleBelow(h, g);
      ConflictSymmetric(h, g.below);
    }
  }

  lemma {:induction false} NoConflict(h: Held, g: Held)
    requires g.On? && Compatible(h, g)
    ensures !Conflicts(h, g.lock, g.shared)
  {
    if h.On? {
      NoConflict(h.below, g);
    }
  }

  lemma {:induction false} CompatibleBelow(h: Held, g: Held)
    requires g.On? && Compatible(h, g)
    ensures Compatible(h, g.below)
  {
    if h.On? {
      CompatibleBelow(h.below, g);
    }
  }

  lemma AfterCompatible(s: seq<Thread>, i: nat, j: nat)
    requires Inv(s) && Enabled(s, i) && j < |s| && j != i && ThreadInv(s[i])
    requires s[i].todo[0].Take? || s[i].held.On?
    ensures Compatible(After(s[i]).held, s[j].held) && Compatible(s[j].held, After(s[i]).held)
  {
    assert !Waits(s, i, j);
    assert Compatible(s[i].held, s[j].held);
    ConflictSymmetric(After(s[i]).held, s[j].held);
  }

  /** A step of an enabled thread keeps the invariant. */
  lemma StepKeeps(s: seq<Thread>, i: nat)
    requires Inv(s) && Enabled(s, i)
    ensures (s[i].todo[0].Take? || s[i].held.On?) && Inv(s[i := After(s[i])])
  {
    AfterKeeps(s[i]);
    var s' := s[i := After(s[i])];
    forall a, b | 0 <= a < |s'| && 0 <= b < |s'| && a != b
      ensures Compatible(s'[a].held, s'[b].held)
    {
      if a == i {
        AfterCompatible(s, i, b);
      } else if b == i {
        AfterCompatible(s, i, a);
      }
    }
  }

  lemma {:induction false} TopIsHighest(h: Held, l: Lock, shared: bool)
    requires Ordered(h) && Conflicts(h, l, shared)
    ensures Rank(l) <= Rank(h.lock)
  {
    if h.lock != l || (h.shared && shared) {
      TopIsHighest(h.below, l, shared);
    }
  }

  /** A thread that waits for one that waits itself wants a lower lock. */
  lemma WaitClimbs(s: seq<Thread>, i: nat, j: nat)
    requires Inv(s) && Waits(s, i, j)
    ensures s[j].todo != [] && (s[j].todo[0].Take? ==> Rank(s[j].todo[0].lock) > Rank(s[i].todo[0].lock))
  {
    assert ThreadInv(s[j]);
    TopIsHighest(s[j].held, s[i].todo[0].lock, s[i].todo[0].shared);
  }

  /** No thread asks for a lock that it holds itself. */
  lemma {:induction false} NeverTwice(h: Held, l: Lock)
    requires Ordered(h) && Climbs(l, h)
    ensures !Holds(h, l)
    decreases h
  {
    if h.On? {
      assert Rank(h.lock) < Rank(l);
      NeverTwice(h.below, l);
    }
  }

  predicate WaitsForNext(s: seq<Thread>, ts: seq<nat>, k: nat)
  {
    k + 1 < |ts| && Waits(s, ts[k], ts[k + 1])
  }

  /** Threads that wait for one another in a ring: the first is listed again at the end. */
  predicate Ring(s: seq<Thread>, ts: seq<nat>)
  {
    |ts| >= 2 && ts[|ts| - 1] == ts[0] && forall k :: 0 <= k < |ts| - 1 ==> WaitsForNext(s, ts, k)
  }

  lemma {:induction false} RingClimbs(s: seq<Thread>, ts: seq<nat>, k: nat)
    requires Inv(s) && Ring(s, ts) && 0 < k < |ts|
    ensures Waits(s, ts[0], ts[1]) && ts[k] < |s| && s[ts[k]].todo != []
    ensures s[ts[k]].todo[0].Take? ==> Rank(s[ts[k]].todo[0].lock) > Rank(s[ts[0]].todo[0].lock)
  {
    assert WaitsForNext(s, ts, 0) && WaitsForNext(s, ts, k - 1);
    WaitClimbs(s, ts[k - 1], ts[k]);
    if k > 1 {
      RingClimbs(s, ts, k - 1);
    }
  }

  /** No wait cycle, of any length. */
  lemma NoWaitCycle(s: seq<Thread>, ts: seq<nat>)
    requires Inv(s)
    ensures !Ring(s, ts)
  {
    if Ring(s, ts) {
      RingClimbs(s, ts, |ts| - 1);
    }
  }

  /** Behind any unfinished thread there is one that can go on. */
  lemma {:induction false} SomeoneCanGo(s: seq<Thread>, i: nat) returns (k: nat)
    requires Inv(s) && i < |s| && s[i].todo != []
    ensures Enabled(s, k)
    decreases if s[i].todo[0].Take? then 3 - Rank(s[i].todo[0].lock) else 0
  {
    if Enabled(s, i) {
      return i;
    }
    var j: nat :| Waits(s, i, j);
    WaitClimbs(s, i, j);
    if s[j].todo[0].Drop? {
      return j;
    }
    k := SomeoneCanGo(s, j);
  }

  // ------------------------------------------------------------------- runs

  /** `t` runs the operations `ops` one after the other, each on some path. */
  ghost predicate Program(ops: seq<Op>, t: seq<Event>)
  {
    if ops == [] then t == []
    else exists k :: 0 <= k <= |t| && IsTrace(CodeOf(ops[0]), t[..k]) && Program(ops[1..], t[k..])
  }

  lemma {:induction false} ProgramsClimb(ops: seq<Op>, t: seq<Event>)
    requires Program(ops, t)
    ensures Replay(Nothing, t) == Some(Nothing)
    decreases |ops|
  {
    if ops != [] {
      var k :| 0 <= k <= |t| && IsTrace(CodeOf(ops[0]), t[..k]) && Program(ops[1..], t[k..]);
      OperationsClimb(ops[0]);
      CheckIsSound(CodeOf(ops[0]), Nothing, t[..k]);
      ProgramsClimb(ops[1..], t[k..]);
      ReplayConcat(Nothing, t[..k], t[k..]);
      assert t[..k] + t[k..] == t;
    }
  }

  /** Any number of threads, each about to run any operations. */
  ghost predicate Initial(s: seq<Thread>, programs: seq<seq<Op>>)
  {
    |s| == |programs| && forall i :: 0 <= i < |s| ==> s[i].held == Nothing && Program(programs[i], s[i].todo)
  }

  /** An interleaving: the states it goes through, and which thread makes each step. */
  ghost predicate Run(ss: seq<seq<Thread>>, who: seq<nat>)
  {
    && |ss| == |who| + 1
    && forall n :: 0 <= n < |who| ==> StepOf(ss[n], who[n], ss[n + 1])
  }

  ghost predicate StepOf(s: seq<Thread>, i: nat, s': seq<Thread>)
  {
    Enabled(s, i) && (s[i].todo[0].Take? || s[i].held.On?) && s' == s[i := After(s[i])]
  }

  lemma {:induction false} RunKeeps(ss: seq<seq<Thread>>, who: seq<nat>, programs: seq<seq<Op>>, n: nat)
    requires Run(ss, who) && Initial(ss[0], programs) && n < |ss|
    ensures Inv(ss[n])
  {
    if n == 0 {
      forall i | 0 <= i < |ss[0]|
        ensures ThreadInv(ss[0][i])
      {
        ProgramsClimb(programs[i], ss[0][i].todo);
      }
    } else {
      RunKeeps(ss, who, programs, n - 1);
      assert StepOf(ss[n - 1], who[n - 1], ss[n]);
      StepKeeps(ss[n - 1], who[n - 1]);
    }
  }

  function Remaining(s: seq<Thread>): nat
  {
    if s == [] then 0 else |s[0].todo| + Remaining(s[1..])
  }

  lemma {:induction false} StepShortens(s: seq<Thread>, i: nat)
    requires i < |s| && s[i].todo != [] && (s[i].todo[0].Take? || s[i].held.On?)
    ensures Remaining(s[i := After(s[i])]) == Remaining(s) - 1
    decreases |s|
  {
    var s' := s[i := After(s[i])];
    if i == 0 {
      assert s'[1..] == s[1..];
    } else {
      assert s'[1..] == s[1..][i - 1 := After(s[i])];
      StepShortens(s[1..], i - 1);
    }
  }

  lemma {:induction false} RunShortens(ss: seq<seq<Thread>>, who: seq<nat>, n: nat)
    requires Run(ss, who) && n < |ss|
    ensures n + Remaining(ss[n]) == Remaining(ss[0])
  {
    if n > 0 {
      RunShortens(ss, who, n - 1);
      assert StepOf(ss[n - 1], who[n - 1], ss[n]);
      StepShortens(ss[n - 1], who[n - 1]);
    }
  }

  /**
   * Deadlock freedom: in every state of every interleaving of any number of threads
   * that run any of the operations, no threads wait for one another in a ring, no
   * thread asks for a lock it holds, and unless all have finished some thread can go
   * on. Every interleaving ends, since each step uses up one event.
   */
  lemma DeadlockFree(ss: seq<seq<Thread>>, who: seq<nat>, programs: seq<seq<Op>>, n: nat, ts: seq<nat>, i: nat)
    requires Run(ss, who) && Initial(ss[0], programs) && n < |ss| && i < |ss[n]|
    ensures !Ring(ss[n], ts)
    ensures ss[n][i].todo != [] ==> exists k: nat :: Enabled(ss[n], k)
    ensures ss[n][i].todo != [] && ss[n][i].todo[0].Take? ==> !Holds(ss[n][i].held, ss[n][i].todo[0].lock)
    ensures n + Remaining(ss[n]) == Remaining(ss[0])
  {
    RunKeeps(ss, who, programs, n);
    NoWaitCycle(ss[n], ts);
    RunShortens(ss, who, n);
    var t := ss[n][i];
    assert ThreadInv(t);
    if t.todo != [] {
      var _ := SomeoneCanGo(ss[n], i);
      if t.todo[0].Take? {
        NeverTwice(t.held, t.todo[0].lock);
      }
    }
  }
}
