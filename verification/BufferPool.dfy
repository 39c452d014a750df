/**
 * The buffer pool (src/io.c): 256 block buffers on one list in order of use, and on
 * 64 hash chains. It is a transparent cache of the disk.
 *
 * Buffers are numbered; -1 is the null pointer. Each field of the buffer structure is
 * a sequence indexed by buffer.
 */
module BufferPool {
  import opened Layout

  const POOL_SIZE := 256
  const HASH_SIZE := 64
  const NIL := -1

  function Hash(block: nat): (h: nat)
    ensures h < HASH_SIZE
  {
    block % HASH_SIZE
  }

  // ------------------------------------------------------------ the use list

  /** `order` has every buffer exactly once: `place` says where. */
  predicate Permutation(order: seq<nat>, place: seq<nat>)
  {
    && |order| == |place| == POOL_SIZE
    && (forall i :: 0 <= i < POOL_SIZE ==> order[i] < POOL_SIZE && place[order[i]] == i)
    && (forall b :: 0 <= b < POOL_SIZE ==> place[b] < POOL_SIZE && order[place[b]] == b)
  }

  function Before(s: seq<nat>, i: nat): int
  {
    if 0 < i <= |s| then s[i - 1] else NIL
  }

  function Behind(s: seq<nat>, i: nat): int
  {
    if i + 1 < |s| then s[i + 1] else NIL
  }

  /** The links spell out `order`, least recently used first. */
  predicate Linked(prev: seq<int>, next: seq<int>, head: int, tail: int, order: seq<nat>, place: seq<nat>)
  {
    && |prev| == |next| == POOL_SIZE && Permutation(order, place)
    && head == order[0] && tail == order[POOL_SIZE - 1]
    && (forall b :: 0 <= b < POOL_SIZE ==> prev[b] == Before(order, place[b]))
    && (forall b :: 0 <= b < POOL_SIZE ==> next[b] == Behind(order, place[b]))
  }

  /** The list with the entry at `i` moved to the end. */
  function Used(order: seq<nat>, i: nat): (s: seq<nat>)
    requires i < |order|
    ensures |s| == |order| && s[|s| - 1] == order[i]
    ensures forall j :: 0 <= j < i ==> s[j] == order[j]
    ensures forall j :: i <= j < |s| - 1 ==> s[j] == order[j + 1]
  {
    order[..i] + order[i + 1..] + [order[i]]
  }

  function Replaced(place: seq<nat>, i: nat): (r: seq<nat>)
    requires i < POOL_SIZE
    ensures |r| == |place|
    ensures forall b :: 0 <= b < |r| ==>
              r[b] == if place[b] < i then place[b] else if place[b] == i then POOL_SIZE - 1 else place[b] - 1
  {
    seq(|place|, b requires 0 <= b < |place| =>
      if place[b] < i then place[b] else if place[b] == i then POOL_SIZE - 1 else place[b] - 1)
  }

  lemma UsedIsPermutation(order: seq<nat>, place: seq<nat>, i: nat)
    requires Permutation(order, place) && i < |order|
    ensures Permutation(Used(order, i), Replaced(place, i))
  {
  }

  /** The updates of buffer_touch, for the buffer at place `i` of the list. */
  function NextAfter(next: seq<int>, p: int, b: nat, n: int, tail: nat): (r: seq<int>)
    requires b < |next| && tail < |next| && p < |next|
    ensures |r| == |next|
  {
    var next1 := if p >= 0 then next[p := n] else next;
    next1[b := NIL][tail := b]
  }

  function PrevAfter(prev: seq<int>, p: int, b: nat, n: int, tail: nat): (r: seq<int>)
    requires b < |prev| && n < |prev|
    ensures |r| == |prev|
  {
    var prev1 := if n >= 0 then prev[n := p] else prev;
    prev1[b := tail]
  }

  lemma NextMoved(next: seq<int>, order: seq<nat>, place: seq<nat>, i: nat, b: nat)
    requires |next| == POOL_SIZE && Permutation(order, place) && i < POOL_SIZE - 1 && b < POOL_SIZE
    requires next[b] == Behind(order, place[b])
    ensures NextAfter(next, Before(order, i), order[i], Behind(order, i), order[POOL_SIZE - 1])[b] ==
              Behind(Used(order, i), Replaced(place, i)[b])
  {
  }

  lemma PrevMoved(prev: seq<int>, order: seq<nat>, place: seq<nat>, i: nat, b: nat)
    requires |prev| == POOL_SIZE && Permutation(order, place) && i < POOL_SIZE - 1 && b < POOL_SIZE
    requires prev[b] == Before(order, place[b])
    ensures PrevAfter(prev, Before(order, i), order[i], Behind(order, i), order[POOL_SIZE - 1])[b] ==
              Before(Used(order, i), Replaced(place, i)[b])
  {
  }

  lemma EndsMoved(order: seq<nat>, place: seq<nat>, i: nat)
    requires Permutation(order, place) && i < POOL_SIZE - 1
    ensures Used(order, i)[0] == if Before(order, i) == NIL then Behind(order, i) else order[0]
    ensures order[i] < POOL_SIZE && order[POOL_SIZE - 1] < POOL_SIZE
    ensures Before(order, i) < POOL_SIZE && Behind(order, i) < POOL_SIZE
  {
  }

  lemma Moved(prev: seq<int>, next: seq<int>, head: int, tail: int, order: seq<nat>, place: seq<nat>, i: nat)
    requires Linked(prev, next, head, tail, order, place) && i < POOL_SIZE - 1
    ensures var p, b, n := Before(order, i), order[i], Behind(order, i);
            Linked(PrevAfter(prev, p, b, n, tail), NextAfter(next, p, b, n, tail), if p == NIL then n else head, b,
                   Used(order, i), Replaced(place, i))
  {
    hide NextAfter, PrevAfter, Before, Behind, Used, Replaced;
    EndsMoved(order, place, i);
    UsedIsPermutation(order, place, i);
    forall b | 0 <= b < POOL_SIZE
      ensures NextAfter(next, Before(order, i), order[i], Behind(order, i), tail)[b] ==
                Behind(Used(order, i), Replaced(place, i)[b])
      ensures PrevAfter(prev, Before(order, i), order[i], Behind(order, i), tail)[b] ==
                Before(Used(order, i), Replaced(place, i)[b])
    {
      NextMoved(next, order, place, i, b);
      PrevMoved(prev, order, place, i, b);
    }
  }

  lemma LinksOf(prev: seq<int>, next: seq<int>, head: int, tail: int, order: seq<nat>, place: seq<nat>, b: nat)
    requires Linked(prev, next, head, tail, order, place) && b < POOL_SIZE
    ensures |prev| == |next| == |order| == |place| == POOL_SIZE && Permutation(order, place)
    ensures place[b] < POOL_SIZE && order[place[b]] == b
    ensures NIL <= prev[b] == Before(order, place[b]) < POOL_SIZE && NIL <= next[b] == Behind(order, place[b]) < POOL_SIZE
    ensures 0 <= tail == order[POOL_SIZE - 1] < POOL_SIZE && 0 <= head == order[0] < POOL_SIZE
    ensures b == tail <==> place[b] == POOL_SIZE - 1
    ensures place[b] < POOL_SIZE - 1 ==> next[b] >= 0
  {
  }

  lemma NextOf(prev: seq<int>, next: seq<int>, head: int, tail: int, order: seq<nat>, place: seq<nat>, i: nat)
    requires Linked(prev, next, head, tail, order, place) && i < POOL_SIZE
    ensures |next| == |order| == |place| == POOL_SIZE && head == order[0]
    ensures order[i] < POOL_SIZE && place[order[i]] == i
    ensures next[order[i]] == if i + 1 < POOL_SIZE then order[i + 1] else NIL
  {
  }

  lemma InOrder(prev: seq<int>, next: seq<int>, order: seq<nat>)
    requires |prev| == |next| == |order| == POOL_SIZE && next[POOL_SIZE - 1] == NIL
    requires forall b :: 0 <= b < POOL_SIZE ==> order[b] == b && prev[b] == b - 1
    requires forall b :: 0 <= b < POOL_SIZE - 1 ==> next[b] == b + 1
    ensures Linked(prev, next, 0, POOL_SIZE - 1, order, order)
  {
  }

  // --------------------------------------------------------- the hash chains

  /** Where a buffer sits in its chain, for the buffers on chains. */
  datatype Chains = Chains(lists: seq<seq<nat>>, rank: seq<nat>)

  function First(c: seq<nat>): int
  {
    if c == [] then NIL else c[0]
  }

  /** Entry `i` of chain `h`: a valid buffer of that bucket that knows its place. */
  predicate OnChain(valid: seq<bool>, block: seq<nat>, ch: Chains, h: nat, i: nat)
    requires |valid| == |block| == |ch.rank| == POOL_SIZE && h < |ch.lists| && i < |ch.lists[h]|
  {
    var b := ch.lists[h][i];
    b < POOL_SIZE && valid[b] && Hash(block[b]) == h && ch.rank[b] == i
  }

  /** A valid buffer is on the chain of its bucket, and its link leads to the next one there. */
  predicate InPlace(hashNext: seq<int>, block: seq<nat>, ch: Chains, b: nat)
    requires |hashNext| == |block| == |ch.rank| == POOL_SIZE && b < POOL_SIZE && |ch.lists| == HASH_SIZE
  {
    var c := ch.lists[Hash(block[b])];
    ch.rank[b] < |c| && c[ch.rank[b]] == b && hashNext[b] == Behind(c, ch.rank[b])
  }

  /** The chains hold exactly the valid buffers, each once, in the bucket of its block. */
  predicate Chained(hash: seq<int>, hashNext: seq<int>, valid: seq<bool>, block: seq<nat>, ch: Chains)
  {
    && |hash| == |ch.lists| == HASH_SIZE && |hashNext| == |valid| == |block| == |ch.rank| == POOL_SIZE
    && (forall h :: 0 <= h < HASH_SIZE ==> hash[h] == First(ch.lists[h]))
    && (forall h, i :: 0 <= h < HASH_SIZE && 0 <= i < |ch.lists[h]| ==> OnChain(valid, block, ch, h, i))
    && (forall b :: 0 <= b < POOL_SIZE && valid[b] ==> InPlace(hashNext, block, ch, b))
  }

  lemma NoChains(hash: seq<int>, hashNext: seq<int>, valid: seq<bool>, block: seq<nat>, ch: Chains)
    requires |hash| == |ch.lists| == HASH_SIZE && |hashNext| == |valid| == |block| == |ch.rank| == POOL_SIZE
    requires forall h :: 0 <= h < HASH_SIZE ==> hash[h] == NIL && ch.lists[h] == []
    requires forall b :: 0 <= b < POOL_SIZE ==> !valid[b]
    ensures Chained(hash, hashNext, valid, block, ch)
  {
  }

  /** The chains without buffer `v`. */
  function Without(valid: seq<bool>, block: seq<nat>, ch: Chains, v: nat): (r: Chains)
    requires |valid| == |block| == |ch.rank| == POOL_SIZE && v < POOL_SIZE && |ch.lists| == HASH_SIZE
    requires ch.rank[v] < |ch.lists[Hash(block[v])]|
    ensures |r.lists| == HASH_SIZE && |r.rank| == POOL_SIZE
    ensures forall b :: 0 <= b < POOL_SIZE ==>
              r.rank[b] == if valid[b] && Hash(block[b]) == Hash(block[v]) && ch.rank[b] > ch.rank[v]
                           then ch.rank[b] - 1 else ch.rank[b]
  {
    var h := Hash(block[v]);
    var c, k := ch.lists[h], ch.rank[v];
    Chains(ch.lists[h := c[..k] + c[k + 1..]],
           seq(POOL_SIZE, b requires 0 <= b < POOL_SIZE =>
             if valid[b] && Hash(block[b]) == h && ch.rank[b] > k then ch.rank[b] - 1 else ch.rank[b]))
  }

  /** The hash links after buffer `v` was cut out of its chain. */
  function Cut(hashNext: seq<int>, block: seq<nat>, ch: Chains, v: nat): (r: seq<int>)
    requires |hashNext| == |block| == |ch.rank| == POOL_SIZE && v < POOL_SIZE && |ch.lists| == HASH_SIZE
    ensures |r| == POOL_SIZE
  {
    var p := Before(ch.lists[Hash(block[v])], ch.rank[v]);
    (if 0 <= p < POOL_SIZE then hashNext[p := hashNext[v]] else hashNext)[v := NIL]
  }

  lemma CutInPlace(hash: seq<int>, hashNext: seq<int>, valid: seq<bool>, block: seq<nat>, ch: Chains, v: nat, b: nat)
    requires Chained(hash, hashNext, valid, block, ch) && v < POOL_SIZE && valid[v] && InPlace(hashNext, block, ch, v)
    requires b < POOL_SIZE && b != v && valid[b]
    ensures InPlace(Cut(hashNext, block, ch, v), block, Without(valid, block, ch, v), b)
  {
    assert InPlace(hashNext, block, ch, b);
    if ch.rank[v] > 0 {
      assert OnChain(valid, block, ch, Hash(block[v]), ch.rank[v] - 1);
    }
  }

  lemma CutOnChain(hash: seq<int>, hashNext: seq<int>, valid: seq<bool>, block: seq<nat>, ch: Chains, v: nat, h: nat, i: nat)
    requires Chained(hash, hashNext, valid, block, ch) && v < POOL_SIZE && valid[v] && InPlace(hashNext, block, ch, v)
    requires h < HASH_SIZE && i < |Without(valid, block, ch, v).lists[h]|
    ensures OnChain(valid[v := false], block, Without(valid, block, ch, v), h, i)
  {
    var j := if h == Hash(block[v]) && i >= ch.rank[v] then i + 1 else i;
    assert OnChain(valid, block, ch, h, j);
  }

  /** Cutting a buffer out of its chain leaves exactly the other valid ones chained. */
  lemma Unchained(hash: seq<int>, hashNext: seq<int>, valid: seq<bool>, block: seq<nat>, ch: Chains, v: nat)
    requires Chained(hash, hashNext, valid, block, ch) && v < POOL_SIZE && valid[v] && InPlace(hashNext, block, ch, v)
    ensures var hash' := if ch.rank[v] == 0 then hash[Hash(block[v]) := hashNext[v]] else hash;
            Chained(hash', Cut(hashNext, block, ch, v), valid[v := false], block, Without(valid, block, ch, v))
  {
    var ch', valid', links := Without(valid, block, ch, v), valid[v := false], Cut(hashNext, block, ch, v);
    forall h, i | 0 <= h < HASH_SIZE && 0 <= i < |ch'.lists[h]|
      ensures OnChain(valid', block, ch', h, i)
    {
      CutOnChain(hash, hashNext, valid, block, ch, v, h, i);
    }
    forall b | 0 <= b < POOL_SIZE && valid'[b]
      ensures InPlace(links, block, ch', b)
    {
      CutInPlace(hash, hashNext, valid, block, ch, v, b);
    }
  }

  /** The chains with buffer `v`, now for block `a`, in front of its bucket. */
  function WithFront(valid: seq<bool>, block: seq<nat>, ch: Chains, v: nat, a: nat): (r: Chains)
    requires |valid| == |block| == |ch.rank| == POOL_SIZE && v < POOL_SIZE && |ch.lists| == HASH_SIZE
    ensures |r.lists| == HASH_SIZE && |r.rank| == POOL_SIZE
    ensures forall b :: 0 <= b < POOL_SIZE ==>
              r.rank[b] == if b == v then 0 else if valid[b] && Hash(block[b]) == Hash(a) then ch.rank[b] + 1 else ch.rank[b]
  {
    var h := Hash(a);
    Chains(ch.lists[h := [v] + ch.lists[h]],
           seq(POOL_SIZE, b requires 0 <= b < POOL_SIZE =>
             if b == v then 0 else if valid[b] && Hash(block[b]) == h then ch.rank[b] + 1 else ch.rank[b]))
  }

  lemma PushOnChain(hash: seq<int>, hashNext: seq<int>, valid: seq<bool>, block: seq<nat>, ch: Chains, v: nat, a: nat,
                    h: nat, i: nat)
    requires Chained(hash, hashNext, valid, block, ch) && v < POOL_SIZE && !valid[v]
    requires h < HASH_SIZE && i < |WithFront(valid, block, ch, v, a).lists[h]|
    ensures OnChain(valid[v := true], block[v := a], WithFront(valid, block, ch, v, a), h, i)
  {
    if h != Hash(a) {
      assert OnChain(valid, block, ch, h, i);
    } else if i > 0 {
      assert OnChain(valid, block, ch, h, i - 1);
    }
  }

  /** Putting an invalid buffer in front of the chain of its new block. */
  lemma Pushed(hash: seq<int>, hashNext: seq<int>, valid: seq<bool>, block: seq<nat>, ch: Chains, v: nat, a: nat)
    requires Chained(hash, hashNext, valid, block, ch) && v < POOL_SIZE && !valid[v]
    ensures |hash| == HASH_SIZE && |hashNext| == |ch.rank| == POOL_SIZE && |ch.lists| == HASH_SIZE
    ensures Chained(hash[Hash(a) := v], hashNext[v := hash[Hash(a)]], valid[v := true], block[v := a],
                    WithFront(valid, block, ch, v, a))
  {
    var ch', valid', block' := WithFront(valid, block, ch, v, a), valid[v := true], block[v := a];
    var links := hashNext[v := hash[Hash(a)]];
    forall h, i | 0 <= h < HASH_SIZE && 0 <= i < |ch'.lists[h]|
      ensures OnChain(valid', block', ch', h, i)
    {
      PushOnChain(hash, hashNext, valid, block, ch, v, a, h, i);
    }
    forall b | 0 <= b < POOL_SIZE && valid'[b]
      ensures InPlace(links, block', ch', b)
    {
      assert b != v ==> InPlace(hashNext, block, ch, b);
    }
  }

  lemma UsedAtEnd(order: seq<nat>, place: seq<nat>)
    requires Permutation(order, place)
    ensures Used(order, POOL_SIZE - 1) == order && Replaced(place, POOL_SIZE - 1) == place
  {
    assert order == order[..POOL_SIZE - 1] + [order[POOL_SIZE - 1]];
  }

  // ---------------------------------------------------------------- contents

  type Disk = map<nat, Bytes>

  function At(disk: Disk, a: nat): Bytes
  {
    if a in disk then disk[a] else []
  }

  /** `cache` says which buffer is valid for a block: at most one. */
  predicate Cached(valid: seq<bool>, block: seq<nat>, cache: map<nat, nat>)
    requires |valid| == |block| == POOL_SIZE
  {
    && (forall b :: 0 <= b < POOL_SIZE && valid[b] ==> block[b] in cache && cache[block[b]] == b)
    && (forall a :: a in cache ==> cache[a] < POOL_SIZE && valid[cache[a]] && block[cache[a]] == a)
  }

  /** A valid buffer that is not dirty holds what the disk holds. */
  predicate Coherent(data: seq<Bytes>, block: seq<nat>, valid: seq<bool>, dirty: seq<bool>, disk: Disk)
    requires |data| == |block| == |valid| == |dirty| == POOL_SIZE
  {
    forall b :: 0 <= b < POOL_SIZE && valid[b] && !dirty[b] ==> data[b] == At(disk, block[b])
  }

  lemma Installed(valid: seq<bool>, block: seq<nat>, cache: map<nat, nat>, v: nat, a: nat)
    requires |valid| == |block| == POOL_SIZE && Cached(valid, block, cache) && v < POOL_SIZE && !valid[v] && a !in cache
    ensures Cached(valid[v := true], block[v := a], cache[a := v])
  {
  }

  lemma Loaded(data: seq<Bytes>, block: seq<nat>, valid: seq<bool>, dirty: seq<bool>, disk: Disk, v: nat, a: nat)
    requires |data| == |block| == |valid| == |dirty| == POOL_SIZE && Coherent(data, block, valid, dirty, disk) && v < POOL_SIZE
    ensures Coherent(data[v := At(disk, a)], block[v := a], valid[v := true], dirty[v := false], disk)
  {
  }

  lemma CachedAt(valid: seq<bool>, block: seq<nat>, cache: map<nat, nat>)
    requires |valid| == |block| == POOL_SIZE && Cached(valid, block, cache)
    ensures forall a :: a in cache ==> cache[a] < POOL_SIZE && valid[cache[a]]
  {
  }

  class Pool {
    var data: seq<Bytes>
    var block: seq<nat>
    var valid: seq<bool>
    var dirty: seq<bool>
    var refs: seq<nat>
    var hashNext: seq<int>
    var prev: seq<int>
    var next: seq<int>
    var hash: seq<int>
    var head: int
    var tail: int
    var disk: Disk
    ghost var order: seq<nat>
    ghost var place: seq<nat>
    ghost var ch: Chains
    ghost var cache: map<nat, nat>

    ghost predicate Valid()
      reads this
    {
      && |data| == |block| == |valid| == |dirty| == |refs| == POOL_SIZE
      && Linked(prev, next, head, tail, order, place)
      && Chained(hash, hashNext, valid, block, ch)
      && Cached(valid, block, cache)
      && Coherent(data, block, valid, dirty, disk)
    }

    /** What a reader of block `a` gets through the pool. */
    ghost function View(a: nat): Bytes
      requires Valid()
      reads this
    {
      if a in cache then data[cache[a]] else At(disk, a)
    }

    constructor (disk: Disk)
      ensures Valid() && this.disk == disk && cache == map[]
    {
      this.disk, head, tail := disk, NIL, NIL;
      new;
      Init();
    }

    /** lsfs_buffer_pool_init: all buffers free, listed in order; the disk is seen as it is. */
    method Init()
      modifies this
      ensures Valid() && disk == old(disk) && cache == map[]
      ensures forall b :: 0 <= b < POOL_SIZE ==> order[b] == b && refs[b] == 0
      ensures forall a: nat :: View(a) == At(disk, a)
    {
      hide Linked, Chained;
      Clear();
      LinkAll();
    }

    /** The zeroing that starts lsfs_buffer_pool_init. */
    method Clear()
      modifies this`data, this`block, this`refs, this`valid, this`dirty, this`hash, this`hashNext, this`ch, this`cache
      ensures |data| == |block| == |valid| == |dirty| == |refs| == POOL_SIZE && cache == map[]
      ensures forall b :: 0 <= b < POOL_SIZE ==> !valid[b] && refs[b] == 0
      ensures Chained(hash, hashNext, valid, block, ch)
    {
      hide Chained;
      data, block, refs := seq(POOL_SIZE, _ => []), seq(POOL_SIZE, _ => 0), seq(POOL_SIZE, _ => 0);
      valid, dirty := seq(POOL_SIZE, _ => false), seq(POOL_SIZE, _ => false);
      hash, hashNext := seq(HASH_SIZE, _ => NIL), seq(POOL_SIZE, _ => NIL);
      ch, cache := Chains(seq(HASH_SIZE, _ => []), seq(POOL_SIZE, _ => 0)), map[];
      NoChains(hash, hashNext, valid, block, ch);
    }

    /** The loop of lsfs_buffer_pool_init. */
    method LinkAll()
      modifies this`prev, this`next, this`head, this`tail, this`order, this`place
      ensures Linked(prev, next, head, tail, order, place)
      ensures forall b :: 0 <= b < POOL_SIZE ==> order[b] == b
    {
      hide Linked;
      prev, next, head, tail := seq(POOL_SIZE, _ => NIL), seq(POOL_SIZE, _ => NIL), NIL, NIL;
      var i := 0;
      while i < POOL_SIZE
        invariant 0 <= i <= POOL_SIZE && |prev| == |next| == POOL_SIZE
        invariant i > 0 ==> head == 0
        invariant forall b :: 0 <= b < i ==> prev[b] == b - 1
        invariant forall b :: 0 <= b < i - 1 ==> next[b] == b + 1
        invariant i == POOL_SIZE ==> tail == POOL_SIZE - 1 && next[POOL_SIZE - 1] == NIL
      {
        if i == 0 {
          head, prev := i, prev[i := NIL];
        } else {
          prev := prev[i := i - 1];
          next := next[i - 1 := i];
        }
        if i == POOL_SIZE - 1 {
          tail, next := i, next[i := NIL];
        }
        i := i + 1;
      }
      order, place := seq(POOL_SIZE, j requires 0 <= j => j), seq(POOL_SIZE, j requires 0 <= j => j);
      InOrder(prev, next, order);
    }

    /** buffer_touch: moves a buffer to the recently used end of the list. */
    method Touch(b: nat)
      requires b < POOL_SIZE && Linked(prev, next, head, tail, order, place)
      modifies this`prev, this`next, this`head, this`tail, this`order, this`place
      ensures Linked(prev, next, head, tail, order, place)
      ensures order == Used(old(order), old(place)[b])
    {
      hide Linked, Permutation, Before, Behind, Used, Replaced;
      LinksOf(prev, next, head, tail, order, place, b);
      ghost var i := place[b];
      if b == tail {
        UsedAtEnd(order, place);
        return;
      }
      Moved(prev, next, head, tail, order, place, i);
      var p, n, t := prev[b], next[b], tail;
      if p != NIL {
        next := next[p := n];
      } else {
        head := n;
      }
      if n != NIL {
        prev := prev[n := p];
      }
      prev, next := prev[b := t], next[b := NIL];
      if t != NIL {
        next := next[t := b];
      }
      tail := b;
      order, place := Used(order, i), Replaced(place, i);
    }

    /** The walk of lsfs_buffer_get along the chain of a block. */
    method Find(a: nat) returns (b: int)
      requires |block| == |valid| == POOL_SIZE
      requires Chained(hash, hashNext, valid, block, ch) && Cached(valid, block, cache)
      ensures b == if a in cache then cache[a] else NIL
    {
      ghost var c := ch.lists[Hash(a)];
      ghost var i: nat := 0;
      b := hash[Hash(a)];
      assert a in cache ==> InPlace(hashNext, block, ch, cache[a]);
      while b != NIL
        invariant i <= |c| && b == if i < |c| then c[i] else NIL
        invariant forall j :: 0 <= j < i ==> c[j] < POOL_SIZE && block[c[j]] != a
        decreases |c| - i
      {
        assert OnChain(valid, block, ch, Hash(a), i);
        if valid[b] && block[b] == a {
          return;
        }
        assert InPlace(hashNext, block, ch, b);
        b := hashNext[b];
        i := i + 1;
      }
    }

    /** The walk of buffer_evict that takes a valid buffer off its chain and makes it invalid. */
    method Unlink(v: nat)
      requires |block| == |valid| == POOL_SIZE && v < POOL_SIZE && valid[v]
      requires Chained(hash, hashNext, valid, block, ch)
      modifies this`hash, this`hashNext, this`valid, this`ch
      ensures Chained(hash, hashNext, valid, block, ch) && valid == old(valid)[v := false]
    {
      var h := Hash(block[v]);
      ghost var c := ch.lists[h];
      assert InPlace(hashNext, block, ch, v);
      Unchained(hash, hashNext, valid, block, ch, v);
      ghost var ch' := Without(valid, block, ch, v);
      ghost var i: nat := 0;
      var p, b := NIL, hash[h];
      while b != v
        invariant i <= ch.rank[v] && b == c[i] && NIL <= p == Before(c, i) < POOL_SIZE
        decreases ch.rank[v] - i
      {
        assert OnChain(valid, block, ch, h, i);
        assert InPlace(hashNext, block, ch, b);
        p, b := b, hashNext[b];
        i := i + 1;
      }
      assert OnChain(valid, block, ch, h, i);
      if p == NIL {
        hash := hash[h := hashNext[v]];
      } else {
        hashNext := hashNext[p := hashNext[v]];
      }
      valid, hashNext, ch := valid[v := false], hashNext[v := NIL], ch';
    }

    /** The search of buffer_evict: the least recently used buffer that nobody holds. */
    method Victim() returns (v: int)
      requires |refs| == POOL_SIZE && Linked(prev, next, head, tail, order, place)
      ensures NIL <= v < POOL_SIZE
      ensures v == NIL <==> forall b :: 0 <= b < POOL_SIZE ==> refs[b] > 0
      ensures v != NIL ==> refs[v] == 0 && forall j :: 0 <= j < place[v] ==> refs[order[j]] > 0
    {
      hide Linked;
      v := head;
      ghost var i: nat := 0;
      NextOf(prev, next, head, tail, order, place, 0);
      while v != NIL
        invariant i <= POOL_SIZE && v == if i < POOL_SIZE then order[i] else NIL
        invariant forall j :: 0 <= j < i ==> order[j] < POOL_SIZE && refs[order[j]] > 0
        decreases POOL_SIZE - i
      {
        NextOf(prev, next, head, tail, order, place, i);
        if refs[v] == 0 {
          return;
        }
        v := next[v];
        i := i + 1;
      }
      forall b | 0 <= b < POOL_SIZE
        ensures refs[b] > 0
      {
        LinksOf(prev, next, head, tail, order, place, b);
        assert refs[order[place[b]]] > 0;
      }
    }

    /** Writes a dirty buffer back; if the disk refuses, nothing happens. */
    method WriteBack(b: nat, writeOk: bool)
      requires Valid() && b < POOL_SIZE && valid[b] && dirty[b]
      modifies this`disk, this`dirty
      ensures Valid()
      ensures disk == if writeOk then old(disk)[block[b] := data[b]] else old(disk)
      ensures dirty == if writeOk then old(dirty)[b := false] else old(dirty)
      ensures forall a: nat :: View(a) == old(View(a))
    {
      if writeOk {
        hide Linked, Chained;
        disk := disk[block[b] := data[b]];
        dirty := dirty[b := false];
      }
    }

    /** The last part of buffer_evict: takes a buffer off its chain and makes it invalid. */
    method Release(v: nat)
      requires Valid() && v < POOL_SIZE
      modifies this`dirty, this`valid, this`hash, this`hashNext, this`ch, this`cache
      ensures Valid()
      ensures valid == old(valid)[v := false] && dirty == old(dirty)[v := false]
      ensures cache == if old(valid[v]) then old(cache) - {block[v]} else old(cache)
      ensures forall a: nat :: View(a) == if old(valid[v]) && a == block[v] then At(disk, a) else old(View(a))
    {
      hide Linked, Chained;
      if valid[v] {
        Unlink(v);
        cache := cache - {block[v]};
      } else {
        InvalidLink(hash, hashNext, valid, block, ch, v);
        valid, hashNext := valid[v := false], hashNext[v := NIL];
      }
      dirty := dirty[v := false];
    }

    /**
     * buffer_evict: frees the least recently used buffer that nobody holds. The view of
     * the block it held changes exactly if it was dirty, with contents of its own, and the
     * disk refused them.
     */
    method Evict(writeOk: bool) returns (v: int)
      requires Valid()
      modifies this`disk, this`dirty, this`valid, this`hash, this`hashNext, this`ch, this`cache
      ensures Valid() && NIL <= v < POOL_SIZE
      ensures v == NIL <==> forall b :: 0 <= b < POOL_SIZE ==> refs[b] > 0
      ensures v == NIL ==> disk == old(disk) && dirty == old(dirty) && valid == old(valid) && cache == old(cache)
      ensures v != NIL ==>
                && refs[v] == 0 && (forall j :: 0 <= j < place[v] ==> refs[order[j]] > 0)
                && valid == old(valid)[v := false] && dirty == old(dirty)[v := false]
                && cache == (if old(valid[v]) then old(cache) - {block[v]} else old(cache))
                && ((forall a: nat :: View(a) == old(View(a))) <==>
                      !old(valid[v]) || !old(dirty[v]) || writeOk || data[v] == At(old(disk), block[v]))
    {
      hide Linked, Chained;
      v := Victim();
      if v == NIL {
        return;
      }
      if dirty[v] && valid[v] {
        WriteBack(v, writeOk);
      }
      Release(v);
      assert old(valid[v]) ==> old(View(block[v])) == data[v];
    }

    /** Fills an invalid buffer with a block from disk and puts it on its chain. */
    method Install(v: nat, a: nat)
      requires Valid() && v < POOL_SIZE && !valid[v] && a !in cache
      modifies this`data, this`block, this`valid, this`dirty, this`refs, this`hash, this`hashNext, this`ch, this`cache
      ensures Valid()
      ensures block == old(block)[v := a] && valid == old(valid)[v := true] && dirty == old(dirty)[v := false]
      ensures refs == old(refs)[v := 1] && cache == old(cache)[a := v] && data == old(data)[v := At(disk, a)]
      ensures forall x: nat :: View(x) == old(View(x))
    {
      hide Linked, Chained, Cached, Coherent;
      Pushed(hash, hashNext, valid, block, ch, v, a);
      Installed(valid, block, cache, v, a);
      Loaded(data, block, valid, dirty, disk, v, a);
      CachedAt(valid, block, cache);
      data, block, valid, dirty, refs := data[v := At(disk, a)], block[v := a], valid[v := true], dirty[v := false], refs[v := 1];
      hashNext := hashNext[v := hash[Hash(a)]];
      hash := hash[Hash(a) := v];
      ch, cache := WithFront(old(valid), old(block), ch, v, a), cache[a := v];
    }

    /** The part of lsfs_buffer_get for a block that is not cached. */
    method Fetch(a: nat, readOk: bool, writeOk: bool) returns (b: int)
      requires Valid() && a !in cache
      modifies this`data, this`block, this`valid, this`dirty, this`refs, this`hash, this`hashNext, this`ch, this`cache, this`disk
      ensures Valid() && NIL <= b < POOL_SIZE
      ensures b == NIL <==> (forall x :: 0 <= x < POOL_SIZE ==> old(refs)[x] > 0) || !readOk
      ensures b == NIL ==> refs == old(refs)
      ensures b != NIL ==>
                && valid[b] && block[b] == a && a in cache && cache[a] == b && refs == old(refs)[b := 1]
                && old(refs)[b] == 0 && forall j :: 0 <= j < place[b] ==> old(refs)[order[j]] > 0
      ensures forall x :: 0 <= x < POOL_SIZE && old(refs)[x] > 0 ==>
                valid[x] == old(valid)[x] && block[x] == old(block)[x] && data[x] == old(data)[x] && dirty[x] == old(dirty)[x]
      ensures writeOk ==> forall x: nat :: View(x) == old(View(x))
    {
      hide Linked, Chained, Coherent, Cached;
      b := Evict(writeOk);
      if b == NIL {
        return;
      }
      if !readOk {
        return NIL;
      }
      Install(b, a);
    }

    /**
     * lsfs_buffer_get: a buffer with the block's contents, held once more and most recently
     * used, or null if the block is not cached and every buffer is held or the read fails.
     * Only the least recently used buffer that nobody holds may lose its block.
     */
    method Get(a: nat, readOk: bool, writeOk: bool) returns (b: int)
      requires Valid()
      modifies this
      ensures Valid()
      ensures b == NIL <==> a !in old(cache) && ((forall x :: 0 <= x < POOL_SIZE ==> old(refs)[x] > 0) || !readOk)
      ensures b != NIL ==>
                && 0 <= b < POOL_SIZE && valid[b] && block[b] == a && a in cache && cache[a] == b && data[b] == View(a)
                && refs == old(refs)[b := old(refs)[b] + 1] && order == Used(old(order), old(place)[b])
      ensures b == NIL ==> refs == old(refs) && order == old(order) && place == old(place)
      ensures forall x :: 0 <= x < POOL_SIZE && old(refs)[x] > 0 ==>
                valid[x] == old(valid)[x] && block[x] == old(block)[x] && data[x] == old(data)[x] && dirty[x] == old(dirty)[x]
      ensures a !in old(cache) && b != NIL ==>
                old(refs)[b] == 0 && forall j :: 0 <= j < old(place)[b] ==> old(refs)[old(order)[j]] > 0
      ensures a in old(cache) ==> b == old(cache)[a] && unchanged(`valid, `block, `data, `dirty, `cache, `disk)
      ensures writeOk || a in old(cache) ==> forall x: nat :: View(x) == old(View(x))
    {
      hide Linked, Chained, Coherent, Used;
      b := Find(a);
      if b != NIL {
        refs := refs[b := refs[b] + 1];
        LinksOf(prev, next, head, tail, order, place, b);
        Touch(b);
        return;
      }
      b := Fetch(a, readOk, writeOk);
      if b != NIL {
        LinksOf(prev, next, head, tail, order, place, b);
        label fetched:
        Touch(b);
        assert forall x: nat :: View(x) == old@fetched(View(x));
      }
    }

    /** lsfs_buffer_put: gives a buffer back; an extra call is ignored. */
    method Put(b: nat)
      requires Valid() && b < POOL_SIZE
      modifies this`refs
      ensures Valid() && refs == if old(refs)[b] > 0 then old(refs)[b := old(refs)[b] - 1] else old(refs)
      ensures forall x: nat :: View(x) == old(View(x))
    {
      if refs[b] > 0 {
        refs := refs[b := refs[b] - 1];
      }
    }

    /** What the holder of a buffer does to change its block. */
    method Modify(b: nat, d: Bytes)
      requires Valid() && b < POOL_SIZE && valid[b] && refs[b] > 0
      modifies this`data, this`dirty
      ensures Valid()
      ensures forall x: nat :: View(x) == if x == block[b] then d else old(View(x))
    {
      hide Linked, Chained;
      data, dirty := data[b := d], dirty[b := true];
    }

    /** lsfs_buffer_flush: writes every dirty buffer back; those that the disk refuses stay dirty. */
    method Flush(writeOk: nat -> bool) returns (ok: bool)
      requires Valid()
      modifies this`disk, this`dirty
      ensures Valid()
      ensures ok == forall b :: 0 <= b < POOL_SIZE && valid[b] && old(dirty)[b] ==> writeOk(block[b])
      ensures forall b :: 0 <= b < POOL_SIZE ==>
                dirty[b] == (old(dirty)[b] && !(valid[b] && writeOk(block[b])))
      ensures forall x: nat :: View(x) == old(View(x))
      ensures ok ==> forall x: nat :: View(x) == At(disk, x)
    {
      hide Linked, Chained;
      ok := true;
      var i := 0;
      while i < POOL_SIZE
        invariant 0 <= i <= POOL_SIZE && Valid()
        invariant ok == forall b :: 0 <= b < i && valid[b] && old(dirty)[b] ==> writeOk(block[b])
        invariant forall b :: 0 <= b < i ==> dirty[b] == (old(dirty)[b] && !(valid[b] && writeOk(block[b])))
        invariant forall b :: i <= b < POOL_SIZE ==> dirty[b] == old(dirty)[b]
        invariant forall x: nat :: View(x) == old(View(x))
      {
        if valid[i] && dirty[i] {
          WriteBack(i, writeOk(block[i]));
          if !writeOk(block[i]) {
            ok := false;
          }
        }
        i := i + 1;
      }
    }
  }

  lemma InvalidLink(hash: seq<int>, hashNext: seq<int>, valid: seq<bool>, block: seq<nat>, ch: Chains, v: nat)
    requires Chained(hash, hashNext, valid, block, ch) && v < POOL_SIZE && !valid[v]
    ensures |hashNext| == POOL_SIZE && Chained(hash, hashNext[v := NIL], valid[v := false], block, ch)
  {
    var links := hashNext[v := NIL];
    assert valid[v := false] == valid;
    forall b | 0 <= b < POOL_SIZE && valid[b]
      ensures InPlace(links, block, ch, b)
    {
      assert InPlace(hashNext, block, ch, b);
    }
  }
}
