/**
 * Byte-range reads and writes (the loops of lsfs_op_read and lsfs_op_write in
 * src/fuse_ops.c) over a store of blocks: the file behaves as a byte string.
 */
module ByteRange {
  import opened Layout

  type Store = map<nat, Bytes>

  predicate WholeBlocks(m: Store)
  {
    forall i :: i in m ==> |m[i]| == BLOCK_SIZE
  }

  /** The byte at a position; blocks that were never written are zero. */
  function ByteAt(m: Store, p: nat): Byte
    requires WholeBlocks(m)
  {
    if p / BLOCK_SIZE in m then m[p / BLOCK_SIZE][p % BLOCK_SIZE] else 0
  }

  lemma Position(idx: nat, j: nat)
    requires j < BLOCK_SIZE
    ensures (BLOCK_SIZE * idx + j) / BLOCK_SIZE == idx && (BLOCK_SIZE * idx + j) % BLOCK_SIZE == j
  {
  }

  lemma Parts(p: nat)
    ensures p == BLOCK_SIZE * (p / BLOCK_SIZE) + p % BLOCK_SIZE
  {
  }

  // ---------------------------------------------------------- the byte string

  /** `s` with `d` put at `off`, zeros filling a gap. */
  function Splice(s: Bytes, off: nat, d: Bytes): (r: Bytes)
    ensures |r| == if off + |d| > |s| then off + |d| else |s|
    ensures forall p :: 0 <= p < |r| ==>
              r[p] == if off <= p < off + |d| then d[p - off] else if p < |s| then s[p] else 0
  {
    if off + |d| <= |s| then s[..off] + d + s[off + |d|..]
    else if off <= |s| then s[..off] + d
    else s + seq(off - |s|, _ => 0) + d
  }

  /** Up to `n` bytes from `off`, clipped to the end. */
  function Slice(s: Bytes, off: nat, n: nat): Bytes
  {
    if off >= |s| then [] else s[off..Min(off + n, |s|)]
  }

  datatype Edit = Edit(off: nat, data: Bytes)

  predicate Covers(w: Edit, p: nat)
  {
    w.off <= p < w.off + |w.data|
  }

  /** The string after a run of writes. */
  function Replay(s: Bytes, ws: seq<Edit>): Bytes
  {
    if ws == [] then s
    else
      var w := ws[|ws| - 1];
      Splice(Replay(s, ws[..|ws| - 1]), w.off, w.data)
  }

  /** The last of the first `n` writes that covers a position, or -1. */
  function LastCover(ws: seq<Edit>, n: nat, p: nat): (k: int)
    requires n <= |ws|
    ensures -1 <= k < n && (k >= 0 ==> Covers(ws[k], p)) && forall j :: k < j < n ==> !Covers(ws[j], p)
  {
    if n == 0 then -1 else if Covers(ws[n - 1], p) then n - 1 else LastCover(ws, n - 1, p)
  }

  /** After any run of writes a byte is what the last write over it put there, or what it was, or zero in a gap. */
  lemma {:induction false} LastWriteWins(s: Bytes, ws: seq<Edit>, p: nat)
    requires p < |Replay(s, ws)|
    ensures var k := LastCover(ws, |ws|, p);
            Replay(s, ws)[p] == if k >= 0 then ws[k].data[p - ws[k].off] else if p < |s| then s[p] else 0
    decreases |ws|
  {
    hide LastCover, Splice;
    if ws == [] {
      NoCover(p);
    } else {
      var n := |ws| - 1;
      CoverStep(ws, p);
      if p < |Replay(s, ws[..n])| {
        LastWriteWins(s, ws[..n], p);
      } else if !Covers(ws[n], p) {
        NotCovered(s, ws[..n], p);
      }
    }
  }

  lemma NoCover(p: nat)
    ensures LastCover([], 0, p) == -1
  {
  }

  lemma CoverStep(ws: seq<Edit>, p: nat)
    requires ws != []
    ensures var n := |ws| - 1;
            LastCover(ws, |ws|, p) == if Covers(ws[n], p) then n else LastCover(ws[..n], n, p)
  {
    SameCover(ws, |ws| - 1, p);
  }

  lemma {:induction false} SizeAfter(s: Bytes, ws: seq<Edit>)
    ensures |Replay(s, ws)| >= |s|
    ensures forall j :: 0 <= j < |ws| ==> |Replay(s, ws)| >= ws[j].off + |ws[j].data|
    decreases |ws|
  {
    if ws != [] {
      SizeAfter(s, ws[..|ws| - 1]);
    }
  }

  lemma {:induction false} SameCover(ws: seq<Edit>, n: nat, p: nat)
    requires n <= |ws|
    ensures LastCover(ws[..n], n, p) == LastCover(ws, n, p)
  {
    CoverOfPrefix(ws, ws[..n], n, p);
  }

  lemma {:induction false} CoverOfPrefix(ws: seq<Edit>, xs: seq<Edit>, n: nat, p: nat)
    requires n <= |xs| && xs <= ws
    ensures LastCover(xs, n, p) == LastCover(ws, n, p)
  {
    if n > 0 {
      CoverOfPrefix(ws, xs, n - 1, p);
    }
  }

  lemma NotCovered(s: Bytes, ws: seq<Edit>, p: nat)
    requires p >= |Replay(s, ws)|
    ensures LastCover(ws, |ws|, p) == -1 && p >= |s|
  {
    SizeAfter(s, ws);
  }

  // ------------------------------------------------------------------- a file

  /** The bytes of a file of `size` bytes. */
  function String(m: Store, size: nat): (s: Bytes)
    requires WholeBlocks(m)
    ensures |s| == size && forall p :: 0 <= p < size ==> s[p] == ByteAt(m, p)
  {
    seq(size, p requires 0 <= p => ByteAt(m, p))
  }

  /** Block `idx` with `k` bytes of `data` from `n` on put at `o`, over what was there or over zeros. */
  predicate Overwritten(b: Bytes, m: Store, idx: nat, o: nat, data: Bytes, n: nat, k: nat, kept: bool)
    requires WholeBlocks(m) && n + k <= |data|
  {
    && |b| == BLOCK_SIZE
    && forall j :: 0 <= j < BLOCK_SIZE ==>
         b[j] == if o <= j < o + k then data[n + j - o] else if kept then ByteAt(m, BLOCK_SIZE * idx + j) else 0
  }

  /** What storing an overwritten block does to every byte of the file. */
  lemma BlockWritten(m: Store, off: nat, data: Bytes, n: nat, k: nat, b: Bytes, p: nat, kept: bool)
    requires WholeBlocks(m) && k > 0 && n + k <= |data| && k <= BLOCK_SIZE - (off + n) % BLOCK_SIZE
    requires Overwritten(b, m, (off + n) / BLOCK_SIZE, (off + n) % BLOCK_SIZE, data, n, k, kept)
    ensures var idx := (off + n) / BLOCK_SIZE;
            ByteAt(m[idx := b], p) == if off + n <= p < off + n + k then data[p - off]
                                      else if p / BLOCK_SIZE == idx && !kept then 0
                                      else ByteAt(m, p)
  {
    Parts(p);
    Parts(off + n);
  }

  /** Block `idx` has a byte among the `n` from `off` on. */
  predicate Touches(off: nat, n: nat, idx: nat)
  {
    n > 0 && off / BLOCK_SIZE <= idx <= (off + n - 1) / BLOCK_SIZE
  }

  /** What the first `n` bytes of a write make of a byte; a block that cannot be read back is filled up with zeros. */
  function After(m: Store, off: nat, data: Bytes, n: nat, readOk: nat -> bool, p: nat): Byte
    requires WholeBlocks(m) && n <= |data|
  {
    if off <= p < off + n then data[p - off]
    else if Touches(off, n, p / BLOCK_SIZE) && !Readable(readOk, p / BLOCK_SIZE) then 0
    else ByteAt(m, p)
  }

  predicate Readable(readOk: nat -> bool, idx: nat)
  {
    idx < READ_BLOCKS && readOk(idx)
  }

  predicate Writable(writeOk: nat -> bool, idx: nat)
  {
    idx < MAPPED_BLOCKS && writeOk(idx)
  }

  lemma AfterNext(m: Store, m': Store, off: nat, data: Bytes, n: nat, k: nat, readOk: nat -> bool, p: nat, kept: bool)
    requires WholeBlocks(m) && WholeBlocks(m') && n + k <= |data| && 0 < k <= BLOCK_SIZE - (off + n) % BLOCK_SIZE
    requires n == 0 || (off + n) % BLOCK_SIZE == 0
    requires kept == Readable(readOk, (off + n) / BLOCK_SIZE) || k == BLOCK_SIZE
    requires ByteAt(m', p) == if off + n <= p < off + n + k then data[p - off]
                              else if p / BLOCK_SIZE == (off + n) / BLOCK_SIZE && !kept then 0
                              else After(m, off, data, n, readOk, p)
    ensures ByteAt(m', p) == After(m, off, data, n + k, readOk, p)
  {
    Parts(p);
    Parts(off);
    Parts(off + n);
    Parts(off + n + k - 1);
    if n > 0 {
      Parts(off + n - 1);
    }
  }

  /** A write whose blocks can all be read back splices its bytes into the file. */
  lemma AfterIsSplice(m: Store, m': Store, size: nat, off: nat, data: Bytes, n: nat, readOk: nat -> bool)
    requires WholeBlocks(m) && WholeBlocks(m') && n <= |data|
    requires forall p: nat :: ByteAt(m', p) == After(m, off, data, n, readOk, p)
    requires forall p: nat :: p >= size ==> ByteAt(m, p) == 0
    requires forall idx :: Touches(off, n, idx) ==> Readable(readOk, idx)
    ensures String(m', if off + n > size then off + n else size) == Splice(String(m, size), off, data[..n])
  {
    var size' := if off + n > size then off + n else size;
    forall p | 0 <= p < size'
      ensures String(m', size')[p] == Splice(String(m, size), off, data[..n])[p]
    {
      assert ByteAt(m', p) == After(m, off, data, n, readOk, p);
    }
  }

  class File {
    var blocks: Store
    var size: nat

    ghost predicate Valid()
      reads this
    {
      WholeBlocks(blocks) && forall p: nat :: p >= size ==> ByteAt(blocks, p) == 0
    }

    /** An empty file. */
    constructor ()
      ensures Valid() && Content() == []
    {
      blocks, size := map[], 0;
    }

    ghost function Content(): Bytes
      requires Valid()
      reads this
    {
      String(blocks, size)
    }

    /** lsfs_inode_read_block: a block that was never written reads as zeros. */
    method LoadBlock(idx: nat, buf: array<Byte>, readOk: nat -> bool) returns (ok: bool)
      requires WholeBlocks(blocks) && buf.Length == BLOCK_SIZE
      modifies buf
      ensures ok == Readable(readOk, idx)
      ensures ok ==> forall j :: 0 <= j < BLOCK_SIZE ==> buf[j] == ByteAt(blocks, BLOCK_SIZE * idx + j)
    {
      if idx >= READ_BLOCKS || !readOk(idx) {
        return false;
      }
      forall j: nat | j < BLOCK_SIZE
        ensures ByteAt(blocks, BLOCK_SIZE * idx + j) == if idx in blocks then blocks[idx][j] else 0
      {
        Position(idx, j);
      }
      forall j | 0 <= j < BLOCK_SIZE {
        buf[j] := if idx in blocks then blocks[idx][j] else 0;
      }
      return true;
    }

    /** The block that a write is about to store, over the old contents unless it is overwritten whole. */
    method PrepareBlock(idx: nat, o: nat, data: Bytes, n: nat, k: nat, buf: array<Byte>, readOk: nat -> bool)
      requires WholeBlocks(blocks) && buf.Length == BLOCK_SIZE && n + k <= |data| && o + k <= BLOCK_SIZE
      modifies buf
      ensures Overwritten(buf[..], blocks, idx, o, data, n, k, k == BLOCK_SIZE || Readable(readOk, idx))
    {
      if k < BLOCK_SIZE {
        var ok := LoadBlock(idx, buf, readOk);
        if !ok {
          forall j | 0 <= j < BLOCK_SIZE {
            buf[j] := 0;
          }
        }
      }
      forall j | o <= j < o + k {
        buf[j] := data[n + j - o];
      }
    }

    /**
     * lsfs_op_write: stores whole blocks until one fails, and reports how far it came.
     * Exactly those bytes change, if the blocks they lie in can be read back.
     */
    method Write(off: nat, data: Bytes, readOk: nat -> bool, writeOk: nat -> bool) returns (n: nat)
      requires Valid()
      modifies this
      ensures Valid() && n <= |data|
      ensures forall idx :: Touches(off, n, idx) ==> Writable(writeOk, idx)
      ensures n < |data| ==> !Writable(writeOk, (off + n) / BLOCK_SIZE) && (n == 0 || (off + n) % BLOCK_SIZE == 0)
      ensures forall p: nat :: ByteAt(blocks, p) == After(old(blocks), off, data, n, readOk, p)
      ensures size == if off + n > old(size) then off + n else old(size)
      ensures (forall idx :: Touches(off, n, idx) ==> Readable(readOk, idx)) ==>
                Content() == Splice(old(Content()), off, data[..n])
    {
      hide Touches, After, ByteAt, Overwritten, Splice, String;
      n := 0;
      var buf := new Byte[BLOCK_SIZE](_ => 0);
      ghost var m := blocks;
      NothingTouched(off);
      AfterNone(m, off, data, readOk);
      while n < |data|
        invariant n <= |data| && WholeBlocks(blocks) && size == old(size) && m == old(blocks)
        invariant n == 0 || n == |data| || (off + n) % BLOCK_SIZE == 0
        invariant forall p: nat :: ByteAt(blocks, p) == After(m, off, data, n, readOk, p)
        invariant forall idx :: Touches(off, n, idx) ==> Writable(writeOk, idx)
      {
        var idx, o := (off + n) / BLOCK_SIZE, (off + n) % BLOCK_SIZE;
        var k := Min(BLOCK_SIZE - o, |data| - n);
        PrepareBlock(idx, o, data, n, k, buf, readOk);
        if idx >= MAPPED_BLOCKS || !writeOk(idx) {
          break;
        }
        ghost var m1 := blocks;
        OverwrittenWhole(buf[..], m1, idx, o, data, n, k, k == BLOCK_SIZE || Readable(readOk, idx));
        blocks := blocks[idx := buf[..]];
        forall p: nat
          ensures ByteAt(blocks, p) == After(m, off, data, n + k, readOk, p)
        {
          BlockWritten(m1, off, data, n, k, buf[..], p, k == BLOCK_SIZE || Readable(readOk, idx));
          AfterNext(m, blocks, off, data, n, k, readOk, p, k == BLOCK_SIZE || Readable(readOk, idx));
        }
        TouchesNext(off, n, k);
        n := n + k;
      }
      if off + n > size {
        size := off + n;
      }
      AfterBeyond(m, old(size), off, data, n, readOk);
      if forall idx :: Touches(off, n, idx) ==> Readable(readOk, idx) {
        AfterIsSplice(m, blocks, old(size), off, data, n, readOk);
      }
    }

    /** lsfs_op_read: the part of the file asked for, clipped to its end, up to the first block that cannot be read. */
    method Read(off: nat, n: nat, readOk: nat -> bool) returns (r: Bytes)
      requires Valid()
      ensures r <= Slice(Content(), off, n)
      ensures |r| < |Slice(Content(), off, n)| ==> !Readable(readOk, (off + |r|) / BLOCK_SIZE)
      ensures (forall idx :: Touches(off, |r|, idx) ==> Readable(readOk, idx))
    {
      hide Touches, ByteAt, WholeBlocks, Slice, String;
      r := [];
      NothingTouched(off);
      if off >= size {
        SliceNone(Content(), off, n);
        return;
      }
      var len := if off + n > size then size - off else n;
      var done := 0;
      var buf := new Byte[BLOCK_SIZE](_ => 0);
      ghost var s := Content();
      assert s[off..off] == [];
      while done < len
        invariant done <= len && r == s[off..off + done]
        invariant done == 0 || done == len || (off + done) % BLOCK_SIZE == 0
        invariant forall idx :: Touches(off, done, idx) ==> Readable(readOk, idx)
      {
        var idx, o := (off + done) / BLOCK_SIZE, (off + done) % BLOCK_SIZE;
        var k := Min(BLOCK_SIZE - o, len - done);
        var ok := LoadBlock(idx, buf, readOk);
        if !ok {
          break;
        }
        TouchesNext(off, done, k);
        Piece(blocks, size, off + done, k, buf[..]);
        var piece := buf[..][o..o + k];
        SliceNext(s, off, done, k, r, piece);
        Boundary(off, done, k, len);
        r := r + piece;
        done := done + k;
      }
      SlicePrefix(s, off, n, done);
    }
  }

  lemma SliceNone(s: Bytes, off: nat, n: nat)
    requires off >= |s|
    ensures Slice(s, off, n) == []
  {
  }

  /** A step of either loop ends at the end of a block or of the request. */
  lemma Boundary(off: nat, n: nat, k: nat, len: nat)
    requires n <= len && k == Min(BLOCK_SIZE - (off + n) % BLOCK_SIZE, len - n)
    ensures n + k == len || (off + (n + k)) % BLOCK_SIZE == 0
  {
    Parts(off + n);
    if n + k < len {
      Position((off + n) / BLOCK_SIZE + 1, 0);
    }
  }

  lemma SlicePrefix(s: Bytes, off: nat, n: nat, done: nat)
    requires off < |s| && done <= Min(n, |s| - off)
    ensures s[off..off + done] <= Slice(s, off, n) && |Slice(s, off, n)| == Min(n, |s| - off)
  {
  }

  /** Part of a block that was read, as part of the file. */
  lemma Piece(m: Store, size: nat, p: nat, k: nat, b: Bytes)
    requires WholeBlocks(m) && |b| == BLOCK_SIZE && k <= BLOCK_SIZE - p % BLOCK_SIZE && p + k <= size
    requires forall j :: 0 <= j < BLOCK_SIZE ==> b[j] == ByteAt(m, BLOCK_SIZE * (p / BLOCK_SIZE) + j)
    ensures b[p % BLOCK_SIZE..p % BLOCK_SIZE + k] == String(m, size)[p..p + k]
  {
    hide ByteAt;
    Parts(p);
    var o := p % BLOCK_SIZE;
    var xs, ys := b[o..o + k], String(m, size)[p..p + k];
    forall j | 0 <= j < k
      ensures xs[j] == ys[j]
    {
      assert b[o + j] == ByteAt(m, BLOCK_SIZE * (p / BLOCK_SIZE) + (o + j));
      assert String(m, size)[p + j] == ByteAt(m, p + j);
    }
  }

  lemma SliceNext(s: Bytes, off: nat, n: nat, k: nat, r: Bytes, piece: Bytes)
    requires off + n + k <= |s| && r == s[off..off + n] && piece == s[off + n..off + n + k]
    ensures r + piece == s[off..off + (n + k)]
  {
  }

  lemma OverwrittenWhole(b: Bytes, m: Store, idx: nat, o: nat, data: Bytes, n: nat, k: nat, kept: bool)
    requires WholeBlocks(m) && n + k <= |data| && Overwritten(b, m, idx, o, data, n, k, kept)
    ensures WholeBlocks(m[idx := b])
  {
  }

  lemma NothingTouched(off: nat)
    ensures forall idx :: !Touches(off, 0, idx)
  {
  }

  lemma AfterNone(m: Store, off: nat, data: Bytes, readOk: nat -> bool)
    requires WholeBlocks(m)
    ensures forall p: nat :: After(m, off, data, 0, readOk, p) == ByteAt(m, p)
  {
  }

  lemma AfterBeyond(m: Store, size: nat, off: nat, data: Bytes, n: nat, readOk: nat -> bool)
    requires WholeBlocks(m) && n <= |data| && forall p: nat :: p >= size ==> ByteAt(m, p) == 0
    ensures forall p: nat :: p >= size && p >= off + n ==> After(m, off, data, n, readOk, p) == 0
  {
  }

  lemma TouchesNext(off: nat, n: nat, k: nat)
    requires 0 < k <= BLOCK_SIZE - (off + n) % BLOCK_SIZE
    ensures forall idx :: Touches(off, n + k, idx) ==> Touches(off, n, idx) || idx == (off + n) / BLOCK_SIZE
  {
    Parts(off + n);
    Parts(off + n + k - 1);
    if n > 0 {
      Parts(off + n - 1);
    }
  }
}
