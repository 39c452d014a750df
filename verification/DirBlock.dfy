/**
 * Directory blocks as bytes (src/directory.c, include/ondisk.h): variable-length
 * records that tile a block of 4096 bytes, little-endian headers of 8 bytes in
 * front of the names.
 */
module DirBlock {
  import opened Layout


  const HEADER := 8
  const NAME_MAX := 255

  /** The next multiple of 4. */
  function RoundUp(n: nat): (r: nat)
    ensures n <= r < n + 4
  {
    if n == 0 then 0 else if n <= 4 then 4 else 4 + RoundUp(n - 4)
  }

  /** A name of `n` bytes behind its header, rounded up to 4 bytes. */
  function DirentSize(n: nat): (s: nat)
    ensures HEADER + n <= s < HEADER + n + 4
  {
    RoundUp(HEADER + n)
  }

  /** Rounding as the code computes it: add 3, then clear the two low bits. */
  lemma {:induction false} RoundUpClearsBits(n: nat)
    ensures RoundUp(n) == (n + 3) / 4 * 4 && RoundUp(n) % 4 == 0
  {
    if n > 4 {
      RoundUpClearsBits(n - 4);
    }
  }

  /** The number that `k` little-endian bytes at `o` stand for. */
  function Value(b: Bytes, o: nat, k: nat): nat
    requires o + k <= |b|
    decreases k
  {
    if k == 0 then 0
    else
      var low: int := b[o];
      low + 256 * Value(b, o + 1, k - 1)
  }

  /** The `k` little-endian bytes of a number. */
  function Encode(n: nat, k: nat): (s: Bytes)
    ensures |s| == k
  {
    if k == 0 then [] else [n % 256] + Encode(n / 256, k - 1)
  }

  function Range(k: nat): nat
  {
    if k == 0 then 1 else 256 * Range(k - 1)
  }

  /** Overwrites the bytes at `o`. */
  function Patch(b: Bytes, o: nat, s: Bytes): (r: Bytes)
    requires o + |s| <= |b|
    ensures |r| == |b|
    ensures forall i :: 0 <= i < |b| ==> r[i] == if o <= i < o + |s| then s[i - o] else b[i]
  {
    b[..o] + s + b[o + |s|..]
  }

  lemma {:induction false} SameValue(b: Bytes, b': Bytes, o: nat, k: nat)
    requires o + k <= |b| == |b'| && forall i :: o <= i < o + k ==> b'[i] == b[i]
    ensures Value(b', o, k) == Value(b, o, k)
    decreases k
  {
    if k > 0 {
      SameValue(b, b', o + 1, k - 1);
    }
  }

  /** Reading back what was written. */
  lemma {:induction false} ValueEncoded(b: Bytes, o: nat, n: nat, k: nat)
    requires o + k <= |b| && n < Range(k)
    requires forall i :: 0 <= i < k ==> b[o + i] == Encode(n, k)[i]
    ensures Value(b, o, k) == n
    decreases k
  {
    if k > 0 {
      var rest := Encode(n / 256, k - 1);
      assert Encode(n, k) == [n % 256] + rest;
      assert b[o + 0] == Encode(n, k)[0];
      forall i | 0 <= i < k - 1
        ensures b[o + 1 + i] == rest[i]
      {
        assert b[o + (i + 1)] == Encode(n, k)[i + 1];
      }
      ValueEncoded(b, o + 1, n / 256, k - 1);
    }
  }

  lemma PatchLen(b: Bytes, o: nat, n: nat)
    requires o + 2 <= |b| && n < 65536
    ensures Value(Patch(b, o, Encode(n, 2)), o, 2) == n
  {
    assert Range(2) == 256 * Range(1) == 65536;
    ValueEncoded(Patch(b, o, Encode(n, 2)), o, n, 2);
  }

  lemma PatchIno(b: Bytes, o: nat, n: nat)
    requires o + 4 <= |b| && n < UINT32
    ensures Value(Patch(b, o, Encode(n, 4)), o, 4) == n
  {
    assert Range(2) == 256 * Range(1) == 65536;
    assert Range(4) == 256 * Range(3) == UINT32;
    ValueEncoded(Patch(b, o, Encode(n, 4)), o, n, 4);
  }

  lemma {:induction false} ValueInRange(b: Bytes, o: nat, k: nat)
    requires o + k <= |b|
    ensures Value(b, o, k) < Range(k)
    decreases k
  {
    if k > 0 {
      ValueInRange(b, o + 1, k - 1);
    }
  }

  // ---------------------------------------------------------------- records

  function InoAt(b: Bytes, o: nat): nat
    requires o + HEADER <= |b|
  {
    Value(b, o, 4)
  }

  function LenAt(b: Bytes, o: nat): nat
    requires o + HEADER <= |b|
  {
    Value(b, o + 4, 2)
  }

  function NameLenAt(b: Bytes, o: nat): nat
    requires o + HEADER <= |b|
  {
    b[o + 6]
  }

  function TypeAt(b: Bytes, o: nat): Byte
    requires o + HEADER <= |b|
  {
    b[o + 7]
  }

  function NameAt(b: Bytes, o: nat): Bytes
    requires o + HEADER <= |b| && o + HEADER + NameLenAt(b, o) <= |b|
  {
    b[o + HEADER..o + HEADER + NameLenAt(b, o)]
  }

  /** A record: its place and length, and what it binds; inode 0 is a hole. */
  datatype Rec = Rec(off: nat, len: nat, ino: nat, ftype: Byte, name: Bytes)

  function End(r: Rec): nat
  {
    r.off + r.len
  }

  /** The shape of a record: long enough for its name, inside the block. */
  predicate Shapely(r: Rec)
  {
    |r.name| <= NAME_MAX && r.len >= DirentSize(|r.name|) && End(r) <= BLOCK_SIZE
  }

  /** The bytes at `o` spell a record: long enough for its name, inside the block. */
  predicate Good(b: Bytes, o: nat)
  {
    && |b| == BLOCK_SIZE && o + HEADER <= BLOCK_SIZE
    && LenAt(b, o) >= DirentSize(NameLenAt(b, o)) && o + LenAt(b, o) <= BLOCK_SIZE
  }

  function RecAt(b: Bytes, o: nat): (r: Rec)
    requires Good(b, o)
    ensures r.off == o && r.len >= HEADER && Shapely(r)
  {
    Rec(o, LenAt(b, o), InoAt(b, o), TypeAt(b, o), NameAt(b, o))
  }

  lemma InoInRange(b: Bytes, o: nat)
    requires Good(b, o)
    ensures RecAt(b, o).ino < UINT32
  {
    ValueInRange(b, o, 4);
    assert Range(4) == 256 * Range(3) == 65536 * Range(2) == UINT32;
  }

  predicate Holds(b: Bytes, r: Rec)
  {
    Good(b, r.off) && RecAt(b, r.off) == r
  }

  /** The records from `o` to the end of the block, if they fill it exactly. */
  function Parse(b: Bytes, o: nat): Option<seq<Rec>>
    decreases BLOCK_SIZE - o
  {
    if o == BLOCK_SIZE then Some([])
    else if !Good(b, o) then None
    else
      var rest := Parse(b, o + LenAt(b, o));
      if rest.None? then None else Some([RecAt(b, o)] + rest.value)
  }

  /** The records `rs` tile the block `b`. */
  predicate Tiles(b: Bytes, rs: seq<Rec>)
  {
    Parse(b, 0) == Some(rs)
  }

  predicate SameOutside(b: Bytes, b': Bytes, o: nat, q: nat)
  {
    |b'| == |b| && forall i :: 0 <= i < |b| && !(o <= i < q) ==> b'[i] == b[i]
  }

  lemma SameRecord(b: Bytes, b': Bytes, o: nat, q: nat, r: Rec)
    requires Holds(b, r) && SameOutside(b, b', o, q) && (End(r) <= o || q <= r.off)
    ensures Holds(b', r)
  {
    SameValue(b, b', r.off, 4);
    SameValue(b, b', r.off + 4, 2);
    assert NameAt(b', r.off) == NameAt(b, r.off);
  }

  /** Records behind the edited bytes are read as before. */
  lemma {:induction false} ParseBehind(b: Bytes, b': Bytes, o: nat, q: nat, p: nat, rs: seq<Rec>)
    requires Parse(b, p) == Some(rs) && SameOutside(b, b', o, q) && q <= p
    ensures Parse(b', p) == Some(rs)
    decreases |rs|
  {
    if rs != [] {
      Head(b, p, rs);
      SameRecord(b, b', o, q, rs[0]);
      ParseBehind(b, b', o, q, End(rs[0]), rs[1..]);
      Push(b', rs[0], rs[1..]);
      assert [rs[0]] + rs[1..] == rs;
    }
  }

  lemma ParseEnds(b: Bytes, p: nat, rs: seq<Rec>)
    requires Parse(b, p) == Some(rs)
    ensures p == if rs == [] then BLOCK_SIZE else rs[0].off
  {
  }

  /** What the tiling says about one record. */
  lemma {:induction false} ParseAt(b: Bytes, p: nat, rs: seq<Rec>, k: nat)
    requires Parse(b, p) == Some(rs) && k < |rs|
    ensures Holds(b, rs[k]) && End(rs[k]) == if k + 1 < |rs| then rs[k + 1].off else BLOCK_SIZE
    ensures if k == 0 then rs[k].off == p else rs[k].off > p
    ensures Parse(b, End(rs[k])) == Some(rs[k + 1..])
    decreases |rs|
  {
    hide Holds, Parse;
    Head(b, p, rs);
    var rest := rs[1..];
    if k > 0 {
      ParseAt(b, End(rs[0]), rest, k - 1);
      assert rest[k..] == rs[k + 1..];
    } else {
      ParseEnds(b, End(rs[0]), rest);
    }
  }

  /** If the bytes from `rs[k]` on come to hold `tail`, the block holds the records before it and `tail`. */
  lemma {:induction false} ParseFront(b: Bytes, b': Bytes, o: nat, q: nat, p: nat, rs: seq<Rec>, k: nat, tail: seq<Rec>)
    requires Parse(b, p) == Some(rs) && k < |rs| && rs[k].off == o && SameOutside(b, b', o, q)
    requires Parse(b', o) == Some(tail)
    ensures Parse(b', p) == Some(rs[..k] + tail)
    decreases |rs|
  {
    hide Holds, SameOutside, Parse;
    Head(b, p, rs);
    if k == 0 {
      assert rs[..0] + tail == tail;
    } else {
      var r, rest := rs[0], rs[1..];
      ParseStart(b, End(r), rest, k - 1);
      SameRecord(b, b', o, q, r);
      ParseFront(b, b', o, q, End(r), rest, k - 1, tail);
      Push(b', r, rest[..k - 1] + tail);
      ConsTake(rs, k, tail);
    }
  }

  lemma ParseStart(b: Bytes, p: nat, rs: seq<Rec>, k: nat)
    requires Parse(b, p) == Some(rs) && k < |rs|
    ensures p <= rs[k].off
  {
    ParseAt(b, p, rs, k);
  }

  lemma ConsTake(rs: seq<Rec>, k: nat, tail: seq<Rec>)
    requires 0 < k <= |rs|
    ensures rs[..k] + tail == [rs[0]] + (rs[1..][..k - 1] + tail)
  {
  }

  lemma Push(b: Bytes, r: Rec, tail: seq<Rec>)
    requires Holds(b, r) && Parse(b, End(r)) == Some(tail)
    ensures Parse(b, r.off) == Some([r] + tail)
  {
  }

  lemma Head(b: Bytes, p: nat, rs: seq<Rec>)
    requires Parse(b, p) == Some(rs) && rs != []
    ensures Holds(b, rs[0]) && rs[0].off == p && Parse(b, End(rs[0])) == Some(rs[1..])
  {
  }

  /** `rs` with the records `k` to `n` replaced by `mid`. */
  function With(rs: seq<Rec>, k: nat, n: nat, mid: seq<Rec>): seq<Rec>
    requires k <= n <= |rs|
  {
    rs[..k] + mid + rs[n..]
  }

  /** If neighbouring records become one, the block is tiled again. */
  lemma Retiled1(b: Bytes, b': Bytes, rs: seq<Rec>, k: nat, n: nat, x: Rec)
    requires Tiles(b, rs) && k < n <= |rs| && x.off == rs[k].off && End(x) == End(rs[n - 1])
    requires SameOutside(b, b', x.off, End(x)) && Holds(b', x)
    ensures Tiles(b', With(rs, k, n, [x]))
  {
    ParseAt(b, 0, rs, n - 1);
    ParseBehind(b, b', x.off, End(x), End(x), rs[n..]);
    Push(b', x, rs[n..]);
    ParseFront(b, b', x.off, End(x), 0, rs, k, [x] + rs[n..]);
    Regroup(rs[..k], [x], rs[n..]);
  }

  /** If a record becomes two, the block is tiled again. */
  lemma Retiled2(b: Bytes, b': Bytes, rs: seq<Rec>, k: nat, x: Rec, y: Rec)
    requires Tiles(b, rs) && k < |rs| && x.off == rs[k].off && End(x) == y.off && End(y) == End(rs[k])
    requires SameOutside(b, b', x.off, End(y)) && Holds(b', x) && Holds(b', y)
    ensures Tiles(b', With(rs, k, k + 1, [x, y]))
  {
    ParseAt(b, 0, rs, k);
    ParseBehind(b, b', x.off, End(y), End(y), rs[k + 1..]);
    Push(b', y, rs[k + 1..]);
    Push(b', x, [y] + rs[k + 1..]);
    Regroup([x], [y], rs[k + 1..]);
    assert [x] + [y] == [x, y];
    ParseFront(b, b', x.off, End(y), 0, rs, k, [x, y] + rs[k + 1..]);
    Regroup(rs[..k], [x, y], rs[k + 1..]);
  }

  lemma Regroup(xs: seq<Rec>, ys: seq<Rec>, zs: seq<Rec>)
    ensures xs + (ys + zs) == xs + ys + zs
  {
  }

  /** Every record starts and ends at a multiple of 4. */
  predicate Aligned(rs: seq<Rec>)
  {
    rs == [] || (
      var r := rs[|rs| - 1];
      r.off % 4 == 0 && r.len % 4 == 0 && Aligned(rs[..|rs| - 1]))
  }

  lemma {:induction false} AlignedAt(rs: seq<Rec>, k: nat)
    requires Aligned(rs) && k < |rs|
    ensures rs[k].off % 4 == 0 && rs[k].len % 4 == 0
    decreases |rs|
  {
    if k < |rs| - 1 {
      AlignedAt(rs[..|rs| - 1], k);
    }
  }

  lemma {:induction false} AlignedJoin(xs: seq<Rec>, ys: seq<Rec>)
    ensures Aligned(xs + ys) <==> Aligned(xs) && Aligned(ys)
    decreases |ys|
  {
    if ys == [] {
      assert xs + ys == xs;
    } else {
      assert (xs + ys)[..|xs + ys| - 1] == xs + ys[..|ys| - 1];
      AlignedJoin(xs, ys[..|ys| - 1]);
    }
  }

  lemma Realigned(rs: seq<Rec>, k: nat, n: nat, mid: seq<Rec>)
    requires Aligned(rs) && k <= n <= |rs| && Aligned(mid)
    ensures Aligned(With(rs, k, n, mid))
  {
    assert rs == rs[..k] + rs[k..] == rs[..n] + rs[n..];
    AlignedJoin(rs[..k], rs[k..]);
    AlignedJoin(rs[..n], rs[n..]);
    AlignedJoin(rs[..k], mid);
    AlignedJoin(rs[..k] + mid, rs[n..]);
  }

  lemma DirentAligned(n: nat)
    ensures DirentSize(n) % 4 == 0
  {
    RoundUpClearsBits(HEADER + n);
  }

  lemma AlignedOne(r: Rec)
    requires r.off % 4 == 0 && r.len % 4 == 0
    ensures Aligned([r])
  {
    assert [r][..0] == [];
  }

  /** Two records in the place of an aligned one, the first of a rounded size. */
  lemma AlignedTwo(r: Rec, x: Rec, y: Rec, n: nat)
    requires r.off % 4 == 0 && r.len % 4 == 0 && x.off == r.off && x.len == DirentSize(n) && y.off == End(x)
    requires x.len + y.len == r.len
    ensures Aligned([x, y])
  {
    DirentAligned(n);
    Multiples(r.off, r.len, x.len);
    AlignedOne(x);
    assert [x, y][..1] == [x];
  }

  lemma Multiples(off: nat, len: nat, cut: nat)
    requires off % 4 == 0 && len % 4 == 0 && cut % 4 == 0 && cut <= len
    ensures (off + cut) % 4 == 0 && (len - cut) % 4 == 0
  {
  }

  // ------------------------------------------------------------------ edits

  /** Sets the inode number. */
  function PutIno(b: Bytes, o: nat, ino: nat): (r: Bytes)
    requires o + HEADER <= |b|
    ensures |r| == |b|
  {
    Patch(b, o, Encode(ino, 4))
  }

  /** Sets the record length. */
  function PutLen(b: Bytes, o: nat, len: nat): (r: Bytes)
    requires o + HEADER <= |b|
    ensures |r| == |b|
  {
    Patch(b, o + 4, Encode(len, 2))
  }

  /** Sets what the record binds, leaving its length. */
  function PutEntry(b: Bytes, o: nat, ino: nat, ftype: Byte, name: Bytes): (r: Bytes)
    requires o + HEADER + |name| <= |b| && |name| <= NAME_MAX
    ensures |r| == |b|
  {
    Patch(Patch(PutIno(b, o, ino), o + 6, [|name|, ftype]), o + HEADER, name)
  }

  /** The name and the type at `o`, as far as the block goes. */
  predicate Names(b: Bytes, o: nat, ino: nat, ftype: Byte, name: Bytes)
  {
    && |b| == BLOCK_SIZE && o + HEADER + |name| <= BLOCK_SIZE
    && InoAt(b, o) == ino && NameLenAt(b, o) == |name| && TypeAt(b, o) == ftype && NameAt(b, o) == name
  }

  lemma LenWritten(b: Bytes, r: Rec)
    requires Names(b, r.off, r.ino, r.ftype, r.name) && Shapely(r)
    ensures var b' := PutLen(b, r.off, r.len);
            SameOutside(b, b', r.off, r.off + HEADER) && Holds(b', r)
  {
    var b' := PutLen(b, r.off, r.len);
    PatchLen(b, r.off + 4, r.len);
    SameValue(b, b', r.off, 4);
    assert NameAt(b', r.off) == NameAt(b, r.off);
  }

  lemma InoWritten(b: Bytes, r: Rec, ino: nat)
    requires Holds(b, r) && ino < UINT32
    ensures var b' := PutIno(b, r.off, ino);
            SameOutside(b, b', r.off, r.off + HEADER) && Holds(b', r.(ino := ino))
  {
    var b' := PutIno(b, r.off, ino);
    PatchIno(b, r.off, ino);
    SameValue(b, b', r.off + 4, 2);
    assert NameAt(b', r.off) == NameAt(b, r.off);
  }

  lemma EntryWritten(b: Bytes, o: nat, ino: nat, ftype: Byte, name: Bytes)
    requires o + HEADER + |name| <= |b| == BLOCK_SIZE && |name| <= NAME_MAX && ino < UINT32
    ensures var b' := PutEntry(b, o, ino, ftype, name);
            && SameOutside(b, b', o, o + HEADER + |name|)
            && Names(b', o, ino, ftype, name) && LenAt(b', o) == LenAt(b, o)
  {
    PatchIno(b, o, ino);
    var b1 := PutIno(b, o, ino);
    var b' := PutEntry(b, o, ino, ftype, name);
    SameValue(b1, b', o, 4);
    SameValue(b, b', o + 4, 2);
    assert NameAt(b', o) == name;
  }

  // ---------------------------------------------------- the block buffer in place

  /** Writes a little-endian inode number at `o`. */
  method WriteIno(block: array<Byte>, o: nat, ino: nat)
    requires o + HEADER <= block.Length
    modifies block
    ensures block[..] == PutIno(old(block[..]), o, ino)
  {
    var bytes := Encode(ino, 4);
    block[o], block[o + 1], block[o + 2], block[o + 3] := bytes[0], bytes[1], bytes[2], bytes[3];
  }

  method WriteLen(block: array<Byte>, o: nat, len: nat)
    requires o + HEADER <= block.Length
    modifies block
    ensures block[..] == PutLen(old(block[..]), o, len)
  {
    var bytes := Encode(len, 2);
    block[o + 4], block[o + 5] := bytes[0], bytes[1];
  }

  method WriteEntry(block: array<Byte>, o: nat, ino: nat, ftype: Byte, name: Bytes)
    requires o + HEADER + |name| <= block.Length && |name| <= NAME_MAX
    modifies block
    ensures block[..] == PutEntry(old(block[..]), o, ino, ftype, name)
  {
    WriteIno(block, o, ino);
    block[o + 6], block[o + 7] := |name|, ftype;
    forall i | 0 <= i < |name| {
      block[o + HEADER + i] := name[i];
    }
  }

  /** Writes a whole record. */
  method WriteRecord(block: array<Byte>, r: Rec)
    requires block.Length == BLOCK_SIZE && Shapely(r) && r.ino < UINT32
    modifies block
    ensures SameOutside(old(block[..]), block[..], r.off, r.off + HEADER + |r.name|) && Holds(block[..], r)
  {
    EntryWritten(block[..], r.off, r.ino, r.ftype, r.name);
    WriteEntry(block, r.off, r.ino, r.ftype, r.name);
    ghost var b := block[..];
    LenWritten(b, r);
    WriteLen(block, r.off, r.len);
  }

  lemma HoleShapes(r: Rec, ino: nat, ftype: Byte, name: Bytes)
    requires Shapely(r) && |name| <= NAME_MAX && r.len >= DirentSize(|name|)
    ensures Shapely(Rec(r.off, r.len, ino, ftype, name))
    ensures var need := DirentSize(|name|);
            r.len - need >= DirentSize(1) ==>
              Shapely(Rec(r.off, need, ino, ftype, name)) && Shapely(Rec(r.off + need, r.len - need, 0, 0, []))
  {
  }

  lemma SlackShapes(r: Rec, ino: nat, ftype: Byte, name: Bytes)
    requires Shapely(r) && |name| <= NAME_MAX && r.len - DirentSize(|r.name|) >= DirentSize(|name|)
    ensures var actual := DirentSize(|r.name|);
            Shapely(r.(len := actual)) && Shapely(Rec(r.off + actual, r.len - actual, ino, ftype, name))
  {
  }

  /** Two records written one after the other. */
  method WriteTwo(block: array<Byte>, x: Rec, y: Rec)
    requires block.Length == BLOCK_SIZE && Shapely(x) && Shapely(y) && x.ino < UINT32 && y.ino < UINT32 && End(x) == y.off
    modifies block
    ensures SameOutside(old(block[..]), block[..], x.off, End(y)) && Holds(block[..], x) && Holds(block[..], y)
  {
    hide Holds, SameOutside;
    ghost var b := block[..];
    WriteRecord(block, x);
    ghost var b1 := block[..];
    WriteRecord(block, y);
    ghost var b2 := block[..];
    Widen(b1, b2, y.off, y.off + HEADER + |y.name|, End(y));
    SameRecord(b1, b2, y.off, End(y), x);
    Composed(b, b1, b2, x.off, x.off + HEADER + |x.name|, y.off, End(y));
  }

  /** What the tiling says about one record of a block. */
  lemma TilesAt(b: Bytes, rs: seq<Rec>, k: nat)
    requires Tiles(b, rs) && k < |rs|
    ensures Holds(b, rs[k]) && Shapely(rs[k]) && HEADER <= rs[k].len
    ensures End(rs[k]) == if k + 1 < |rs| then rs[k + 1].off else BLOCK_SIZE
    ensures if k == 0 then rs[k].off == 0 else rs[k].off > 0
  {
    ParseAt(b, 0, rs, k);
  }

  lemma Widen(b: Bytes, b': Bytes, o: nat, q: nat, e: nat)
    requires SameOutside(b, b', o, q) && q <= e
    ensures SameOutside(b, b', o, e)
  {
  }

  /** Gives a record another length. */
  method SetLen(block: array<Byte>, ghost r: Rec, x: Rec)
    requires Holds(block[..], r) && x == r.(len := x.len) && Shapely(x)
    modifies block
    ensures SameOutside(old(block[..]), block[..], x.off, x.off + HEADER) && Holds(block[..], x)
  {
    LenWritten(block[..], x);
    WriteLen(block, x.off, x.len);
  }

  /** Makes a record a hole. */
  method ClearIno(block: array<Byte>, ghost r: Rec, x: Rec)
    requires Holds(block[..], r) && x == r.(ino := 0)
    modifies block
    ensures SameOutside(old(block[..]), block[..], x.off, x.off + HEADER) && Holds(block[..], x)
  {
    InoWritten(block[..], r, 0);
    WriteIno(block, x.off, 0);
  }

  /** Takes over a hole whole. */
  method FillHole(block: array<Byte>, ghost rs: seq<Rec>, ghost k: nat, x: Rec)
    requires block.Length == BLOCK_SIZE && Tiles(block[..], rs) && k < |rs| && x.off == rs[k].off && x.len == rs[k].len
    requires Shapely(x) && x.ino < UINT32
    modifies block
    ensures Tiles(block[..], With(rs, k, k + 1, [x]))
  {
    hide Tiles, Holds, SameOutside;
    ghost var b := block[..];
    WriteRecord(block, x);
    Widen(b, block[..], x.off, x.off + HEADER + |x.name|, End(x));
    Retiled1(b, block[..], rs, k, k + 1, x);
  }

  /** Takes over the first part of a hole and leaves the rest as a hole. */
  method DivideHole(block: array<Byte>, ghost rs: seq<Rec>, ghost k: nat, x: Rec, y: Rec)
    requires block.Length == BLOCK_SIZE && Tiles(block[..], rs) && k < |rs| && x.off == rs[k].off
    requires End(x) == y.off && x.len + y.len == rs[k].len
    requires Shapely(x) && Shapely(y) && x.ino < UINT32 && y.ino < UINT32
    modifies block
    ensures Tiles(block[..], With(rs, k, k + 1, [x, y]))
  {
    hide Tiles, Holds, SameOutside;
    ghost var b := block[..];
    WriteTwo(block, x, y);
    Retiled2(b, block[..], rs, k, x, y);
  }

  /** Two edits one behind the other. */
  lemma Composed(b: Bytes, b1: Bytes, b2: Bytes, o: nat, m: nat, q: nat, e: nat)
    requires SameOutside(b, b1, o, m) && SameOutside(b1, b2, q, e) && m <= e && o <= q
    ensures SameOutside(b, b2, o, e)
  {
  }

  /** Cuts a record to its own size, `x`, and puts a new one, `y`, into the slack. */
  method ShareSlack(block: array<Byte>, ghost rs: seq<Rec>, ghost k: nat, x: Rec, y: Rec)
    requires block.Length == BLOCK_SIZE && Tiles(block[..], rs) && k < |rs| && x == rs[k].(len := x.len)
    requires End(x) == y.off && x.len + y.len == rs[k].len
    requires Shapely(x) && Shapely(y) && y.ino < UINT32
    modifies block
    ensures Tiles(block[..], With(rs, k, k + 1, [x, y]))
  {
    hide Tiles, Holds, SameOutside;
    ghost var b := block[..];
    TilesAt(b, rs, k);
    SetLen(block, rs[k], x);
    ghost var b1 := block[..];
    WriteRecord(block, y);
    ghost var b2 := block[..];
    Widen(b1, b2, y.off, y.off + HEADER + |y.name|, End(y));
    SameRecord(b1, b2, y.off, End(y), x);
    Composed(b, b1, b2, x.off, x.off + HEADER, y.off, End(y));
    Retiled2(b, b2, rs, k, x, y);
  }

  /** Turns a record into the hole `x`. */
  method MakeHole(block: array<Byte>, ghost rs: seq<Rec>, ghost k: nat, x: Rec)
    requires block.Length == BLOCK_SIZE && Tiles(block[..], rs) && k < |rs| && x == rs[k].(ino := 0)
    modifies block
    ensures Tiles(block[..], With(rs, k, k + 1, [x]))
  {
    hide Tiles, Holds, SameOutside;
    ghost var b := block[..];
    TilesAt(b, rs, k);
    ClearIno(block, rs[k], x);
    Widen(b, block[..], x.off, x.off + HEADER, End(x));
    Retiled1(b, block[..], rs, k, k + 1, x);
  }

  /** Gives the bytes of a record to the one in front of it, which becomes `x`. */
  method Merge(block: array<Byte>, ghost rs: seq<Rec>, ghost k: nat, x: Rec)
    requires block.Length == BLOCK_SIZE && Tiles(block[..], rs) && k + 1 < |rs| && x == rs[k].(len := x.len)
    requires x.len == rs[k].len + rs[k + 1].len
    modifies block
    ensures Tiles(block[..], With(rs, k, k + 2, [x]))
  {
    hide Tiles, Holds, SameOutside;
    ghost var b := block[..];
    TilesAt(b, rs, k);
    TilesAt(b, rs, k + 1);
    SetLen(block, rs[k], x);
    Widen(b, block[..], x.off, x.off + HEADER, End(x));
    Retiled1(b, block[..], rs, k, k + 2, x);
  }

  /** The layout of a record: inode number, record length, name length, type, name. */
  lemma RecordLayout(b: Bytes, o: nat)
    requires Good(b, o) && o + 8 <= |b| && o + 8 + b[o + 6] <= |b|
    ensures var n: nat := b[o + 6];
            && RecAt(b, o) == Rec(o, Value(b, o + 4, 2), Value(b, o, 4), b[o + 7], b[o + 8..o + 8 + n])
            && DirentSize(n) % 4 == 0 && 8 + n <= DirentSize(n) < 12 + n
  {
    var n: nat := b[o + 6];
    RoundUpClearsBits(8 + n);
  }
}
