/**
 * Directory operations (src/directory.c) over a store of blocks: look up, add,
 * remove, scan. Each walks the records of each block and edits a block in place;
 * together they behave as a finite map from names to inodes.
 */
module Directory {
  import opened Layout
  import opened DirBlock
  import opened DirEntries

  const FT_DIR: Byte := 2
  const DOT: Byte := 46

  datatype Result = Ok | Exists | NotFound | NotDirectory | InvalidName | IoError | NotEmpty | ReplyFull
  datatype LookupResult = Found(binding: Binding) | Missed(why: Result)

  /** The records `rss` tile the blocks, block by block. */
  predicate Laid(blocks: seq<Bytes>, rss: seq<seq<Rec>>)
  {
    |blocks| == |rss| && forall i :: 0 <= i < |rss| ==> Tiles(blocks[i], rss[i]) && Aligned(rss[i])
  }

  lemma LaidAt(blocks: seq<Bytes>, rss: seq<seq<Rec>>, i: nat)
    requires Laid(blocks, rss) && i < |rss|
    ensures Tiles(blocks[i], rss[i]) && Aligned(rss[i])
  {
  }

  lemma LaidUpdate(blocks: seq<Bytes>, rss: seq<seq<Rec>>, i: nat, b: Bytes, rs: seq<Rec>)
    requires Laid(blocks, rss) && i < |rss| && Tiles(b, rs) && Aligned(rs)
    ensures Laid(blocks[i := b], rss[i := rs])
  {
  }

  lemma LaidAppend(blocks: seq<Bytes>, rss: seq<seq<Rec>>, b: Bytes, rs: seq<Rec>)
    requires Laid(blocks, rss) && Tiles(b, rs) && Aligned(rs)
    ensures Laid(blocks + [b], rss + [rs])
  {
  }

  /** The part of a directory in front of `readable`, the first block whose read fails. */
  function Upto<T>(xs: seq<T>, readable: nat): seq<T>
  {
    if readable < |xs| then xs[..readable] else xs
  }

  /** The part that can be read is laid out as a directory, and binds what the whole binds. */
  lemma ReadablePart(blocks: seq<Bytes>, rss: seq<seq<Rec>>, readable: nat)
    requires Laid(blocks, rss)
    ensures Laid(Upto(blocks, readable), Upto(rss, readable))
    ensures AllLive(Upto(rss, readable)) <= AllLive(rss)
  {
    hide AllLive, Tiles, Aligned;
    if readable < |rss| {
      assert rss == rss[..readable] + rss[readable..];
      AllLiveConcat(rss[..readable], rss[readable..]);
      forall i | 0 <= i < readable
        ensures Tiles(blocks[..readable][i], rss[..readable][i]) && Aligned(rss[..readable][i])
      {
        LaidAt(blocks, rss, i);
      }
    }
  }

  lemma PartBinds(part: seq<Entry>, es: seq<Entry>)
    requires Unique(es) && part <= es
    ensures Unique(part)
    ensures forall name :: name in Bindings(part) ==> name in Bindings(es) && Bindings(es)[name] == Bindings(part)[name]
  {
    forall name | name in Bindings(part)
      ensures name in Bindings(es) && Bindings(es)[name] == Bindings(part)[name]
    {
      var i := BindingFrom(part, name);
      BindingAt(es, i);
    }
  }

  /** `offset` is the byte position of record `k` of block `i`, or the end of the directory. */
  predicate Stands(rss: seq<seq<Rec>>, i: nat, k: nat, offset: nat)
  {
    if i < |rss| then k < |rss[i]| && offset == BLOCK_SIZE * i + rss[i][k].off
    else i == |rss| && k == 0 && offset == BLOCK_SIZE * i
  }

  /** The entries in front of a position. */
  function Passed(rss: seq<seq<Rec>>, i: nat, k: nat): seq<Entry>
    requires i <= |rss| && (i < |rss| ==> k <= |rss[i]|)
  {
    if i < |rss| then Front(rss, i, k) else AllLive(rss)
  }

  lemma StandsFacts(b: Bytes, rss: seq<seq<Rec>>, i: nat, k: nat, offset: nat)
    requires i < |rss| && Stands(rss, i, k, offset) && Tiles(b, rss[i])
    ensures offset / BLOCK_SIZE == i && offset % BLOCK_SIZE == rss[i][k].off
    ensures Holds(b, rss[i][k])
    ensures rss[i][k].off == 0 <==> k == 0
    ensures offset < BLOCK_SIZE * |rss|
  {
    ParseAt(b, 0, rss[i], k);
  }

  lemma StandsInside(blocks: seq<Bytes>, rss: seq<seq<Rec>>, i: nat, k: nat, offset: nat)
    requires Laid(blocks, rss) && Stands(rss, i, k, offset)
    ensures offset / BLOCK_SIZE == i
    ensures i < |rss| ==> offset % BLOCK_SIZE == rss[i][k].off && (rss[i][k].off == 0 <==> k == 0)
    ensures i < |rss| ==> Good(blocks[i], rss[i][k].off) && RecAt(blocks[i], rss[i][k].off) == rss[i][k]
    ensures i == |rss| ==> offset % BLOCK_SIZE == 0
  {
    if i < |rss| {
      LaidAt(blocks, rss, i);
      StandsFacts(blocks[i], rss, i, k, offset);
    }
  }

  lemma StandsAtStart(blocks: seq<Bytes>, rss: seq<seq<Rec>>)
    requires Laid(blocks, rss)
    ensures Stands(rss, 0, 0, 0) && Passed(rss, 0, 0) == []
  {
    if |rss| > 0 {
      LaidAt(blocks, rss, 0);
      FirstRecord(blocks[0], rss[0]);
      assert rss[..0] == [] && rss[0][..0] == [];
    }
  }

  lemma StandsAtEnd(blocks: seq<Bytes>, rss: seq<seq<Rec>>, i: nat, k: nat, offset: nat)
    requires Laid(blocks, rss) && Stands(rss, i, k, offset) && offset >= BLOCK_SIZE * |blocks|
    ensures i == |rss| && Passed(rss, i, k) == AllLive(rss)
  {
    if i < |rss| {
      LaidAt(blocks, rss, i);
      StandsFacts(blocks[i], rss, i, k, offset);
    }
  }

  lemma FirstRecord(b: Bytes, rs: seq<Rec>)
    requires Tiles(b, rs)
    ensures |rs| > 0 && rs[0].off == 0
  {
  }

  function NextBlock(rss: seq<seq<Rec>>, i: nat, k: nat): nat
    requires i < |rss|
  {
    if k + 1 < |rss[i]| then i else i + 1
  }

  function NextRecord(rss: seq<seq<Rec>>, i: nat, k: nat): nat
    requires i < |rss|
  {
    if k + 1 < |rss[i]| then k + 1 else 0
  }

  lemma NextFacts(rss: seq<seq<Rec>>, i: nat, k: nat)
    requires i < |rss|
    ensures NextRecord(rss, i, k) > 0 ==> NextBlock(rss, i, k) == i && NextRecord(rss, i, k) == k + 1
  {
  }

  lemma StandsNext(blocks: seq<Bytes>, rss: seq<seq<Rec>>, i: nat, k: nat, offset: nat)
    requires Laid(blocks, rss) && i < |rss| && Stands(rss, i, k, offset)
    ensures Stands(rss, NextBlock(rss, i, k), NextRecord(rss, i, k), offset + rss[i][k].len)
    ensures Passed(rss, NextBlock(rss, i, k), NextRecord(rss, i, k)) == Passed(rss, i, k) + LiveOne(rss[i][k])
  {
    var rs := rss[i];
    LaidAt(blocks, rss, i);
    ParseAt(blocks[i], 0, rs, k);
    if k + 1 == |rs| && i + 1 < |rss| {
      LaidAt(blocks, rss, i + 1);
      FirstRecord(blocks[i + 1], rss[i + 1]);
    }
    PassedNext(rss, i, k);
  }

  lemma PassedNext(rss: seq<seq<Rec>>, i: nat, k: nat)
    requires i < |rss| && k < |rss[i]|
    ensures Passed(rss, NextBlock(rss, i, k), NextRecord(rss, i, k)) == Passed(rss, i, k) + LiveOne(rss[i][k])
  {
    var rs := rss[i];
    var a := AllLive(rss[..i]);
    assert rs[..k + 1][..k] == rs[..k];
    assert Live(rs[..k + 1]) == Live(rs[..k]) + LiveOne(rs[k]);
    Assoc(a, Live(rs[..k]), LiveOne(rs[k]));
    if k + 1 == |rs| {
      assert rs[..k + 1] == rs;
      assert rss[..i + 1][..i] == rss[..i];
      assert AllLive(rss[..i + 1]) == a + Live(rs);
      if i + 1 < |rss| {
        assert rss[i + 1][..0] == [];
        assert AllLive(rss[..i + 1]) + [] == AllLive(rss[..i + 1]);
      } else {
        assert rss[..i + 1] == rss;
      }
    }
  }

  predicate Nameless(es: seq<Entry>, name: Bytes)
  {
    forall i :: 0 <= i < |es| ==> es[i].name != name
  }

  lemma NamelessUnbound(es: seq<Entry>, name: Bytes)
    requires Unique(es) && Nameless(es, name)
    ensures name !in Bindings(es)
  {
    if name in Bindings(es) {
      var i := BindingFrom(es, name);
    }
  }

  lemma NamelessStep(es: seq<Entry>, r: Rec, name: Bytes)
    requires Nameless(es, name) && (r.ino == 0 || r.name != name)
    ensures Nameless(es + LiveOne(r), name)
  {
  }

  /** A live record binds its name. */
  lemma RecordBinds(rss: seq<seq<Rec>>, i: nat, k: nat)
    requires i < |rss| && k < |rss[i]| && rss[i][k].ino != 0 && Unique(AllLive(rss))
    ensures var r := rss[i][k];
            r.name in Bindings(AllLive(rss)) && Bindings(AllLive(rss))[r.name] == Binding(r.ino, r.ftype)
  {
    FrontBack(rss, i, k);
    BackStep(rss, i, k);
    var n := |Front(rss, i, k)|;
    assert AllLive(rss)[n] == Entry(rss[i][k].name, rss[i][k].ino, rss[i][k].ftype);
    BindingAt(AllLive(rss), n);
  }

  /** A record that can take a new one of `need` bytes: a large enough hole, or enough slack. */
  predicate Room(r: Rec, need: nat)
  {
    (r.ino == 0 && r.len >= need) || r.len - DirentSize(|r.name|) >= need
  }

  predicate HasRoom(rss: seq<seq<Rec>>, need: nat)
  {
    exists i, k :: 0 <= i < |rss| && 0 <= k < |rss[i]| && Room(rss[i][k], need)
  }

  /** No record in front of a position has room. */
  predicate Cramped(rss: seq<seq<Rec>>, i: nat, k: nat, need: nat)
  {
    forall a, c :: 0 <= a < |rss| && 0 <= c < |rss[a]| && (a < i || (a == i && c < k)) ==> !Room(rss[a][c], need)
  }

  lemma CrampedNext(rss: seq<seq<Rec>>, i: nat, k: nat, need: nat)
    requires i < |rss| && k < |rss[i]| && Cramped(rss, i, k, need) && !Room(rss[i][k], need)
    ensures Cramped(rss, NextBlock(rss, i, k), NextRecord(rss, i, k), need)
  {
  }

  lemma CrampedAll(rss: seq<seq<Rec>>, need: nat)
    requires Cramped(rss, |rss|, 0, need)
    ensures !HasRoom(rss, need)
  {
  }

  /** What adding an entry, or a hole for inode 0, does to a map. */
  function Extended(m: map<Bytes, Binding>, name: Bytes, ino: nat, ftype: Byte): map<Bytes, Binding>
  {
    if ino == 0 then m else m[name := Binding(ino, ftype)]
  }

  /** What adding a name puts into the directory. */
  function NewEntry(name: Bytes, ino: nat, ftype: Byte): seq<Entry>
  {
    if ino == 0 then [] else [Entry(name, ino, ftype)]
  }

  /** `es'` is `es` with `added` put in somewhere. */
  predicate Inserts(es: seq<Entry>, es': seq<Entry>, added: seq<Entry>)
  {
    exists n :: 0 <= n <= |es| && es' == es[..n] + added + es[n..]
  }

  lemma InsertsAt(a: seq<Entry>, b: seq<Entry>, added: seq<Entry>)
    ensures Inserts(a + b, a + added + b, added)
  {
    assert (a + b)[..|a|] == a && (a + b)[|a|..] == b;
  }

  /** An added name is bound as given and no other changes, or it is bound twice, exactly if it was there. */
  lemma InsertedBinds(es: seq<Entry>, es': seq<Entry>, name: Bytes, ino: nat, ftype: Byte)
    requires Unique(es) && Inserts(es, es', NewEntry(name, ino, ftype))
    ensures Unique(es') <==> ino == 0 || name !in Bindings(es)
    ensures name !in Bindings(es) ==> Bindings(es') == Extended(Bindings(es), name, ino, ftype)
  {
    hide Unique, Bindings;
    var n :| 0 <= n <= |es| && es' == es[..n] + NewEntry(name, ino, ftype) + es[n..];
    assert es[..n] + es[n..] == es;
    if ino == 0 {
      assert es' == es;
    } else if name !in Bindings(es) {
      var e := Entry(name, ino, ftype);
      UniqueInsert(es[..n], e, es[n..]);
      Inserted(es[..n], e, es[n..]);
    } else {
      BoundTwice(es[..n], Entry(name, ino, ftype), es[n..]);
    }
  }

  lemma BoundTwice(a: seq<Entry>, e: Entry, b: seq<Entry>)
    requires Unique(a + b) && e.name in Bindings(a + b)
    ensures !Unique(a + [e] + b)
  {
    hide Bindings;
    var es := a + [e] + b;
    var i := BindingFrom(a + b, e.name);
    if i < |a| {
      assert es[i].name == es[|a|].name;
    } else {
      assert es[|a|].name == es[i + 1].name;
    }
  }

  /** A hole becomes an entry. */
  lemma AddedInHole(rss: seq<seq<Rec>>, i: nat, k: nat, mid: seq<Rec>, x: Rec)
    requires i < |rss| && k < |rss[i]| && rss[i][k].ino == 0 && Live(mid) == LiveOne(x)
    ensures Inserts(AllLive(rss), AllLive(rss[i := rss[i][..k] + mid + rss[i][k + 1..]]), LiveOne(x))
  {
    var a, b := Front(rss, i, k), Back(rss, i, k + 1);
    FrontBack(rss, i, k);
    BackStep(rss, i, k);
    assert [] + b == b;
    Replaced(rss, i, k, k + 1, mid);
    InsertsAt(a, b, LiveOne(x));
  }

  /** A record gives up slack to an entry behind it. */
  lemma AddedInSlack(rss: seq<seq<Rec>>, i: nat, k: nat, cut: Rec, x: Rec)
    requires i < |rss| && k < |rss[i]| && LiveOne(cut) == LiveOne(rss[i][k])
    ensures Inserts(AllLive(rss), AllLive(rss[i := With(rss[i], k, k + 1, [cut, x])]), LiveOne(x))
  {
    var r := rss[i][k];
    var a, b := Front(rss, i, k), Back(rss, i, k + 1);
    FrontBack(rss, i, k);
    BackStep(rss, i, k);
    Replaced(rss, i, k, k + 1, [cut, x]);
    LivePair(cut, x);
    Assoc(a, LiveOne(r), b);
    InsertsAt(a + LiveOne(r), b, LiveOne(x));
    Assoc(a, LiveOne(r), LiveOne(x));
  }

  lemma LivePair(x: Rec, y: Rec)
    ensures Live([x, y]) == LiveOne(x) + LiveOne(y)
  {
    LiveConcat([x], [y]);
    assert [x] + [y] == [x, y];
    LiveSingle(x);
    LiveSingle(y);
  }

  /** A new block with one entry. */
  lemma AddedBlock(rss: seq<seq<Rec>>, x: Rec)
    ensures Inserts(AllLive(rss), AllLive(rss + [[x]]), LiveOne(x))
  {
    AllLiveConcat(rss, [[x]]);
    AllLiveSingle([x]);
    LiveSingle(x);
    var a := AllLive(rss);
    assert a + [] == a;
    InsertsAt(a, [], LiveOne(x));
    assert a + LiveOne(x) + [] == a + LiveOne(x);
  }

  lemma WholeBlock(b: Bytes, x: Rec)
    requires Holds(b, x) && x.off == 0 && x.len == BLOCK_SIZE
    ensures Tiles(b, [x]) && Aligned([x])
  {
    Push(b, x, []);
    assert [x] + [] == [x];
    AlignedOne(x);
  }

  /** A zeroed block with one record over its whole length. */
  method OneRecordBlock(x: Rec) returns (b: Bytes)
    requires Shapely(x) && x.off == 0 && x.len == BLOCK_SIZE && x.ino < UINT32
    ensures Tiles(b, [x]) && Aligned([x])
  {
    var block := new Byte[BLOCK_SIZE](_ => 0);
    WriteRecord(block, x);
    WholeBlock(block[..], x);
    b := block[..];
  }

  /** The state after an entry was added by replacing the records of block `i` by `rs`. */
  predicate Adds(rss: seq<seq<Rec>>, i: nat, rs: seq<Rec>, x: Rec)
    requires i < |rss|
  {
    Aligned(rs) && Inserts(AllLive(rss), AllLive(rss[i := rs]), LiveOne(x))
  }

  lemma HoleFilled(rss: seq<seq<Rec>>, i: nat, k: nat, x: Rec)
    requires i < |rss| && k < |rss[i]| && rss[i][k].ino == 0 && Aligned(rss[i])
    requires x.off == rss[i][k].off && x.len == rss[i][k].len
    ensures Adds(rss, i, With(rss[i], k, k + 1, [x]), x)
  {
    AlignedAt(rss[i], k);
    AlignedOne(x);
    Realigned(rss[i], k, k + 1, [x]);
    LiveSingle(x);
    AddedInHole(rss, i, k, [x], x);
  }

  lemma HoleDivided(rss: seq<seq<Rec>>, i: nat, k: nat, x: Rec, y: Rec)
    requires i < |rss| && k < |rss[i]| && rss[i][k].ino == 0 && Aligned(rss[i])
    requires x.off == rss[i][k].off && y.off == End(x) && x.len + y.len == rss[i][k].len
    requires x.len == DirentSize(|x.name|) && y.ino == 0
    ensures Adds(rss, i, With(rss[i], k, k + 1, [x, y]), x)
  {
    AlignedAt(rss[i], k);
    AlignedTwo(rss[i][k], x, y, |x.name|);
    Realigned(rss[i], k, k + 1, [x, y]);
    LivePair(x, y);
    AddedInHole(rss, i, k, [x, y], x);
  }

  lemma SlackShared(rss: seq<seq<Rec>>, i: nat, k: nat, cut: Rec, x: Rec)
    requires i < |rss| && k < |rss[i]| && Aligned(rss[i]) && cut == rss[i][k].(len := DirentSize(|rss[i][k].name|))
    requires x.off == End(cut) && cut.len + x.len == rss[i][k].len
    ensures Adds(rss, i, With(rss[i], k, k + 1, [cut, x]), x)
  {
    AlignedAt(rss[i], k);
    AlignedTwo(rss[i][k], cut, x, |rss[i][k].name|);
    Realigned(rss[i], k, k + 1, [cut, x]);
    AddedInSlack(rss, i, k, cut, x);
  }

  /** The state after the entry `name` was removed by replacing the records of block `i` by `rs`. */
  predicate Removes(rss: seq<seq<Rec>>, i: nat, rs: seq<Rec>, name: Bytes)
    requires i < |rss|
  {
    && Aligned(rs) && Unique(AllLive(rss[i := rs]))
    && Bindings(AllLive(rss[i := rs])) == Bindings(AllLive(rss)) - {name}
  }

  lemma EntryRemoved(a: seq<Entry>, e: Entry, b: seq<Entry>)
    requires Unique(a + [e] + b)
    ensures Unique(a + b) && Bindings(a + b) == Bindings(a + [e] + b) - {e.name}
  {
    Inserted(a, e, b);
  }

  /** The entries around a live record. */
  lemma AroundEntry(rss: seq<seq<Rec>>, i: nat, k: nat)
    requires i < |rss| && k < |rss[i]| && rss[i][k].ino != 0
    ensures var r := rss[i][k];
            AllLive(rss) == Front(rss, i, k) + [Entry(r.name, r.ino, r.ftype)] + Back(rss, i, k + 1)
  {
    FrontBack(rss, i, k);
    BackStep(rss, i, k);
    Assoc(Front(rss, i, k), LiveOne(rss[i][k]), Back(rss, i, k + 1));
  }

  lemma HoleMade(rss: seq<seq<Rec>>, i: nat, k: nat, x: Rec)
    requires i < |rss| && k < |rss[i]| && rss[i][k].ino != 0 && Aligned(rss[i]) && x == rss[i][k].(ino := 0)
    requires Unique(AllLive(rss))
    ensures Removes(rss, i, With(rss[i], k, k + 1, [x]), x.name)
  {
    hide Aligned, Unique, Bindings, AllLive, Front, Back;
    AlignedAt(rss[i], k);
    AlignedOne(x);
    Realigned(rss[i], k, k + 1, [x]);
    AroundEntry(rss, i, k);
    EntryRemoved(Front(rss, i, k), Entry(x.name, rss[i][k].ino, x.ftype), Back(rss, i, k + 1));
    LiveSingle(x);
    Replaced(rss, i, k, k + 1, [x]);
    assert Front(rss, i, k) + [] == Front(rss, i, k);
  }

  lemma RecordsMerged(rss: seq<seq<Rec>>, i: nat, k: nat, x: Rec)
    requires i < |rss| && 0 < k < |rss[i]| && rss[i][k].ino != 0 && Aligned(rss[i])
    requires x == rss[i][k - 1].(len := rss[i][k - 1].len + rss[i][k].len)
    requires Unique(AllLive(rss))
    ensures Removes(rss, i, With(rss[i], k - 1, k + 1, [x]), rss[i][k].name)
  {
    hide Aligned, Unique, Bindings, AllLive, Front, Back;
    var r := rss[i][k];
    AlignedAt(rss[i], k - 1);
    AlignedAt(rss[i], k);
    AlignedSum(rss[i][k - 1].len, r.len);
    AlignedOne(x);
    Realigned(rss[i], k - 1, k + 1, [x]);
    AroundEntry(rss, i, k);
    EntryRemoved(Front(rss, i, k), Entry(r.name, r.ino, r.ftype), Back(rss, i, k + 1));
    LiveSingle(x);
    Replaced(rss, i, k - 1, k + 1, [x]);
    FrontStep(rss, i, k - 1);
  }

  lemma AlignedSum(x: nat, y: nat)
    requires x % 4 == 0 && y % 4 == 0
    ensures (x + y) % 4 == 0
  {
  }

  lemma FrontStep(rss: seq<seq<Rec>>, i: nat, k: nat)
    requires i < |rss| && k < |rss[i]|
    ensures Front(rss, i, k + 1) == Front(rss, i, k) + LiveOne(rss[i][k])
  {
    assert rss[i][..k + 1][..k] == rss[i][..k];
    Assoc(AllLive(rss[..i]), Live(rss[i][..k]), LiveOne(rss[i][k]));
  }

  lemma TwoBindings(x: Entry, y: Entry)
    requires x.name != y.name
    ensures Unique([x, y]) && Bindings([x, y]) == map[x.name := Binding(x.ino, x.ftype), y.name := Binding(y.ino, y.ftype)]
  {
    assert [x, y][..1] == [x] && [x][..0] == [];
    assert Bindings([x]) == map[x.name := Binding(x.ino, x.ftype)];
  }

  lemma FirstBlock(b: Bytes, x: Rec, y: Rec)
    requires Holds(b, x) && Holds(b, y) && x.off == 0 && y.off == End(x) && End(y) == BLOCK_SIZE
    requires x.len == DirentSize(1) && x.ino != 0 && y.ino != 0 && x.name != y.name
    ensures Laid([b], [[x, y]])
    ensures Unique(AllLive([[x, y]]))
    ensures Bindings(AllLive([[x, y]])) == map[x.name := Binding(x.ino, x.ftype), y.name := Binding(y.ino, y.ftype)]
  {
    hide Holds, Bindings;
    AllLiveSingle([x, y]);
    LivePair(x, y);
    assert Live([x, y]) == [Entry(x.name, x.ino, x.ftype), Entry(y.name, y.ino, y.ftype)];
    TwoBindings(Entry(x.name, x.ino, x.ftype), Entry(y.name, y.ino, y.ftype));
    Push(b, y, []);
    assert [y] + [] == [y];
    Push(b, x, [y]);
    assert [x] + [y] == [x, y];
    AlignedTwo(Rec(0, BLOCK_SIZE, 0, 0, []), x, y, 1);
  }

  class Dir {
    const isDir: bool
    var blocks: seq<Bytes>
    ghost var recs: seq<seq<Rec>>

    /** The blocks hold records. */
    ghost predicate Formed()
      reads this
    {
      Laid(blocks, recs) && |blocks| <= MAPPED_BLOCKS
    }

    /** No name is bound twice. */
    ghost predicate Valid()
      reads this
    {
      Formed() && Unique(AllLive(recs))
    }

    /** A directory, or another inode, without blocks. */
    constructor (isDir: bool)
      ensures Valid() && this.isDir == isDir && blocks == [] && Map() == map[]
    {
      this.isDir, blocks, recs := isDir, [], [];
    }

    /** The directory as a finite map. */
    ghost function Map(): map<Bytes, Binding>
      reads this
    {
      Bindings(AllLive(recs))
    }

    /** What the blocks in front of the first unreadable one bind. */
    ghost function Seen(readable: nat): map<Bytes, Binding>
      reads this
    {
      Bindings(AllLive(Upto(recs, readable)))
    }

    lemma SeenFacts(readable: nat)
      requires Valid()
      ensures Laid(Upto(blocks, readable), Upto(recs, readable)) && Unique(AllLive(Upto(recs, readable)))
      ensures forall name :: name in Seen(readable) ==> name in Map() && Map()[name] == Seen(readable)[name]
      ensures readable >= |blocks| ==> Seen(readable) == Map()
    {
      ReadablePart(blocks, recs, readable);
      PartBinds(AllLive(Upto(recs, readable)), AllLive(recs));
    }

    /** lsfs_inode_write_block, as the directory code sees it; `diskOk` is whether the log takes the block. */
    method WriteBlock(i: nat, b: Bytes, diskOk: bool) returns (ok: bool)
      requires i <= |blocks|
      modifies this`blocks
      ensures ok == (diskOk && i < MAPPED_BLOCKS)
      ensures blocks == if !ok then old(blocks) else if i < |old(blocks)| then old(blocks)[i := b] else old(blocks) + [b]
    {
      ok := diskOk && i < MAPPED_BLOCKS;
      if ok {
        blocks := if i < |blocks| then blocks[i := b] else blocks + [b];
      }
    }

    /** lsfs_dir_init: one block that binds `.` to the directory and `..` to its parent. */
    method Init(ino: nat, parent: nat, diskOk: bool) returns (r: Result)
      requires Valid() && 0 < ino < UINT32 && 0 < parent < UINT32
      modifies this`blocks, this`recs
      ensures Valid() && r == if diskOk then Ok else IoError
      ensures r == Ok ==> |blocks| == 1 && Map() == map[[DOT] := Binding(ino, FT_DIR), [DOT, DOT] := Binding(parent, FT_DIR)]
      ensures r != Ok ==> blocks == old(blocks) && recs == old(recs)
    {
      var len := DirentSize(1);
      var x, y := Rec(0, len, ino, FT_DIR, [DOT]), Rec(len, BLOCK_SIZE - len, parent, FT_DIR, [DOT, DOT]);
      var block := new Byte[BLOCK_SIZE](_ => 0);
      WriteTwo(block, x, y);
      FirstBlock(block[..], x, y);
      var ok := WriteBlock(0, block[..], diskOk);
      if !ok {
        return IoError;
      }
      blocks, recs := [block[..]], [[x, y]];
      return Ok;
    }

    /** lsfs_dir_lookup: the map's answer, unless a block that cannot be read comes first. */
    method Lookup(name: Bytes, readable: nat) returns (r: LookupResult)
      requires Valid()
      ensures r == if !isDir then Missed(NotDirectory)
                   else if |name| > NAME_MAX then Missed(InvalidName)
                   else if name in Seen(readable) then Found(Seen(readable)[name])
                   else if readable < |blocks| then Missed(IoError)
                   else Missed(NotFound)
      ensures r.Found? ==> name in Map() && Map()[name] == r.binding && 0 < r.binding.ino < UINT32
      ensures r == Missed(NotFound) ==> name !in Map()
    {
      if !isDir {
        return Missed(NotDirectory);
      }
      if |name| > NAME_MAX {
        return Missed(InvalidName);
      }
      hide RecAt, Good, Tiles, Aligned, Bindings, Passed, AllLive, LiveOne, Unique, NextBlock, NextRecord;
      var size := BLOCK_SIZE * |blocks|;
      var offset := 0;
      var block: Bytes := [];
      ghost var i: nat, k: nat := 0, 0;
      ghost var bs, rs := Upto(blocks, readable), Upto(recs, readable);
      SeenFacts(readable);
      StandsAtStart(bs, rs);
      while offset < size
        invariant Stands(rs, i, k, offset)
        invariant i < |rs| && k > 0 ==> block == bs[i]
        invariant Nameless(Passed(rs, i, k), name)
        decreases size - offset
      {
        StandsInside(bs, rs, i, k, offset);
        var idx := offset / BLOCK_SIZE;
        var o := offset % BLOCK_SIZE;
        if o == 0 {
          if idx >= readable {
            StandsAtEnd(bs, rs, i, k, offset);
            NamelessUnbound(AllLive(rs), name);
            return Missed(IoError);
          }
          block := blocks[idx];
        }
        var de := RecAt(block, o);
        if de.ino != 0 && |de.name| == |name| && de.name == name {
          RecordBinds(rs, i, k);
          InoInRange(block, o);
          return Found(Binding(de.ino, de.ftype));
        }
        StandsNext(bs, rs, i, k, offset);
        NamelessStep(Passed(rs, i, k), de, name);
        NextFacts(rs, i, k);
        i, k := NextBlock(rs, i, k), NextRecord(rs, i, k);
        offset := offset + de.len;
      }
      StandsAtEnd(bs, rs, i, k, offset);
      NamelessUnbound(AllLive(rs), name);
      return Missed(NotFound);
    }

    /** lsfs_inode_read_block into the block buffer. */
    method ReadBlock(i: nat, block: array<Byte>)
      requires i < |blocks| && |blocks[i]| == block.Length
      modifies block
      ensures block[..] == blocks[i]
    {
      forall j | 0 <= j < block.Length {
        block[j] := blocks[i][j];
      }
    }

    /** Writes an edited block back; `rs` are the records it holds now. */
    method WriteBack(i: nat, block: array<Byte>, ghost rs: seq<Rec>, diskOk: bool) returns (ok: bool)
      requires Formed() && i < |blocks| && Tiles(block[..], rs) && Aligned(rs)
      modifies this`blocks, this`recs
      ensures Formed() && ok == diskOk && |blocks| == |old(blocks)|
      ensures recs == if ok then old(recs)[i := rs] else old(recs)
      ensures !ok ==> blocks == old(blocks)
    {
      LaidUpdate(blocks, recs, i, block[..], rs);
      ok := WriteBlock(i, block[..], diskOk);
      if ok {
        recs := recs[i := rs];
      }
    }

    /** Puts an entry into the hole that is record `k` of block `i`. */
    method AddInHole(i: nat, block: array<Byte>, ghost k: nat, de: Rec, name: Bytes, ino: nat, ftype: Byte,
                     diskOk: bool)
      returns (ok: bool)
      requires Formed() && i < |blocks| && block.Length == BLOCK_SIZE && block[..] == blocks[i]
      requires k < |recs[i]| && recs[i][k] == de && de.ino == 0 && de.len >= DirentSize(|name|)
      requires |name| <= NAME_MAX && ino < UINT32
      modifies this`blocks, this`recs, block
      ensures Formed() && ok == diskOk && |blocks| == |old(blocks)|
      ensures ok ==> Inserts(old(AllLive(recs)), AllLive(recs), NewEntry(name, ino, ftype))
      ensures !ok ==> blocks == old(blocks) && recs == old(recs)
    {
      LaidAt(blocks, recs, i);
      ParseAt(blocks[i], 0, recs[i], k);
      var need := DirentSize(|name|);
      HoleShapes(de, ino, ftype, name);
      var remaining := de.len - need;
      if remaining >= DirentSize(1) {
        ok := DivideAndWrite(i, block, k, Rec(de.off, need, ino, ftype, name), Rec(de.off + need, remaining, 0, 0, []), diskOk);
      } else {
        ok := FillAndWrite(i, block, k, Rec(de.off, de.len, ino, ftype, name), diskOk);
      }
    }

    method DivideAndWrite(i: nat, block: array<Byte>, ghost k: nat, x: Rec, y: Rec, diskOk: bool) returns (ok: bool)
      requires Formed() && i < |blocks| && block.Length == BLOCK_SIZE && block[..] == blocks[i]
      requires k < |recs[i]| && recs[i][k].ino == 0 && x.off == recs[i][k].off
      requires y.off == End(x) && x.len + y.len == recs[i][k].len && x.len == DirentSize(|x.name|) && y.ino == 0
      requires Shapely(x) && Shapely(y) && x.ino < UINT32
      modifies this`blocks, this`recs, block
      ensures Formed() && ok == diskOk && |blocks| == |old(blocks)|
      ensures ok ==> Inserts(old(AllLive(recs)), AllLive(recs), NewEntry(x.name, x.ino, x.ftype))
      ensures !ok ==> blocks == old(blocks) && recs == old(recs)
    {
      hide Tiles, Aligned, Unique, Bindings, AllLive, With, Extended;
      ghost var rs := recs[i];
      LaidAt(blocks, recs, i);
      HoleDivided(recs, i, k, x, y);
      DivideHole(block, rs, k, x, y);
      ok := WriteBack(i, block, With(rs, k, k + 1, [x, y]), diskOk);
    }

    method FillAndWrite(i: nat, block: array<Byte>, ghost k: nat, x: Rec, diskOk: bool) returns (ok: bool)
      requires Formed() && i < |blocks| && block.Length == BLOCK_SIZE && block[..] == blocks[i]
      requires k < |recs[i]| && recs[i][k].ino == 0 && x.off == recs[i][k].off && x.len == recs[i][k].len
      requires Shapely(x) && x.ino < UINT32
      modifies this`blocks, this`recs, block
      ensures Formed() && ok == diskOk && |blocks| == |old(blocks)|
      ensures ok ==> Inserts(old(AllLive(recs)), AllLive(recs), NewEntry(x.name, x.ino, x.ftype))
      ensures !ok ==> blocks == old(blocks) && recs == old(recs)
    {
      hide Tiles, Aligned, Unique, Bindings, AllLive, With, Extended;
      ghost var rs := recs[i];
      LaidAt(blocks, recs, i);
      HoleFilled(recs, i, k, x);
      FillHole(block, rs, k, x);
      ok := WriteBack(i, block, With(rs, k, k + 1, [x]), diskOk);
    }

    /** Puts an entry into the slack of record `k` of block `i`. */
    method AddInSlack(i: nat, block: array<Byte>, ghost k: nat, de: Rec, name: Bytes, ino: nat, ftype: Byte,
                     diskOk: bool)
      returns (ok: bool)
      requires Formed() && i < |blocks| && block.Length == BLOCK_SIZE && block[..] == blocks[i]
      requires k < |recs[i]| && recs[i][k] == de && de.len - DirentSize(|de.name|) >= DirentSize(|name|)
      requires |name| <= NAME_MAX && ino < UINT32
      modifies this`blocks, this`recs, block
      ensures Formed() && ok == diskOk && |blocks| == |old(blocks)|
      ensures ok ==> Inserts(old(AllLive(recs)), AllLive(recs), NewEntry(name, ino, ftype))
      ensures !ok ==> blocks == old(blocks) && recs == old(recs)
    {
      LaidAt(blocks, recs, i);
      ParseAt(blocks[i], 0, recs[i], k);
      var actual := DirentSize(|de.name|);
      SlackShapes(de, ino, ftype, name);
      ok := ShareAndWrite(i, block, k, de.(len := actual), Rec(de.off + actual, de.len - actual, ino, ftype, name), diskOk);
    }

    method ShareAndWrite(i: nat, block: array<Byte>, ghost k: nat, cut: Rec, x: Rec, diskOk: bool) returns (ok: bool)
      requires Formed() && i < |blocks| && block.Length == BLOCK_SIZE && block[..] == blocks[i]
      requires k < |recs[i]| && cut == recs[i][k].(len := DirentSize(|recs[i][k].name|))
      requires x.off == End(cut) && cut.len + x.len == recs[i][k].len
      requires Shapely(cut) && Shapely(x) && x.ino < UINT32
      modifies this`blocks, this`recs, block
      ensures Formed() && ok == diskOk && |blocks| == |old(blocks)|
      ensures ok ==> Inserts(old(AllLive(recs)), AllLive(recs), NewEntry(x.name, x.ino, x.ftype))
      ensures !ok ==> blocks == old(blocks) && recs == old(recs)
    {
      hide Tiles, Aligned, Unique, Bindings, AllLive, With, Extended;
      ghost var rs := recs[i];
      LaidAt(blocks, recs, i);
      SlackShared(recs, i, k, cut, x);
      ShareSlack(block, rs, k, cut, x);
      ok := WriteBack(i, block, With(rs, k, k + 1, [cut, x]), diskOk);
    }

    /** Appends a block that holds one entry. */
    method AddBlock(name: Bytes, ino: nat, ftype: Byte, diskOk: bool) returns (ok: bool)
      requires Formed() && |name| <= NAME_MAX && ino < UINT32
      modifies this`blocks, this`recs
      ensures Formed() && ok == (diskOk && |old(blocks)| < MAPPED_BLOCKS)
      ensures ok ==> Inserts(old(AllLive(recs)), AllLive(recs), NewEntry(name, ino, ftype))
      ensures |blocks| == |old(blocks)| + if ok then 1 else 0
      ensures !ok ==> blocks == old(blocks) && recs == old(recs)
    {
      var x := Rec(0, BLOCK_SIZE, ino, ftype, name);
      var b := OneRecordBlock(x);
      AddedBlock(recs, x);
      LaidAppend(blocks, recs, b, [x]);
      ok := WriteBlock(|blocks|, b, diskOk);
      if ok {
        recs := recs + [[x]];
      }
    }

    /**
     * lsfs_dir_add: inserts the name exactly when the lookup does not find it, reusing a hole
     * or slack if some record in reach has room, and growing the directory by a block only if
     * none has. A lookup that fails at a block counts as not found, so a name bound in that
     * block or behind it is bound twice afterwards. `looked` and `scanned` are the first
     * blocks that the lookup and the search for room cannot read.
     */
    method Add(name: Bytes, ino: nat, ftype: Byte, looked: nat, scanned: nat, diskOk: bool) returns (r: Result)
      requires Valid() && ino < UINT32
      modifies this`blocks, this`recs
      ensures var room := HasRoom(Upto(old(recs), scanned), DirentSize(|name|));
              r == if !isDir then NotDirectory
                   else if |name| > NAME_MAX then InvalidName
                   else if name in old(Seen(looked)) then Exists
                   else if diskOk && (room || (|old(blocks)| <= scanned && |old(blocks)| < MAPPED_BLOCKS)) then Ok
                   else IoError
      ensures Formed() && (Valid() <==> !(r == Ok && ino != 0 && name in old(Map())))
      ensures r == Ok ==> Inserts(old(AllLive(recs)), AllLive(recs), NewEntry(name, ino, ftype))
      ensures r == Ok && name !in old(Map()) ==> Map() == Extended(old(Map()), name, ino, ftype)
      ensures |blocks| == |old(blocks)| + if r == Ok && !HasRoom(Upto(old(recs), scanned), DirentSize(|name|)) then 1 else 0
      ensures r != Ok ==> blocks == old(blocks) && recs == old(recs)
    {
      if !isDir {
        return NotDirectory;
      }
      if |name| > NAME_MAX {
        return InvalidName;
      }
      var found := Lookup(name, looked);
      if found.Found? {
        return Exists;
      }
      var ok := Place(name, ino, ftype, scanned, diskOk);
      if ok {
        InsertedBinds(old(AllLive(recs)), AllLive(recs), name, ino, ftype);
      }
      return if ok then Ok else IoError;
    }

    /** The search for room, and the new block if there is none. */
    method Place(name: Bytes, ino: nat, ftype: Byte, readable: nat, diskOk: bool) returns (ok: bool)
      requires Formed() && |name| <= NAME_MAX && ino < UINT32
      modifies this`blocks, this`recs
      ensures Formed()
      ensures var room := HasRoom(Upto(old(recs), readable), DirentSize(|name|));
              && ok == (diskOk && (room || (|old(blocks)| <= readable && |old(blocks)| < MAPPED_BLOCKS)))
              && |blocks| == |old(blocks)| + if ok && !room then 1 else 0
      ensures ok ==> Inserts(old(AllLive(recs)), AllLive(recs), NewEntry(name, ino, ftype))
      ensures !ok ==> blocks == old(blocks) && recs == old(recs)
    {
      hide RecAt, Good, Tiles, Aligned, Passed, AllLive, LiveOne, NextBlock, NextRecord, Inserts, NewEntry, DirentSize;
      var need := DirentSize(|name|);
      var size := BLOCK_SIZE * |blocks|;
      var offset := 0;
      var block := new Byte[BLOCK_SIZE](_ => 0);
      ghost var i: nat, k: nat := 0, 0;
      ghost var bs, rs := Upto(blocks, readable), Upto(recs, readable);
      ReadablePart(blocks, recs, readable);
      StandsAtStart(bs, rs);
      while offset < size
        invariant Formed() && blocks == old(blocks) && recs == old(recs)
        invariant Stands(rs, i, k, offset)
        invariant i < |rs| && k > 0 ==> block[..] == bs[i]
        invariant Cramped(rs, i, k, need)
        decreases size - offset
      {
        StandsInside(bs, rs, i, k, offset);
        var idx := offset / BLOCK_SIZE;
        var o := offset % BLOCK_SIZE;
        if o == 0 {
          if idx >= readable {
            StandsAtEnd(bs, rs, i, k, offset);
            CrampedAll(rs, need);
            return false;
          }
          ReadBlock(idx, block);
        }
        var de := RecAt(block[..], o);
        if de.ino == 0 && de.len >= need {
          assert Room(rs[i][k], need);
          ok := AddInHole(idx, block, k, de, name, ino, ftype, diskOk);
          return;
        }
        if de.len - DirentSize(|de.name|) >= need {
          assert Room(rs[i][k], need);
          ok := AddInSlack(idx, block, k, de, name, ino, ftype, diskOk);
          return;
        }
        StandsNext(bs, rs, i, k, offset);
        CrampedNext(rs, i, k, need);
        NextFacts(rs, i, k);
        i, k := NextBlock(rs, i, k), NextRecord(rs, i, k);
        offset := offset + de.len;
      }
      StandsAtEnd(bs, rs, i, k, offset);
      CrampedAll(rs, need);
      ok := AddBlock(name, ino, ftype, diskOk);
    }

    /** Removes the first record of block `i`, which stays as a hole. */
    method HoleAndWrite(i: nat, block: array<Byte>, ghost k: nat, x: Rec, diskOk: bool) returns (ok: bool)
      requires Valid() && i < |blocks| && block.Length == BLOCK_SIZE && block[..] == blocks[i]
      requires k < |recs[i]| && recs[i][k].ino != 0 && x == recs[i][k].(ino := 0)
      modifies this`blocks, this`recs, block
      ensures Valid() && ok == diskOk && |blocks| == |old(blocks)|
      ensures Map() == if ok then old(Map()) - {x.name} else old(Map())
      ensures !ok ==> blocks == old(blocks) && recs == old(recs)
    {
      hide Tiles, Aligned, Unique, Bindings, AllLive, With, Extended;
      ghost var rs := recs[i];
      LaidAt(blocks, recs, i);
      HoleMade(recs, i, k, x);
      MakeHole(block, rs, k, x);
      ok := WriteBack(i, block, With(rs, k, k + 1, [x]), diskOk);
    }

    /** Removes record `k` of block `i` by giving its bytes to the one in front of it. */
    method MergeAndWrite(i: nat, block: array<Byte>, ghost k: nat, x: Rec, diskOk: bool) returns (ok: bool)
      requires Valid() && i < |blocks| && block.Length == BLOCK_SIZE && block[..] == blocks[i]
      requires 0 < k < |recs[i]| && recs[i][k].ino != 0
      requires x == recs[i][k - 1].(len := recs[i][k - 1].len + recs[i][k].len)
      modifies this`blocks, this`recs, block
      ensures Valid() && ok == diskOk && |blocks| == |old(blocks)|
      ensures Map() == if ok then old(Map()) - {old(recs[i][k].name)} else old(Map())
      ensures !ok ==> blocks == old(blocks) && recs == old(recs)
    {
      hide Tiles, Aligned, Unique, Bindings, AllLive, With, Extended;
      ghost var rs := recs[i];
      LaidAt(blocks, recs, i);
      RecordsMerged(recs, i, k, x);
      Merge(block, rs, k - 1, x);
      ok := WriteBack(i, block, With(rs, k - 1, k + 1, [x]), diskOk);
    }

    /** Removes record `k` of block `i`, merging it with the record in front of it if there is one. */
    method RemoveAt(i: nat, block: array<Byte>, ghost k: nat, prev: Option<Rec>, de: Rec, diskOk: bool)
      returns (ok: bool)
      requires Valid() && i < |blocks| && block.Length == BLOCK_SIZE && block[..] == blocks[i]
      requires k < |recs[i]| && recs[i][k] == de && de.ino != 0
      requires prev == if k > 0 then Some(recs[i][k - 1]) else None
      modifies this`blocks, this`recs, block
      ensures Valid() && ok == diskOk && |blocks| == |old(blocks)|
      ensures Map() == if ok then old(Map()) - {de.name} else old(Map())
      ensures !ok ==> blocks == old(blocks) && recs == old(recs)
    {
      if prev.Some? {
        ok := MergeAndWrite(i, block, k, prev.value.(len := prev.value.len + de.len), diskOk);
      } else {
        ok := HoleAndWrite(i, block, k, de.(ino := 0), diskOk);
      }
    }

    /** The walk of lsfs_dir_remove: the record that binds `name`, and the one in front of it in its block. */
    method FindRecord(name: Bytes, readable: nat) returns (r: Result, idx: nat, prev: Option<Rec>, de: Rec, ghost k: nat)
      requires Valid()
      ensures r == if name in Seen(readable) then Ok else if readable < |blocks| then IoError else NotFound
      ensures r == Ok ==> idx < |recs| && k < |recs[idx]| && recs[idx][k] == de && de.ino != 0 && de.name == name
      ensures r == Ok ==> prev == if k > 0 then Some(recs[idx][k - 1]) else None
    {
      hide RecAt, Good, Tiles, Aligned, Bindings, Passed, AllLive, LiveOne, Unique, NextBlock, NextRecord;
      var size := BLOCK_SIZE * |blocks|;
      var offset := 0;
      var block: Bytes := [];
      idx, prev, de, k := 0, None, Rec(0, 0, 0, 0, []), 0;
      ghost var i: nat := 0;
      ghost var bs, rs := Upto(blocks, readable), Upto(recs, readable);
      SeenFacts(readable);
      StandsAtStart(bs, rs);
      while offset < size
        invariant Stands(rs, i, k, offset)
        invariant i < |rs| && k > 0 ==> block == bs[i]
        invariant i < |rs| && k > 0 ==> prev == Some(rs[i][k - 1])
        invariant Nameless(Passed(rs, i, k), name)
        decreases size - offset
      {
        StandsInside(bs, rs, i, k, offset);
        idx := offset / BLOCK_SIZE;
        var o := offset % BLOCK_SIZE;
        if o == 0 {
          if idx >= readable {
            StandsAtEnd(bs, rs, i, k, offset);
            NamelessUnbound(AllLive(rs), name);
            r := IoError;
            return;
          }
          block, prev := blocks[idx], None;
        }
        de := RecAt(block, o);
        assert de == rs[i][k];
        if de.ino != 0 && |de.name| == |name| && de.name == name {
          RecordBinds(rs, i, k);
          r := Ok;
          return;
        }
        StandsNext(bs, rs, i, k, offset);
        NamelessStep(Passed(rs, i, k), de, name);
        prev := Some(de);
        NextFacts(rs, i, k);
        i, k := NextBlock(rs, i, k), NextRecord(rs, i, k);
        offset := offset + de.len;
      }
      StandsAtEnd(bs, rs, i, k, offset);
      NamelessUnbound(AllLive(rs), name);
      r := NotFound;
    }

    /** lsfs_dir_remove: deletes exactly that name, unless a block that cannot be read comes first. */
    method Remove(name: Bytes, readable: nat, diskOk: bool) returns (r: Result)
      requires Valid()
      modifies this`blocks, this`recs
      ensures Valid() && |blocks| == |old(blocks)|
      ensures r == if !isDir then NotDirectory
                   else if name in old(Seen(readable)) then (if diskOk then Ok else IoError)
                   else if readable < |blocks| then IoError
                   else NotFound
      ensures Map() == if r == Ok then old(Map()) - {name} else old(Map())
      ensures r == NotFound ==> name !in old(Map())
      ensures r != Ok ==> blocks == old(blocks) && recs == old(recs)
    {
      if !isDir {
        return NotDirectory;
      }
      SeenFacts(readable);
      var found, idx, prev, de, k := FindRecord(name, readable);
      if found != Ok {
        return found;
      }
      LaidAt(blocks, recs, idx);
      ParseAt(blocks[idx], 0, recs[idx], k);
      var block := new Byte[BLOCK_SIZE](_ => 0);
      ReadBlock(idx, block);
      var ok := RemoveAt(idx, block, k, prev, de, diskOk);
      return if ok then Ok else IoError;
    }
  }
}
