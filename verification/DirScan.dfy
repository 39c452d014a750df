/**
 * Scans of a directory (lsfs_dir_is_empty and lsfs_dir_iterate in src/directory.c,
 * readdir_callback in src/fuse_ops.c): what they report is exactly the map.
 */
module DirScan {
  import opened Layout
  import opened DirBlock
  import opened DirEntries
  import opened Directory

  predicate IsDots(name: Bytes)
  {
    name == [DOT] || name == [DOT, DOT]
  }

  /** Entries other than `.` and `..`. */
  function Others(es: seq<Entry>): nat
  {
    if es == [] then 0
    else Others(es[..|es| - 1]) + if IsDots(es[|es| - 1].name) then 0 else 1
  }

  lemma OthersStep(es: seq<Entry>, r: Rec)
    ensures Others(es + LiveOne(r)) == Others(es) + if r.ino == 0 || IsDots(r.name) then 0 else 1
  {
    if r.ino == 0 {
      assert es + LiveOne(r) == es;
    } else {
      assert (es + LiveOne(r))[..|es|] == es;
    }
  }

  lemma {:induction false} NoOthers(es: seq<Entry>)
    requires Unique(es)
    ensures Others(es) == 0 <==> forall name :: name in Bindings(es) ==> IsDots(name)
  {
    if es != [] {
      var n := |es| - 1;
      NoOthers(es[..n]);
      BindingAt(es, n);
      if !IsDots(es[n].name) {
        assert es[n].name in Bindings(es);
      } else {
        forall name | name in Bindings(es[..n])
          ensures name in Bindings(es)
        {
        }
      }
    }
  }

  /** lsfs_dir_is_empty: exactly when every block can be read and no name but `.` and `..` is bound. */
  method IsEmpty(dir: Dir, readable: nat) returns (r: Result)
    requires dir.Valid()
    ensures r == if !dir.isDir then NotDirectory
                 else if readable < |dir.blocks| then IoError
                 else if forall name :: name in dir.Map() ==> IsDots(name) then Ok
                 else NotEmpty
  {
    hide RecAt, Good, Tiles, Aligned, Bindings, Passed, AllLive, LiveOne, Unique, NextBlock, NextRecord, Others;
    if !dir.isDir {
      return NotDirectory;
    }
    ghost var bs, recs := Upto(dir.blocks, readable), Upto(dir.recs, readable);
    dir.SeenFacts(readable);
    var size := BLOCK_SIZE * |dir.blocks|;
    var offset, count := 0, 0;
    var block: Bytes := [];
    ghost var i: nat, k: nat := 0, 0;
    StandsAtStart(bs, recs);
    NoneAtFirst();
    while offset < size
      invariant Stands(recs, i, k, offset)
      invariant i < |recs| && k > 0 ==> block == bs[i]
      invariant count == Others(Passed(recs, i, k))
      decreases size - offset
    {
      StandsInside(bs, recs, i, k, offset);
      var o := offset % BLOCK_SIZE;
      if o == 0 {
        if offset / BLOCK_SIZE >= readable {
          return IoError;
        }
        block := dir.blocks[offset / BLOCK_SIZE];
      }
      var de := RecAt(block, o);
      OthersStep(Passed(recs, i, k), de);
      if de.ino != 0 {
        if |de.name| == 1 && de.name[0] == DOT {
        } else if |de.name| == 2 && de.name[0] == DOT && de.name[1] == DOT {
        } else {
          count := count + 1;
        }
      }
      StandsNext(bs, recs, i, k, offset);
      NextFacts(recs, i, k);
      i, k := NextBlock(recs, i, k), NextRecord(recs, i, k);
      offset := offset + de.len;
    }
    StandsAtEnd(bs, recs, i, k, offset);
    NoOthers(AllLive(recs));
    return if count == 0 then Ok else NotEmpty;
  }

  lemma NoneAtFirst()
    ensures Others([]) == 0
  {
  }

  // ----------------------------------------------------------------- listing

  /** The entries that a scan reports: those with a name. */
  function Listed(es: seq<Entry>): seq<Entry>
  {
    if es == [] then []
    else
      var e := es[|es| - 1];
      Listed(es[..|es| - 1]) + if e.name == [] then [] else [e]
  }

  lemma {:induction false} ListedConcat(xs: seq<Entry>, ys: seq<Entry>)
    ensures Listed(xs + ys) == Listed(xs) + Listed(ys)
    decreases |ys|
  {
    hide Listed;
    if ys == [] {
      assert xs + ys == xs;
      ListedNone();
      assert Listed(xs) + [] == Listed(xs);
    } else {
      var n := |ys| - 1;
      ListedConcat(xs, ys[..n]);
      ListedLast(xs + ys[..n], ys[n]);
      ListedLast(ys[..n], ys[n]);
      assert (xs + ys[..n]) + [ys[n]] == xs + ys && ys[..n] + [ys[n]] == ys;
      Assoc(Listed(xs), Listed(ys[..n]), if ys[n].name == [] then [] else [ys[n]]);
    }
  }

  lemma ListedLast(es: seq<Entry>, e: Entry)
    ensures Listed(es + [e]) == Listed(es) + if e.name == [] then [] else [e]
  {
    assert (es + [e])[..|es|] == es;
  }

  lemma ListedOne(r: Rec)
    ensures Listed(LiveOne(r)) == if r.ino == 0 || r.name == [] then [] else [Entry(r.name, r.ino, r.ftype)]
  {
    if r.ino != 0 {
      assert LiveOne(r)[..0] == [];
    }
  }

  lemma ListedStep(es: seq<Entry>, r: Rec)
    ensures Listed(es + LiveOne(r)) ==
              Listed(es) + if r.ino == 0 || r.name == [] then [] else [Entry(r.name, r.ino, r.ftype)]
  {
    ListedConcat(es, LiveOne(r));
    ListedOne(r);
  }

  lemma ListedNone()
    ensures Listed([]) == []
  {
  }

  lemma {:induction false} ListedIsPart(es: seq<Entry>, i: nat) returns (j: nat)
    requires i < |Listed(es)|
    ensures j < |es| && es[j] == Listed(es)[i]
    decreases |es|
  {
    var n := |es| - 1;
    if i < |Listed(es[..n])| {
      j := ListedIsPart(es[..n], i);
    } else {
      j := n;
    }
  }

  lemma BindingsLast(es: seq<Entry>, e: Entry)
    ensures Bindings(es + [e]) == Bindings(es)[e.name := Binding(e.ino, e.ftype)]
  {
    assert (es + [e])[..|es|] == es;
  }

  lemma UniqueLast(es: seq<Entry>, e: Entry)
    requires Unique(es) && Nameless(es, e.name)
    ensures Unique(es + [e])
  {
  }

  lemma UniqueFront(es: seq<Entry>)
    requires Unique(es) && es != []
    ensures Unique(es[..|es| - 1]) && Nameless(es[..|es| - 1], es[|es| - 1].name)
  {
  }

  lemma ListedNameless(es: seq<Entry>, name: Bytes)
    requires Nameless(es, name)
    ensures Nameless(Listed(es), name)
  {
    hide Listed;
    forall i | 0 <= i < |Listed(es)|
      ensures Listed(es)[i].name != name
    {
      var j := ListedIsPart(es, i);
    }
  }

  lemma UpdateMinus(m: map<Bytes, Binding>, name: Bytes, b: Binding)
    ensures m[name := b] - {[]} == if name == [] then m - {[]} else (m - {[]})[name := b]
  {
  }

  /** A listing has every bound name once, with its inode and type. */
  lemma {:induction false} ListingIsMap(es: seq<Entry>)
    requires Unique(es)
    ensures Unique(Listed(es)) && Bindings(Listed(es)) == Bindings(es) - {[]}
    decreases |es|
  {
    if es != [] {
      hide Listed, Bindings, Unique, Nameless;
      var n := |es| - 1;
      var front, e := es[..n], es[n];
      assert front + [e] == es;
      UniqueFront(es);
      ListingIsMap(front);
      ListedLast(front, e);
      BindingsLast(front, e);
      UpdateMinus(Bindings(front), e.name, Binding(e.ino, e.ftype));
      var l := Listed(front);
      if e.name == [] {
        assert l + [] == l;
      } else {
        ListedNameless(front, e.name);
        UniqueLast(l, e);
        BindingsLast(l, e);
      }
    }
  }

  /** Bytes that a listing takes in the reply, `cost` for each entry. */
  function Total(es: seq<Entry>, cost: Entry -> nat): nat
  {
    if es == [] then 0 else Total(es[..|es| - 1], cost) + cost(es[|es| - 1])
  }

  lemma TotalStep(es: seq<Entry>, e: Entry, cost: Entry -> nat)
    ensures Total(es + [e], cost) == Total(es, cost) + cost(e)
  {
    assert (es + [e])[..|es|] == es;
  }

  /** The longest part of a listing, from its start, that fits into `room` bytes. */
  predicate Fits(reported: seq<Entry>, listing: seq<Entry>, cost: Entry -> nat, room: nat)
  {
    && reported <= listing && Total(reported, cost) <= room
    && (|reported| < |listing| ==> Total(listing[..|reported| + 1], cost) > room)
  }

  lemma FitsCut(front: seq<Entry>, e: Entry, listing: seq<Entry>, cost: Entry -> nat, room: nat)
    requires front + [e] <= listing && Total(front, cost) <= room < Total(front, cost) + cost(e)
    ensures Fits(front, listing, cost, room)
  {
    TotalStep(front, e, cost);
    assert listing[..|front| + 1] == front + [e];
  }

  /** Where a scan starts that begins at a block boundary. */
  lemma StandsAtBlock(blocks: seq<Bytes>, rss: seq<seq<Rec>>, s: nat)
    requires Laid(blocks, rss) && s <= |rss|
    ensures Stands(rss, s, 0, BLOCK_SIZE * s) && Passed(rss, s, 0) == AllLive(rss[..s])
  {
    if s < |rss| {
      LaidAt(blocks, rss, s);
      FirstRecord(blocks[s], rss[s]);
      assert rss[s][..0] == [];
      assert AllLive(rss[..s]) + [] == AllLive(rss[..s]);
    } else {
      assert rss[..s] == rss;
    }
  }

  /** The listing of the blocks from `s` on. */
  function From(rss: seq<seq<Rec>>, s: nat): seq<Entry>
    requires s <= |rss|
  {
    Listed(AllLive(rss[s..]))
  }

  lemma FromSplit(rss: seq<seq<Rec>>, s: nat)
    requires s <= |rss|
    ensures Listed(AllLive(rss)) == Listed(AllLive(rss[..s])) + From(rss, s)
  {
    assert rss == rss[..s] + rss[s..];
    AllLiveConcat(rss[..s], rss[s..]);
    ListedConcat(AllLive(rss[..s]), AllLive(rss[s..]));
  }

  lemma PassedThenRest(rss: seq<seq<Rec>>, i: nat, k: nat)
    requires i < |rss| && k < |rss[i]|
    ensures Passed(rss, i, k) + LiveOne(rss[i][k]) <= AllLive(rss)
  {
    FrontBack(rss, i, k);
    BackStep(rss, i, k);
  }

  lemma ListedPrefix(xs: seq<Entry>, es: seq<Entry>)
    requires xs <= es
    ensures Listed(xs) <= Listed(es)
  {
    assert es == xs + es[|xs|..];
    ListedConcat(xs, es[|xs|..]);
  }

  lemma CancelFront(pre: seq<Entry>, xs: seq<Entry>, ys: seq<Entry>)
    requires pre + xs <= pre + ys
    ensures xs <= ys
  {
    assert forall i :: 0 <= i < |xs| ==> xs[i] == (pre + xs)[|pre| + i] == (pre + ys)[|pre| + i] == ys[i];
  }

  lemma CancelEqual(pre: seq<Entry>, xs: seq<Entry>, ys: seq<Entry>)
    requires pre + xs == pre + ys
    ensures xs == ys
  {
    CancelFront(pre, xs, ys);
    CancelFront(pre, ys, xs);
  }

  /** What a scan has reported when the next record does not fit any more. */
  lemma Stopped(rss: seq<seq<Rec>>, s: nat, i: nat, k: nat, reported: seq<Entry>, cost: Entry -> nat, room: nat)
    requires s <= |rss| && i < |rss| && k < |rss[i]| && rss[i][k].ino != 0 && rss[i][k].name != []
    requires Listed(Passed(rss, i, k)) == Listed(AllLive(rss[..s])) + reported
    requires var r := rss[i][k]; Total(reported, cost) <= room < Total(reported, cost) + cost(Entry(r.name, r.ino, r.ftype))
    ensures Fits(reported, From(rss, s), cost, room) && |reported| < |From(rss, s)|
  {
    hide Listed, AllLive, LiveOne, Passed, Total, From, Fits;
    var r := rss[i][k];
    var e := Entry(r.name, r.ino, r.ftype);
    var pre := Listed(AllLive(rss[..s]));
    PassedThenRest(rss, i, k);
    ListedStep(Passed(rss, i, k), r);
    ListedPrefix(Passed(rss, i, k) + LiveOne(r), AllLive(rss));
    assert (pre + reported) + [e] == pre + (reported + [e]);
    FromSplit(rss, s);
    CancelFront(pre, reported + [e], From(rss, s));
    FitsCut(reported, e, From(rss, s), cost, room);
  }

  /** What a scan that met no full reply has reported. */
  lemma Finished(rss: seq<seq<Rec>>, s: nat, reported: seq<Entry>)
    requires s <= |rss| && Listed(AllLive(rss)) == Listed(AllLive(rss[..s])) + reported
    ensures reported == From(rss, s)
  {
    FromSplit(rss, s);
    CancelEqual(Listed(AllLive(rss[..s])), reported, From(rss, s));
  }

  /**
   * lsfs_dir_iterate from a block boundary with the callback of a directory read: the
   * entries from there on, in order, as many as fit into a reply of `room` bytes and
   * come before the first block that cannot be read.
   */
  method Iterate(dir: Dir, start: nat, cost: Entry -> nat, room: nat, readable: nat)
    returns (r: Result, reported: seq<Entry>)
    requires dir.Valid() && start % BLOCK_SIZE == 0
    ensures !dir.isDir ==> r == NotDirectory && reported == []
    ensures var s := start / BLOCK_SIZE;
            var part := Upto(dir.recs, readable);
            dir.isDir ==>
              if s >= |dir.recs| then r == Ok && reported == []
              else if s >= |part| then r == IoError && reported == []
              else
                && Fits(reported, From(part, s), cost, room)
                && r == if |reported| < |From(part, s)| then ReplyFull
                        else if readable < |dir.recs| then IoError
                        else Ok
  {
    hide RecAt, Good, Tiles, Aligned, Bindings, Passed, AllLive, LiveOne, Unique, NextBlock, NextRecord, Listed, From, Total;
    reported := [];
    if !dir.isDir {
      return NotDirectory, [];
    }
    var size := BLOCK_SIZE * |dir.blocks|;
    if start >= size {
      return Ok, [];
    }
    if start / BLOCK_SIZE >= readable {
      return IoError, [];
    }
    ghost var bs, recs := Upto(dir.blocks, readable), Upto(dir.recs, readable);
    dir.SeenFacts(readable);
    var offset := start;
    var used := 0;
    var block: Bytes := [];
    ghost var s := start / BLOCK_SIZE;
    ghost var i: nat, k: nat := s, 0;
    StandsAtBlock(bs, recs, s);
    TotalNone(cost);
    while offset < size
      invariant Stands(recs, i, k, offset)
      invariant i < |recs| && k > 0 ==> block == bs[i]
      invariant Listed(Passed(recs, i, k)) == Listed(AllLive(recs[..s])) + reported
      invariant used == Total(reported, cost) <= room
      decreases size - offset
    {
      StandsInside(bs, recs, i, k, offset);
      var o := offset % BLOCK_SIZE;
      if o == 0 {
        if offset / BLOCK_SIZE >= readable {
          StandsAtEnd(bs, recs, i, k, offset);
          Finished(recs, s, reported);
          return IoError, reported;
        }
        block := dir.blocks[offset / BLOCK_SIZE];
      }
      var de := RecAt(block, o);
      ListedStep(Passed(recs, i, k), de);
      if de.ino != 0 && |de.name| > 0 {
        var e := Entry(de.name, de.ino, de.ftype);
        if used + cost(e) > room {
          Stopped(recs, s, i, k, reported, cost, room);
          return ReplyFull, reported;
        }
        TotalStep(reported, e, cost);
        used, reported := used + cost(e), reported + [e];
      }
      StandsNext(bs, recs, i, k, offset);
      NextFacts(recs, i, k);
      i, k := NextBlock(recs, i, k), NextRecord(recs, i, k);
      offset := offset + de.len;
    }
    StandsAtEnd(bs, recs, i, k, offset);
    Finished(recs, s, reported);
    return Ok, reported;
  }

  lemma TotalNone(cost: Entry -> nat)
    ensures Total([], cost) == 0
  {
  }

  lemma {:induction false} TotalPrefix(es: seq<Entry>, n: nat, cost: Entry -> nat)
    requires n <= |es|
    ensures Total(es[..n], cost) <= Total(es, cost)
  {
    if n < |es| {
      var m := |es| - 1;
      TotalPrefix(es[..m], n, cost);
      assert es[..m][..n] == es[..n];
    } else {
      assert es[..n] == es;
    }
  }

  /** A reply lists the whole directory exactly if it is large enough, and then it lists each bound name once. */
  lemma FullListing(dir: Dir, cost: Entry -> nat, room: nat, reported: seq<Entry>)
    requires dir.Valid() && Fits(reported, From(dir.recs, 0), cost, room)
    ensures reported == From(dir.recs, 0) <==> Total(From(dir.recs, 0), cost) <= room
    ensures Total(From(dir.recs, 0), cost) <= room ==> Unique(reported) && Bindings(reported) == dir.Map() - {[]}
  {
    var listing := From(dir.recs, 0);
    assert dir.recs[0..] == dir.recs;
    if |reported| < |listing| {
      TotalPrefix(listing, |reported| + 1, cost);
    }
    ListingIsMap(AllLive(dir.recs));
  }
}
