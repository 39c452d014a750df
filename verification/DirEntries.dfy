/**
 * What a directory's records bind: the live records in order, and the finite map
 * from names to inodes that they stand for.
 */
module DirEntries {
  import opened Layout
  import opened DirBlock

  datatype Entry = Entry(name: Bytes, ino: nat, ftype: Byte)

  datatype Binding = Binding(ino: nat, ftype: Byte)

  /** The entry of a record, if it is not a hole. */
  function LiveOne(r: Rec): seq<Entry>
  {
    if r.ino == 0 then [] else [Entry(r.name, r.ino, r.ftype)]
  }

  function Live(rs: seq<Rec>): seq<Entry>
  {
    if rs == [] then [] else Live(rs[..|rs| - 1]) + LiveOne(rs[|rs| - 1])
  }

  function AllLive(rss: seq<seq<Rec>>): seq<Entry>
  {
    if rss == [] then [] else AllLive(rss[..|rss| - 1]) + Live(rss[|rss| - 1])
  }

  predicate Unique(es: seq<Entry>)
  {
    forall i, j :: 0 <= i < j < |es| ==> es[i].name != es[j].name
  }

  /** The map that a sequence of entries stands for. */
  function Bindings(es: seq<Entry>): map<Bytes, Binding>
  {
    if es == [] then map[]
    else
      var e := es[|es| - 1];
      Bindings(es[..|es| - 1])[e.name := Binding(e.ino, e.ftype)]
  }

  lemma Assoc(a: seq<Entry>, b: seq<Entry>, c: seq<Entry>)
    ensures (a + b) + c == a + (b + c)
  {
  }

  lemma {:induction false} LiveConcat(xs: seq<Rec>, ys: seq<Rec>)
    ensures Live(xs + ys) == Live(xs) + Live(ys)
    decreases |ys|
  {
    if ys == [] {
      assert xs + ys == xs;
    } else {
      var n := |ys| - 1;
      LiveConcat(xs, ys[..n]);
      assert (xs + ys)[..|xs + ys| - 1] == xs + ys[..n];
      Assoc(Live(xs), Live(ys[..n]), LiveOne(ys[n]));
    }
  }

  lemma LiveSingle(r: Rec)
    ensures Live([r]) == LiveOne(r)
  {
    assert [r][..0] == [];
  }

  lemma {:induction false} AllLiveConcat(xs: seq<seq<Rec>>, ys: seq<seq<Rec>>)
    ensures AllLive(xs + ys) == AllLive(xs) + AllLive(ys)
    decreases |ys|
  {
    if ys == [] {
      assert xs + ys == xs;
    } else {
      var n := |ys| - 1;
      AllLiveConcat(xs, ys[..n]);
      assert (xs + ys)[..|xs + ys| - 1] == xs + ys[..n];
      Assoc(AllLive(xs), AllLive(ys[..n]), Live(ys[n]));
    }
  }

  /** The entries in front of record `k` of block `i`. */
  function Front(rss: seq<seq<Rec>>, i: nat, k: nat): seq<Entry>
    requires i < |rss| && k <= |rss[i]|
  {
    AllLive(rss[..i]) + Live(rss[i][..k])
  }

  /** The entries from record `k` of block `i` on. */
  function Back(rss: seq<seq<Rec>>, i: nat, k: nat): seq<Entry>
    requires i < |rss| && k <= |rss[i]|
  {
    Live(rss[i][k..]) + AllLive(rss[i + 1..])
  }

  lemma AllLiveHead(rss: seq<seq<Rec>>, i: nat)
    requires i < |rss|
    ensures AllLive(rss) == AllLive(rss[..i]) + (Live(rss[i]) + AllLive(rss[i + 1..]))
  {
    hide AllLive, Live;
    var x, ys := rss[i], rss[i + 1..];
    assert AllLive(rss[i..]) == Live(x) + AllLive(ys) by {
      assert rss[i..] == [x] + ys;
      AllLiveConcat([x], ys);
      AllLiveSingle(x);
    }
    assert rss == rss[..i] + rss[i..];
    AllLiveConcat(rss[..i], rss[i..]);
  }

  lemma AllLiveSingle(rs: seq<Rec>)
    ensures AllLive([rs]) == Live(rs)
  {
    assert [rs][..0] == [];
  }

  lemma LiveSplit(rs: seq<Rec>, k: nat)
    requires k <= |rs|
    ensures Live(rs) == Live(rs[..k]) + Live(rs[k..])
  {
    assert rs == rs[..k] + rs[k..];
    LiveConcat(rs[..k], rs[k..]);
  }

  lemma FrontBack(rss: seq<seq<Rec>>, i: nat, k: nat)
    requires i < |rss| && k <= |rss[i]|
    ensures AllLive(rss) == Front(rss, i, k) + Back(rss, i, k)
  {
    AllLiveHead(rss, i);
    LiveSplit(rss[i], k);
    var a, b, c, d := AllLive(rss[..i]), Live(rss[i][..k]), Live(rss[i][k..]), AllLive(rss[i + 1..]);
    Assoc(b, c, d);
    Assoc(a, b, c + d);
  }

  lemma BackStep(rss: seq<seq<Rec>>, i: nat, k: nat)
    requires i < |rss| && k < |rss[i]|
    ensures Back(rss, i, k) == LiveOne(rss[i][k]) + Back(rss, i, k + 1)
  {
    var rs := rss[i];
    assert rs[k..] == [rs[k]] + rs[k + 1..];
    LiveConcat([rs[k]], rs[k + 1..]);
    LiveSingle(rs[k]);
  }

  /** Replacing the records `k` to `n` of block `i` by `mid` exchanges their entries and no others. */
  lemma Replaced(rss: seq<seq<Rec>>, i: nat, k: nat, n: nat, mid: seq<Rec>)
    requires i < |rss| && k <= n <= |rss[i]|
    ensures AllLive(rss[i := rss[i][..k] + mid + rss[i][n..]]) == Front(rss, i, k) + Live(mid) + Back(rss, i, n)
  {
    var rs := rss[i][..k] + mid + rss[i][n..];
    var rss' := rss[i := rs];
    AllLiveHead(rss', i);
    assert rss'[..i] == rss[..i] && rss'[i + 1..] == rss[i + 1..];
    var a, b, c, d, e := AllLive(rss[..i]), Live(rss[i][..k]), Live(mid), Live(rss[i][n..]), AllLive(rss[i + 1..]);
    assert Live(rs) == b + c + d by {
      LiveConcat(rss[i][..k] + mid, rss[i][n..]);
      LiveConcat(rss[i][..k], mid);
    }
    Regroup(a, b, c, d, e);
  }

  lemma Regroup(a: seq<Entry>, b: seq<Entry>, c: seq<Entry>, d: seq<Entry>, e: seq<Entry>)
    ensures a + (b + c + d + e) == a + b + c + (d + e)
  {
  }

  // ----------------------------------------------------------------- the map

  lemma {:induction false} BindingAt(es: seq<Entry>, i: nat)
    requires Unique(es) && i < |es|
    ensures es[i].name in Bindings(es) && Bindings(es)[es[i].name] == Binding(es[i].ino, es[i].ftype)
  {
    var n := |es| - 1;
    if i < n {
      assert es[..n][i] == es[i];
      BindingAt(es[..n], i);
    }
  }

  lemma {:induction false} BindingFrom(es: seq<Entry>, name: Bytes) returns (i: nat)
    requires Unique(es) && name in Bindings(es)
    ensures i < |es| && es[i].name == name && Bindings(es)[name] == Binding(es[i].ino, es[i].ftype)
  {
    var n := |es| - 1;
    if es[n].name == name {
      i := n;
    } else {
      i := BindingFrom(es[..n], name);
    }
  }

  lemma UniqueInsert(a: seq<Entry>, e: Entry, b: seq<Entry>)
    requires Unique(a + b) && e.name !in Bindings(a + b)
    ensures Unique(a + [e] + b)
  {
    var es, es' := a + b, a + [e] + b;
    forall i | 0 <= i < |es|
      ensures es[i].name != e.name
    {
      BindingAt(es, i);
    }
    forall i, j | 0 <= i < j < |es'|
      ensures es'[i].name != es'[j].name
    {
      var i', j' := if i < |a| then i else i - 1, if j < |a| then j else j - 1;
      if i != |a| && j != |a| {
        assert es'[i] == es[i'] && es'[j] == es[j'];
      }
      assert i != |a| ==> es'[i] == es[i'];
      assert j != |a| ==> es'[j] == es[j'];
    }
  }

  lemma UniqueDelete(a: seq<Entry>, e: Entry, b: seq<Entry>)
    requires Unique(a + [e] + b)
    ensures Unique(a + b)
  {
    var es, es' := a + [e] + b, a + b;
    forall i, j | 0 <= i < j < |es'|
      ensures es'[i].name != es'[j].name
    {
      assert es'[i] == es[if i < |a| then i else i + 1];
      assert es'[j] == es[if j < |a| then j else j + 1];
    }
  }

  lemma NotBound(a: seq<Entry>, e: Entry, b: seq<Entry>)
    requires Unique(a + [e] + b) && Unique(a + b)
    ensures e.name !in Bindings(a + b)
  {
    var es, es' := a + b, a + [e] + b;
    forall i | 0 <= i < |es|
      ensures es[i].name != e.name
    {
      assert es'[|a|] == e;
      assert es[i] == es'[if i < |a| then i else i + 1];
    }
    if e.name in Bindings(es) {
      var i := BindingFrom(es, e.name);
    }
  }

  /** An entry among others: the map with it is the map without it, updated. */
  lemma Inserted(a: seq<Entry>, e: Entry, b: seq<Entry>)
    requires Unique(a + [e] + b)
    ensures Unique(a + b) && e.name !in Bindings(a + b)
    ensures Bindings(a + [e] + b) == Bindings(a + b)[e.name := Binding(e.ino, e.ftype)]
  {
    var es, es' := a + b, a + [e] + b;
    UniqueDelete(a, e, b);
    var m, m' := Bindings(es)[e.name := Binding(e.ino, e.ftype)], Bindings(es');
    assert es'[|a|] == e;
    BindingAt(es', |a|);
    NotBound(a, e, b);
    forall n | n in m
      ensures n in m' && m'[n] == m[n]
    {
      if n != e.name {
        var i := BindingFrom(es, n);
        assert es[i] == es'[if i < |a| then i else i + 1];
        BindingAt(es', if i < |a| then i else i + 1);
      }
    }
    forall n | n in m'
      ensures n in m
    {
      var i := BindingFrom(es', n);
      if i != |a| {
        assert es'[i] == es[if i < |a| then i else i - 1];
        BindingAt(es, if i < |a| then i else i - 1);
      }
    }
  }
}
