/**
 * The inode map (src/imap.c): a sorted, growable array of entries searched by
 * bisection, which behaves as a finite map from inode number to location.
 */
module InodeMap {
  import opened Layout
  import opened CheckpointFormat

  const INITIAL_CAPACITY := 1024

  predicate Sorted(es: seq<Entry>)
  {
    forall i, j :: 0 <= i < j < |es| ==> es[i].ino < es[j].ino
  }

  /** The finite map that a sorted array of entries stands for. */
  function Mapping(es: seq<Entry>): map<nat, Entry>
  {
    if es == [] then map[]
    else
      var n := |es| - 1;
      Mapping(es[..n])[es[n].ino := es[n]]
  }

  lemma {:induction false} MappingAt(es: seq<Entry>, i: nat)
    requires Sorted(es) && i < |es|
    ensures es[i].ino in Mapping(es) && Mapping(es)[es[i].ino] == es[i]
  {
    var n := |es| - 1;
    if i < n {
      assert es[..n][i] == es[i];
      MappingAt(es[..n], i);
    }
  }

  lemma {:induction false} MappingFrom(es: seq<Entry>, ino: nat) returns (i: nat)
    requires Sorted(es) && ino in Mapping(es)
    ensures i < |es| && es[i].ino == ino && Mapping(es)[ino] == es[i]
  {
    var n := |es| - 1;
    if es[n].ino == ino {
      i := n;
    } else {
      i := MappingFrom(es[..n], ino);
    }
  }

  lemma SortedInsert(es: seq<Entry>, pos: nat, e: Entry)
    requires Sorted(es) && pos <= |es|
    requires forall i :: 0 <= i < pos ==> es[i].ino < e.ino
    requires forall i :: pos <= i < |es| ==> e.ino < es[i].ino
    ensures Sorted(es[..pos] + [e] + es[pos..])
  {
  }

  lemma InsertedAt<T>(s: seq<T>, pos: nat, e: T, i: nat)
    requires pos <= |s| && i < |s|
    ensures (s[..pos] + [e] + s[pos..])[pos] == e
    ensures (s[..pos] + [e] + s[pos..])[if i < pos then i else i + 1] == s[i]
  {
  }

  lemma InsertedHas(es: seq<Entry>, pos: nat, e: Entry, ino: nat)
    requires Sorted(es) && pos <= |es| && Sorted(es[..pos] + [e] + es[pos..])
    requires ino in Mapping(es)[e.ino := e]
    ensures var m' := Mapping(es[..pos] + [e] + es[pos..]);
            ino in m' && m'[ino] == Mapping(es)[e.ino := e][ino]
  {
    hide Mapping, Sorted;
    var es' := es[..pos] + [e] + es[pos..];
    if ino == e.ino {
      MappingAt(es', pos);
    } else {
      var i := MappingFrom(es, ino);
      InsertedAt(es, pos, e, i);
      MappingAt(es', if i < pos then i else i + 1);
    }
  }

  lemma InsertedOnly(es: seq<Entry>, pos: nat, e: Entry, ino: nat)
    requires Sorted(es) && pos <= |es| && Sorted(es[..pos] + [e] + es[pos..])
    requires ino in Mapping(es[..pos] + [e] + es[pos..])
    ensures ino in Mapping(es)[e.ino := e]
  {
    var i := MappingFrom(es[..pos] + [e] + es[pos..], ino);
    if i != pos {
      MappingAt(es, if i < pos then i else i - 1);
    }
  }

  lemma Inserted(es: seq<Entry>, pos: nat, e: Entry)
    requires Sorted(es) && pos <= |es|
    requires forall i :: 0 <= i < pos ==> es[i].ino < e.ino
    requires forall i :: pos <= i < |es| ==> e.ino < es[i].ino
    ensures var es' := es[..pos] + [e] + es[pos..];
            Sorted(es') && Mapping(es') == Mapping(es)[e.ino := e]
  {
    SortedInsert(es, pos, e);
    var m' := Mapping(es[..pos] + [e] + es[pos..]);
    forall n | n in Mapping(es)[e.ino := e]
      ensures n in m' && m'[n] == Mapping(es)[e.ino := e][n]
    {
      InsertedHas(es, pos, e, n);
    }
    forall n | n in m'
      ensures n in Mapping(es)[e.ino := e]
    {
      InsertedOnly(es, pos, e, n);
    }
  }

  lemma Updated(es: seq<Entry>, k: nat, e: Entry)
    requires Sorted(es) && k < |es| && e.ino == es[k].ino
    ensures Sorted(es[k := e]) && Mapping(es[k := e]) == Mapping(es)[e.ino := e]
  {
    var es' := es[k := e];
    var m, m' := Mapping(es)[e.ino := e], Mapping(es');
    forall n | n in m
      ensures n in m' && m'[n] == m[n]
    {
      if n == e.ino {
        MappingAt(es', k);
      } else {
        var i := MappingFrom(es, n);
        MappingAt(es', i);
      }
    }
    forall n | n in m'
      ensures n in m
    {
      var i := MappingFrom(es', n);
      MappingAt(es, i);
    }
  }

  lemma Removed(es: seq<Entry>, k: nat)
    requires Sorted(es) && k < |es|
    ensures var es' := es[..k] + es[k + 1..];
            Sorted(es') && Mapping(es') == Mapping(es) - {es[k].ino}
  {
    var es' := es[..k] + es[k + 1..];
    var m, m' := Mapping(es) - {es[k].ino}, Mapping(es');
    forall n | n in m
      ensures n in m' && m'[n] == m[n]
    {
      var i := MappingFrom(es, n);
      MappingAt(es', if i < k then i else i - 1);
    }
    forall n | n in m'
      ensures n in m
    {
      var i := MappingFrom(es', n);
      MappingAt(es, if i < k then i else i + 1);
    }
  }

  lemma Missing(es: seq<Entry>, ino: nat, pos: nat)
    requires Sorted(es) && pos <= |es|
    requires forall i :: 0 <= i < pos ==> es[i].ino < ino
    requires forall i :: pos <= i < |es| ==> es[i].ino > ino
    ensures ino !in Mapping(es)
  {
    if ino in Mapping(es) {
      var i := MappingFrom(es, ino);
    }
  }

  datatype SetResult = Stored | NoSpace

  /** What setting a location does to the map: a new entry starts at version 1, an old one counts on, modulo 2^32. */
  function Assign(m: map<nat, Entry>, ino: nat, location: nat): map<nat, Entry>
  {
    m[ino := Entry(ino, if ino in m then (m[ino].version + 1) % UINT32 else 1, location)]
  }

  class Imap {
    var entries: array<Entry>
    var count: nat
    var nextIno: nat

    ghost predicate Valid()
      reads this, entries
    {
      count <= entries.Length <= MAX_INODES && 0 < entries.Length && Sorted(entries[..count])
    }

    ghost function Map(): map<nat, Entry>
      requires Valid()
      reads this, entries
    {
      Mapping(entries[..count])
    }

    constructor ()
      ensures Valid() && Map() == map[] && nextIno == ROOT_INO + 1 && fresh(entries)
    {
      entries := new Entry[INITIAL_CAPACITY](_ => ZERO_ENTRY);
      count := 0;
      nextIno := ROOT_INO + 1;
    }

    /** imap_find: the index of the entry, or -1. */
    method Find(ino: nat) returns (idx: int)
      requires Valid()
      ensures -1 <= idx < count
      ensures idx >= 0 ==> entries[idx].ino == ino && ino in Map() && Map()[ino] == entries[idx]
      ensures idx < 0 ==> ino !in Map() && forall i :: 0 <= i < count ==> entries[..count][i].ino != ino
    {
      if count == 0 {
        return -1;
      }
      ghost var es := entries[..count];
      var left, right := 0, count - 1;
      while left <= right
        invariant 0 <= left <= right + 1 <= count
        invariant forall i :: 0 <= i < left ==> es[i].ino < ino
        invariant forall i :: right < i < count ==> es[i].ino > ino
      {
        var mid := left + (right - left) / 2;
        assert es[mid] == entries[mid];
        if entries[mid].ino == ino {
          MappingAt(es, mid);
          return mid;
        }
        if entries[mid].ino < ino {
          left := mid + 1;
        } else {
          right := mid - 1;
        }
      }
      Missing(es, ino, left);
      return -1;
    }

    /** imap_find_insert_pos: everything before is smaller, everything from there on is not. */
    method FindInsertPos(ino: nat) returns (pos: nat)
      requires Valid()
      ensures pos <= count
      ensures forall i :: 0 <= i < pos ==> entries[i].ino < ino
      ensures forall i :: pos <= i < count ==> entries[i].ino >= ino
    {
      if count == 0 {
        return 0;
      }
      ghost var es := entries[..count];
      var left, right := 0, count;
      while left < right
        invariant 0 <= left <= right <= count
        invariant forall i :: 0 <= i < left ==> es[i].ino < ino
        invariant forall i :: right <= i < count ==> es[i].ino >= ino
      {
        var mid := left + (right - left) / 2;
        assert es[mid] == entries[mid];
        if entries[mid].ino < ino {
          left := mid + 1;
        } else {
          right := mid;
        }
      }
      assert forall i :: 0 <= i < count ==> entries[i] == es[i];
      return left;
    }

    /** imap_grow: doubles the capacity up to 65536 entries. */
    method Grow() returns (ok: bool)
      requires Valid()
      modifies this`entries
      ensures Valid() && count == old(count) && nextIno == old(nextIno)
      ensures entries[..count] == old(entries[..count])
      ensures ok == (old(entries.Length) < MAX_INODES)
      ensures ok ==> fresh(entries) && entries.Length > old(entries.Length)
      ensures !ok ==> entries == old(entries)
    {
      var capacity := entries.Length * 2;
      if capacity > MAX_INODES {
        capacity := MAX_INODES;
        if capacity <= entries.Length {
          return false;
        }
      }
      var bigger := new Entry[capacity](_ => ZERO_ENTRY);
      forall i | 0 <= i < entries.Length {
        bigger[i] := entries[i];
      }
      assert bigger[..count] == entries[..count];
      entries := bigger;
      return true;
    }

    /** lsfs_imap_get. */
    method Get(ino: nat) returns (r: Option<Entry>)
      requires Valid()
      ensures r == if ino in Map() then Some(Map()[ino]) else None
    {
      var idx := Find(ino);
      if idx >= 0 {
        r := Some(entries[idx]);
      } else {
        r := None;
      }
    }

    /** lsfs_imap_set: a map update, unless 65536 other inodes are mapped. */
    method Set(ino: nat, location: nat) returns (r: SetResult)
      requires Valid()
      modifies this, entries
      ensures Valid() && nextIno == old(nextIno)
      ensures entries == old(entries) || fresh(entries)
      ensures r == if ino !in old(Map()) && old(count) == MAX_INODES then NoSpace else Stored
      ensures Map() == if r.Stored? then Assign(old(Map()), ino, location) else old(Map())
    {
      hide Mapping, Sorted;
      var idx := Find(ino);
      ghost var es := entries[..count];
      if idx >= 0 {
        var e := Entry(ino, (entries[idx].version + 1) % UINT32, location);
        Updated(es, idx, e);
        entries[idx] := e;
        assert entries[..count] == es[idx := e];
        return Stored;
      }
      if count >= entries.Length {
        var ok := Grow();
        if !ok {
          return NoSpace;
        }
      }
      var pos := FindInsertPos(ino);
      assert forall i :: 0 <= i < count ==> entries[i] == es[i] && es[i].ino != ino;
      Inserted(es, pos, Entry(ino, 1, location));
      InsertAt(pos, Entry(ino, 1, location));
      return Stored;
    }

    /** Shifts the entries from `pos` on up by one and fills the gap. */
    method InsertAt(pos: nat, e: Entry)
      requires pos <= count < entries.Length
      modifies this`count, entries
      ensures count == old(count) + 1
      ensures entries[..count] == old(entries[..count])[..pos] + [e] + old(entries[..count])[pos..]
    {
      forall i | pos <= i < count {
        entries[i + 1] := entries[i];
      }
      entries[pos] := e;
      count := count + 1;
    }

    /** lsfs_imap_remove: deletes the entry if there is one. */
    method Remove(ino: nat) returns (found: bool)
      requires Valid()
      modifies this`count, entries
      ensures Valid() && nextIno == old(nextIno)
      ensures found == (ino in old(Map()))
      ensures Map() == old(Map()) - {ino}
    {
      var idx := Find(ino);
      if idx < 0 {
        return false;
      }
      ghost var es := entries[..count];
      Removed(es, idx);
      forall i | idx <= i < count - 1 {
        entries[i] := entries[i + 1];
      }
      count := count - 1;
      assert entries[..count] == es[..idx] + es[idx + 1..];
      return true;
    }

    /**
     * lsfs_imap_alloc_ino: the counter while it lasts, then the least unmapped number
     * from 2 on, and 0 when there is none.
     */
    method AllocIno() returns (ino: nat)
      requires Valid()
      modifies this`nextIno
      ensures Valid() && Map() == old(Map())
      ensures ino == NextNumber(Map().Keys, old(nextIno)).0
      ensures nextIno == NextNumber(Map().Keys, old(nextIno)).1
    {
      if nextIno >= MAX_INODES {
        ino := 0;
        var i := ROOT_INO + 1;
        while i < MAX_INODES
          invariant ROOT_INO + 1 <= i <= MAX_INODES && ino == 0 && nextIno == old(nextIno)
          invariant LeastFree(Map().Keys, ROOT_INO + 1) == LeastFree(Map().Keys, i)
        {
          var idx := Find(i);
          if idx < 0 {
            ino := i;
            break;
          }
          i := i + 1;
        }
        assert ino == LeastFree(Map().Keys, i);
      } else {
        ino := nextIno;
        nextIno := nextIno + 1;
      }
    }

    /** Copies saved entries in, in a bigger array if they do not fit. */
    method CopyIn(es: seq<Entry>)
      requires |es| <= MAX_INODES && 0 < entries.Length <= MAX_INODES
      modifies this`entries, this`count, entries
      ensures |es| == count <= entries.Length <= MAX_INODES && 0 < entries.Length && entries[..count] == es
      ensures entries == old(entries) || fresh(entries)
    {
      if |es| > entries.Length {
        entries := new Entry[|es|](_ => ZERO_ENTRY);
      }
      forall i | 0 <= i < |es| {
        entries[i] := es[i];
      }
      count := |es|;
    }

    /** The map part of lsfs_imap_load: takes over saved entries and restarts the counter above them. */
    method Load(es: seq<Entry>)
      requires Valid() && Sorted(es) && |es| <= MAX_INODES
      modifies this, entries
      ensures Valid() && Map() == Mapping(es) && (entries == old(entries) || fresh(entries))
      ensures (forall i :: 0 <= i < |es| ==> es[i].ino < UINT32 - 1) ==> nextIno == Above(es)
    {
      hide Sorted, Mapping, Above;
      CopyIn(es);
      RestartCounter();
      assert entries[..count] == es;
    }

    /** Sets the counter above every entry; the increment is 32 bits wide. */
    method RestartCounter()
      requires count <= entries.Length
      modifies this`nextIno
      ensures (forall i :: 0 <= i < count ==> entries[i].ino < UINT32 - 1) ==> nextIno == Above(entries[..count])
    {
      hide Above;
      nextIno := ROOT_INO + 1;
      AboveNone();
      ghost var small := forall i :: 0 <= i < count ==> entries[i].ino < UINT32 - 1;
      var i := 0;
      ghost var es := entries[..count];
      while i < count
        invariant 0 <= i <= count
        invariant small ==> nextIno == Above(es[..i])
      {
        AboveNext(es, i);
        if entries[i].ino >= nextIno {
          nextIno := (entries[i].ino + 1) % UINT32;
        }
        i := i + 1;
      }
      assert es[..count] == es;
    }
  }

  // ---------------------------------------------------------- inode numbers

  /** The least number from `i` up to 65535 outside `mapped`, or 0. */
  function LeastFree(mapped: set<nat>, i: nat): (r: nat)
    ensures r != 0 ==> i <= r < MAX_INODES && r !in mapped && forall j :: i <= j < r ==> j in mapped
    ensures r == 0 && i > 0 ==> forall j :: i <= j < MAX_INODES ==> j in mapped
    decreases MAX_INODES - i
  {
    if i >= MAX_INODES then 0 else if i !in mapped then i else LeastFree(mapped, i + 1)
  }

  function NextNumber(mapped: set<nat>, next: nat): (nat, nat)
  {
    if next >= MAX_INODES then (LeastFree(mapped, ROOT_INO + 1), next) else (next, next + 1)
  }

  lemma AboveNone()
    ensures Above([]) == ROOT_INO + 1
  {
  }

  lemma AboveNext(es: seq<Entry>, i: nat)
    requires i < |es|
    ensures Above(es[..i + 1]) == if es[i].ino >= Above(es[..i]) then es[i].ino + 1 else Above(es[..i])
  {
    assert es[..i + 1][..i] == es[..i];
  }

  /** One more than the largest inode number, and at least 2. */
  function Above(es: seq<Entry>): (n: nat)
    ensures n > ROOT_INO && forall e :: e in es ==> e.ino < n
  {
    if es == [] then ROOT_INO + 1
    else
      var n := Above(es[..|es| - 1]);
      if es[|es| - 1].ino >= n then es[|es| - 1].ino + 1 else n
  }

  // ------------------------------------------------------------ fresh numbers

  /** The mapped numbers, the counter, and every number handed out so far. */
  datatype Numbers = Numbers(mapped: set<nat>, next: nat, issued: seq<nat>)

  datatype Event = Alloc | Map(ino: nat) | Unmap(ino: nat)

  function Occur(s: Numbers, e: Event): Numbers
  {
    match e
    case Alloc =>
      var (ino, next) := NextNumber(s.mapped, s.next);
      Numbers(s.mapped, next, s.issued + [ino])
    case Map(ino) => s.(mapped := s.mapped + {ino})
    case Unmap(ino) => s.(mapped := s.mapped - {ino})
  }

  /** All numbers in the map, and all handed out, are below the counter. */
  predicate Below(s: Numbers)
  {
    && ROOT_INO < s.next
    && (forall ino :: ino in s.mapped ==> ino < s.next)
    && (forall i :: 0 <= i < |s.issued| ==> s.issued[i] < s.next)
  }

  /** Only numbers that were handed out, or were in the map already, are put into it. */
  predicate Run(ss: seq<Numbers>, es: seq<Event>)
  {
    && |ss| == |es| + 1
    && Below(ss[0])
    && forall i :: 0 <= i < |es| ==>
         && ss[i + 1] == Occur(ss[i], es[i])
         && (es[i].Map? ==> es[i].ino in ss[i].issued || es[i].ino in ss[i].mapped)
  }

  lemma {:induction false} RunBelow(ss: seq<Numbers>, es: seq<Event>, n: nat)
    requires Run(ss, es) && n <= |es|
    ensures Below(ss[n])
  {
    if n > 0 {
      RunBelow(ss, es, n - 1);
    }
  }

  /**
   * Inode numbers are fresh: over any run of allocation, mapping and removal, while the
   * counter lasts an allocation returns a number that is not mapped and was never
   * handed out before, and afterwards one that is not mapped, or 0 exactly when all of
   * 2..65535 are mapped.
   */
  lemma NumbersAreFresh(ss: seq<Numbers>, es: seq<Event>, n: nat)
    requires Run(ss, es) && n < |es| && es[n].Alloc?
    ensures var ino := NextNumber(ss[n].mapped, ss[n].next).0;
            && ss[n + 1].issued == ss[n].issued + [ino]
            && (ino != 0 ==> ROOT_INO < ino < MAX_INODES && ino !in ss[n].mapped)
            && (ss[n].next < MAX_INODES ==> ino !in ss[n].issued)
            && (ino == 0 <==> ss[n].next >= MAX_INODES && forall j :: 2 <= j < MAX_INODES ==> j in ss[n].mapped)
  {
    RunBelow(ss, es, n);
  }

  /** After the counter is used up, a number that was handed out but not mapped yet is handed out again. */
  lemma ExhaustedRepeats(s: Numbers)
    requires s.next >= MAX_INODES
    ensures NextNumber(Occur(s, Alloc).mapped, Occur(s, Alloc).next).0 == NextNumber(s.mapped, s.next).0
  {
  }

  /** Loading puts the counter above every number of the map. */
  lemma CounterAfterLoad(es: seq<Entry>)
    requires Sorted(es)
    ensures Below(Numbers(Mapping(es).Keys, Above(es), []))
  {
    forall n | n in Mapping(es)
      ensures n < Above(es)
    {
      var i := MappingFrom(es, n);
      assert es[i] in es;
    }
  }

  // ------------------------------------- numbers entered above the counter

  /** Any sequence of events; recovery enters numbers that were never handed out. */
  predicate AnyRun(ss: seq<Numbers>, es: seq<Event>)
  {
    && |ss| == |es| + 1
    && Below(ss[0])
    && forall i :: 0 <= i < |es| ==> ss[i + 1] == Occur(ss[i], es[i])
  }

  function Allocs(s: Numbers, n: nat): Numbers
  {
    if n == 0 then s else Occur(Allocs(s, n - 1), Alloc)
  }

  lemma {:induction false} AllocsCount(s: Numbers, n: nat)
    requires s.next + n <= MAX_INODES
    ensures Allocs(s, n).next == s.next + n && Allocs(s, n).mapped == s.mapped
  {
    if n > 0 {
      AllocsCount(s, n - 1);
    }
  }

  /**
   * The failing input: once a number at or above the counter is entered, the counter comes
   * to it after that many allocations, and the next one hands it out although it is mapped.
   */
  lemma MappedNumberIsIssued(s: Numbers, ino: nat)
    requires Below(s) && s.next <= ino < MAX_INODES
    ensures var t := Allocs(Occur(s, Map(ino)), ino - s.next);
            NextNumber(t.mapped, t.next).0 == ino && ino in t.mapped
  {
    AllocsCount(Occur(s, Map(ino)), ino - s.next);
  }

  /** Event `i` hands out the counter's number, and it is mapped. */
  predicate Collides(ss: seq<Numbers>, es: seq<Event>, i: nat)
    requires |ss| == |es| + 1 && i < |es|
  {
    es[i].Alloc? && ss[i].next < MAX_INODES && NextNumber(ss[i].mapped, ss[i].next).0 in ss[i].mapped
  }

  /** Event `m` enters the number that event `i` hands out, at or above the counter of the time, and it is not removed in between. */
  ghost predicate EnteredAhead(ss: seq<Numbers>, es: seq<Event>, m: nat, i: nat)
    requires |ss| == |es| + 1
  {
    && m < i < |es| && es[m].Map? && es[i].Alloc? && ss[i].next == es[m].ino < MAX_INODES
    && ss[m].next <= es[m].ino
    && forall j :: m < j < i ==> es[j] != Unmap(es[m].ino)
  }

  lemma {:induction false} StaysMapped(ss: seq<Numbers>, es: seq<Event>, m: nat, i: nat)
    requires AnyRun(ss, es) && m < i <= |es| && es[m].Map?
    requires forall j :: m < j < i ==> es[j] != Unmap(es[m].ino)
    ensures es[m].ino in ss[i].mapped
  {
    if i == m + 1 {
      assert ss[m + 1] == Occur(ss[m], es[m]);
    } else {
      StaysMapped(ss, es, m, i - 1);
      assert ss[i] == Occur(ss[i - 1], es[i - 1]);
    }
  }

  lemma {:induction false} CounterGrows(ss: seq<Numbers>, es: seq<Event>, m: nat, i: nat)
    requires AnyRun(ss, es) && m <= i <= |es|
    ensures ss[m].next <= ss[i].next
  {
    if m < i {
      CounterGrows(ss, es, m, i - 1);
      assert ss[i] == Occur(ss[i - 1], es[i - 1]);
    }
  }

  /** A mapped number that was not mapped at the start was entered last by some event. */
  lemma {:induction false} EnteredBy(ss: seq<Numbers>, es: seq<Event>, i: nat, ino: nat) returns (m: nat)
    requires AnyRun(ss, es) && i <= |es| && ino in ss[i].mapped && ino !in ss[0].mapped
    ensures m < i && es[m] == Map(ino) && forall j :: m < j < i ==> es[j] != Unmap(ino)
  {
    assert ss[i] == Occur(ss[i - 1], es[i - 1]);
    if es[i - 1] == Map(ino) {
      m := i - 1;
    } else {
      m := EnteredBy(ss, es, i - 1, ino);
    }
  }

  /**
   * Over any sequence of events, the counter never hands out a mapped number if and only
   * if every number entered at or above it is removed before the counter comes to it.
   */
  lemma CounterStaysFresh(ss: seq<Numbers>, es: seq<Event>)
    requires AnyRun(ss, es)
    ensures (forall i :: 0 <= i < |es| ==> !Collides(ss, es, i)) <==>
            (forall m, i :: 0 <= m < |es| && 0 <= i < |es| ==> !EnteredAhead(ss, es, m, i))
  {
    forall m, i | 0 <= m < |es| && 0 <= i < |es| && EnteredAhead(ss, es, m, i)
      ensures Collides(ss, es, i)
    {
      StaysMapped(ss, es, m, i);
    }
    forall i | 0 <= i < |es| && Collides(ss, es, i)
      ensures exists m :: 0 <= m < |es| && EnteredAhead(ss, es, m, i)
    {
      var ino := ss[i].next;
      CounterGrows(ss, es, 0, i);
      var m := EnteredBy(ss, es, i, ino);
      CounterGrows(ss, es, m, i);
      assert EnteredAhead(ss, es, m, i);
    }
  }

  /** A restarted counter is the number behind the highest in use, or the first after the root. */
  lemma {:induction false} AboveIsNext(es: seq<Entry>)
    ensures Above(es) == 2 || exists i :: 0 <= i < |es| && Above(es) == es[i].ino + 1
  {
    if es != [] {
      var n := |es| - 1;
      AboveIsNext(es[..n]);
      if es[n].ino < Above(es[..n]) && Above(es[..n]) != 2 {
        var i :| 0 <= i < n && Above(es[..n]) == es[..n][i].ino + 1;
        assert es[i].ino + 1 == Above(es);
      }
    }
  }

  /** The map after `n` updates of one inode. */
  function AssignMany(m: map<nat, Entry>, ino: nat, locations: seq<nat>): map<nat, Entry>
  {
    if locations == [] then m else Assign(AssignMany(m, ino, locations[..|locations| - 1]), ino, locations[|locations| - 1])
  }

  /** The version counts the updates of an inode, and no other inode changes. */
  lemma {:induction false} VersionsCount(m: map<nat, Entry>, ino: nat, locations: seq<nat>)
    requires ino !in m && 0 < |locations| < UINT32
    ensures AssignMany(m, ino, locations) == m[ino := Entry(ino, |locations|, locations[|locations| - 1])]
    decreases |locations|
  {
    var n := |locations| - 1;
    if n > 0 {
      VersionsCount(m, ino, locations[..n]);
    }
  }
}
