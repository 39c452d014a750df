/**
 * The directory steps of lsfs_op_rename (src/fuse_ops.c): look up the source, clear
 * the destination, bind the new name, unbind the old one; in one directory or two.
 */
module Rename {
  import opened Layout
  import opened DirBlock
  import opened DirEntries
  import opened Directory
  import DirScan

  /** What the inode that the destination names turns out to be. */
  datatype Target = File | Subdir(dir: Dir)

  datatype Outcome = Moved | NoEntry | TargetNotEmpty | Failed

  /** Which of the three directory writes the disk takes. */
  datatype Writes = Writes(clear: bool, bind: bool, unbind: bool)

  /** A name that a directory answers for. */
  ghost predicate Bound(dir: Dir, name: Bytes)
    reads dir
  {
    dir.isDir && |name| <= NAME_MAX && name in dir.Map()
  }

  /** The destination is a directory with something in it. */
  ghost predicate Blocked(dir: Dir, name: Bytes, inodes: map<nat, Target>)
    reads dir, set i | i in inodes && inodes[i].Subdir? :: inodes[i].dir
  {
    && Bound(dir, name) && dir.Map()[name].ino in inodes
    && var t := inodes[dir.Map()[name].ino];
    && t.Subdir? && (!t.dir.isDir || exists n :: n in t.dir.Map() && !DirScan.IsDots(n))
  }

  /** The destination is bound to an inode that can be loaded, so it is cleared first. */
  ghost predicate Clearable(dir: Dir, name: Bytes, inodes: map<nat, Target>)
    reads dir
  {
    Bound(dir, name) && dir.Map()[name].ino in inodes
  }

  /** Link counts are 32-bit. */
  function Unlinked(links: map<nat, nat>, ino: nat): map<nat, nat>
    requires ino in links
  {
    links[ino := (links[ino] + UINT32 - 1) % UINT32]
  }

  function Linked(links: map<nat, nat>, ino: nat): map<nat, nat>
    requires ino in links
  {
    links[ino := (links[ino] + 1) % UINT32]
  }

  /** A link taken away and a link given change one count by one. */
  lemma LinkChanges(links: map<nat, nat>, ino: nat, i: nat)
    requires ino in links && i in links && links[i] < UINT32
    ensures Unlinked(links, ino).Keys == links.Keys && Linked(links, ino).Keys == links.Keys
    ensures Unlinked(links, ino)[i] == (links[i] - if i == ino then 1 else 0) % UINT32
    ensures Linked(links, ino)[i] == (links[i] + if i == ino then 1 else 0) % UINT32
  {
  }

  /** A moved directory takes one link from its old parent to the new one. */
  lemma LinksMove(links: map<nat, nat>, fromIno: nat, toIno: nat, i: nat)
    requires fromIno != toIno && {fromIno, toIno, i} <= links.Keys && links[i] < UINT32
    ensures Linked(Unlinked(links, fromIno), toIno)[i] ==
              (links[i] + if i == toIno then 1 else if i == fromIno then -1 else 0) % UINT32
  {
    LinkChanges(links, fromIno, i);
    LinkChanges(Unlinked(links, fromIno), toIno, i);
  }

  /** The inode that loses its last link when the destination is cleared. */
  ghost function Victim(dir: Dir, name: Bytes, inodes: map<nat, Target>, links: map<nat, nat>): Option<nat>
    requires inodes.Keys <= links.Keys
    reads dir
  {
    if Clearable(dir, name, inodes) && links[dir.Map()[name].ino] == 1 then Some(dir.Map()[name].ino) else None
  }

  /**
   * Clears the destination if it is bound; `ok` is false if it must stay. The link goes,
   * and with the last one the inode, whether or not the disk takes the directory's block.
   */
  method ClearTarget(dir: Dir, name: Bytes, inodes: map<nat, Target>, links: map<nat, nat>, diskOk: bool)
    returns (ok: bool, cleared: bool, left: map<nat, nat>, freed: Option<nat>)
    requires dir.Valid() && forall i :: i in inodes && inodes[i].Subdir? ==> inodes[i].dir.Valid()
    requires inodes.Keys <= links.Keys && forall i :: i in links ==> links[i] < UINT32
    modifies dir`blocks, dir`recs
    ensures dir.Valid() && |dir.blocks| == |old(dir.blocks)|
    ensures ok == !old(Blocked(dir, name, inodes))
    ensures cleared == (ok && diskOk && old(Clearable(dir, name, inodes)))
    ensures dir.Map() == if cleared then old(dir.Map()) - {name} else old(dir.Map())
    ensures !cleared ==> dir.blocks == old(dir.blocks) && dir.recs == old(dir.recs)
    ensures left == if ok && old(Clearable(dir, name, inodes)) then Unlinked(links, old(dir.Map())[name].ino) else links
    ensures freed == if ok then old(Victim(dir, name, inodes, links)) else None
    ensures ok && old(Clearable(dir, name, inodes)) ==> (freed.Some? <==> left[old(dir.Map())[name].ino] == 0)
  {
    hide Laid, Unique, Bindings, AllLive, Dir.Map, Dir.Valid, Dir.Seen;
    ok, cleared, left, freed := true, false, links, None;
    dir.SeenFacts(|dir.blocks|);
    var found := dir.Lookup(name, |dir.blocks|);
    if found.Found? && found.binding.ino in inodes {
      match inodes[found.binding.ino] {
        case Subdir(sub) =>
          var empty := DirScan.IsEmpty(sub, |sub.blocks|);
          if empty != Ok {
            return false, false, links, None;
          }
        case File =>
      }
      var r := dir.Remove(name, |dir.blocks|, diskOk);
      cleared := r == Ok;
      left := Unlinked(links, found.binding.ino);
      if left[found.binding.ino] == 0 {
        freed := Some(found.binding.ino);
      }
    }
  }

  /**
   * lsfs_op_rename. Says what both directories bind afterwards, whichever of the disk
   * writes fail; `from` and `to` may be the same directory.
   */
  method Move(from: Dir, fromIno: nat, name: Bytes, to: Dir, toIno: nat, newName: Bytes, inodes: map<nat, Target>,
              links: map<nat, nat>, w: Writes)
    returns (r: Outcome, cleared: bool, left: map<nat, nat>, freed: Option<nat>)
    requires from.Valid() && to.Valid() && (from == to <==> fromIno == toIno)
    requires forall i :: i in inodes && inodes[i].Subdir? ==> inodes[i].dir.Valid()
    requires inodes.Keys + {fromIno, toIno} <= links.Keys && forall i :: i in links ==> links[i] < UINT32
    modifies from`blocks, from`recs, to`blocks, to`recs
    ensures from.Valid() && to.Valid()
    ensures r == NoEntry <==> !old(Bound(from, name))
    ensures r == TargetNotEmpty <==> old(Bound(from, name) && Blocked(to, newName, inodes))
    ensures cleared == (r in {Moved, Failed} && w.clear && old(Clearable(to, newName, inodes)))
    ensures r == Moved ==> w.bind && to.isDir && |newName| <= NAME_MAX && (cleared || newName !in old(to.Map()))
    ensures r == Failed && w.bind && to.isDir && |newName| <= NAME_MAX && (cleared || newName !in old(to.Map())) ==>
              |old(to.blocks)| == MAPPED_BLOCKS
    ensures r == Moved && from != to ==>
              && to.Map() == old(to.Map()[newName := from.Map()[name]])
              && from.Map() == if w.unbind then old(from.Map()) - {name} else old(from.Map())
    ensures r == Moved && from == to ==>
              from.Map() == if w.unbind then old(from.Map()[newName := from.Map()[name]]) - {name}
                            else old(from.Map()[newName := from.Map()[name]])
    ensures r == Moved && w.unbind ==> (newName in to.Map() <==> from != to || name != newName)
    ensures r != Moved ==> to.Map() == if cleared then old(to.Map()) - {newName} else old(to.Map())
    ensures r != Moved && from != to ==> from.Map() == old(from.Map())
    ensures freed == if r in {Moved, Failed} then old(Victim(to, newName, inodes, links)) else None
    ensures var dropped := if r in {Moved, Failed} && old(Clearable(to, newName, inodes))
                           then Unlinked(links, old(to.Map())[newName].ino) else links;
            left == if r == Moved && from != to && old(from.Map())[name].ftype == FT_DIR && old(from.Map())[name].ino in inodes
                    then Linked(Unlinked(dropped, fromIno), toIno) else dropped
    ensures freed.Some? ==>
              (newName in to.Map() && to.Map()[newName].ino == freed.value <==>
                 || !w.clear
                 || (&& r == Moved && old(from.Map())[name].ino == freed.value
                     && !(w.unbind && from == to && name == newName)))
  {
    hide Laid, Unique, Bindings, AllLive, HasRoom, DirentSize, Blocked, Dir.Map, Dir.Valid, Dir.Seen, Inserts;
    left, freed := links, None;
    from.SeenFacts(|from.blocks|);
    var source := from.Lookup(name, |from.blocks|);
    if source.Missed? {
      return NoEntry, false, left, freed;
    }
    var ok;
    ok, cleared, left, freed := ClearTarget(to, newName, inodes, links, w.clear);
    if !ok {
      return TargetNotEmpty, cleared, left, freed;
    }
    to.SeenFacts(|to.blocks|);
    var added := to.Add(newName, source.binding.ino, source.binding.ftype, |to.blocks|, |to.blocks|, w.bind);
    if added != Ok {
      return Failed, cleared, left, freed;
    }
    assert to.Map() == old(to.Map())[newName := source.binding];
    from.SeenFacts(|from.blocks|);
    var _ := from.Remove(name, |from.blocks|, w.unbind);
    if fromIno != toIno && source.binding.ftype == FT_DIR && source.binding.ino in inodes {
      left := Linked(Unlinked(left, fromIno), toIno);
    }
    return Moved, cleared, left, freed;
  }
}
