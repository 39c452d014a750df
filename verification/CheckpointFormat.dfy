/**
 * The on-disk form of a checkpoint (src/checkpoint.c, src/imap.c): a header block
 * and the inode map in the blocks behind it, in one of two regions.
 */
module CheckpointFormat {
  import opened Layout

  datatype Entry = Entry(ino: nat, version: nat, location: nat)

  const ZERO_ENTRY := Entry(0, 0, 0)
  const ENTRIES_PER_BLOCK := 256

  /** A block as the checkpoint code sees it; anything else on the disk is `Other`. */
  datatype Block =
    | Header(magic: nat, sequence: nat, timestamp: nat, logHead: nat, entries: nat, complete: nat)
    | Entries(es: seq<Entry>)
    | Other(tag: nat)

  type Disk = map<nat, Block>

  function At(d: Disk, a: nat): Block
  {
    if a in d then d[a] else Other(0)
  }

  /** What a checkpoint records. */
  datatype Snapshot = Snapshot(sequence: nat, timestamp: nat, logHead: nat, inodes: seq<Entry>)

  function HeaderOf(s: Snapshot, complete: nat): Block
  {
    Header(CHECKPOINT_MAGIC, s.sequence, s.timestamp, s.logHead, |s.inodes|, complete)
  }

  /** LSFS_DIV_ROUND_UP of an entry count. */
  function BlocksNeeded(n: nat): nat
  {
    (n + ENTRIES_PER_BLOCK - 1) / ENTRIES_PER_BLOCK
  }

  /** lsfs_imap_save: the entries cut into blocks, the last one padded with zeros. */
  function SaveEntries(es: seq<Entry>): (bs: seq<Block>)
    ensures |bs| == BlocksNeeded(|es|)
  {
    if es == [] then []
    else if |es| <= ENTRIES_PER_BLOCK then [Entries(es)]
    else [Entries(es[..ENTRIES_PER_BLOCK])] + SaveEntries(es[ENTRIES_PER_BLOCK..])
  }

  /** The bytes of a block read as 256 entries. */
  function Decode(b: Block): (es: seq<Entry>)
    ensures |es| == ENTRIES_PER_BLOCK
  {
    if b.Entries? && |b.es| <= ENTRIES_PER_BLOCK then b.es + Padding(ENTRIES_PER_BLOCK - |b.es|)
    else Padding(ENTRIES_PER_BLOCK)
  }

  function Padding(n: nat): (es: seq<Entry>)
    ensures |es| == n
  {
    if n == 0 then [] else Padding(n - 1) + [ZERO_ENTRY]
  }

  /** lsfs_imap_load: `n` entries from the blocks at `start`. */
  function LoadEntries(d: Disk, start: nat, n: nat): (es: seq<Entry>)
    ensures |es| == n
    decreases n
  {
    if n <= ENTRIES_PER_BLOCK then (if n == 0 then [] else Decode(At(d, start))[..n])
    else Decode(At(d, start)) + LoadEntries(d, start + 1, n - ENTRIES_PER_BLOCK)
  }

  /** Loading what was saved gives it back, whatever the entries and wherever they are. */
  lemma {:induction false} SaveLoad(d: Disk, start: nat, es: seq<Entry>)
    requires forall i :: 0 <= i < |SaveEntries(es)| ==> At(d, start + i) == SaveEntries(es)[i]
    ensures LoadEntries(d, start, |es|) == es
    decreases |es|
  {
    var bs := SaveEntries(es);
    if es == [] {
    } else if |es| <= ENTRIES_PER_BLOCK {
      assert bs[0] == Entries(es);
    } else {
      assert bs[0] == Entries(es[..ENTRIES_PER_BLOCK]);
      var rest := es[ENTRIES_PER_BLOCK..];
      forall i | 0 <= i < |SaveEntries(rest)|
        ensures At(d, start + 1 + i) == SaveEntries(rest)[i]
      {
        assert At(d, start + (i + 1)) == bs[i + 1];
      }
      SaveLoad(d, start + 1, rest);
    }
  }

  /** The entries fit behind the header of a region. */
  predicate Fits(es: seq<Entry>)
  {
    BlocksNeeded(|es|) <= CHECKPOINT_BLOCKS - 1
  }

  function RegionStart(r: bool): nat
  {
    if r then CHECKPOINT1_START else CHECKPOINT0_START
  }

  predicate ValidHeader(b: Block)
  {
    b.Header? && b.magic == CHECKPOINT_MAGIC && b.complete == 1
  }

  /** The snapshot stored in a region with a valid header. */
  function Stored(d: Disk, r: bool): Snapshot
    requires ValidHeader(At(d, RegionStart(r)))
  {
    var h := At(d, RegionStart(r));
    Snapshot(h.sequence, h.timestamp, h.logHead, LoadEntries(d, RegionStart(r) + 1, h.entries))
  }

  /** The region lsfs_checkpoint_load takes: the valid one with the higher sequence number. */
  function BestRegion(d: Disk): Option<bool>
  {
    var h0 := At(d, CHECKPOINT0_START);
    var h1 := At(d, CHECKPOINT1_START);
    if ValidHeader(h0) && ValidHeader(h1) then Some(!(h0.sequence > h1.sequence))
    else if ValidHeader(h0) then Some(false)
    else if ValidHeader(h1) then Some(true)
    else None
  }

  /** lsfs_checkpoint_load. */
  function Load(d: Disk): Option<Snapshot>
  {
    match BestRegion(d)
    case None => None
    case Some(r) => Some(Stored(d, r))
  }

  /**
   * What is loaded: nothing exactly if neither region starts with a complete header; else a
   * region whose header is complete, with a sequence number as high as the other's, and the
   * second region if they are equal.
   */
  lemma LoadedRegion(d: Disk)
    ensures var h0, h1 := At(d, 1), At(d, 257);
            var ok0, ok1 := h0.Header? && h0.magic == 0x43484B50 && h0.complete == 1, h1.Header? && h1.magic == 0x43484B50 && h1.complete == 1;
            && (Load(d).None? <==> !ok0 && !ok1)
            && (ok0 && (!ok1 || h0.sequence > h1.sequence) ==> BestRegion(d) == Some(false))
            && (ok1 && (!ok0 || h0.sequence <= h1.sequence) ==> BestRegion(d) == Some(true))
  {
  }
}
