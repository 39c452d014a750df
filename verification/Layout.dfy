/**
 * The disk layout of LSFS: the fixed regions in front of the log, and the
 * arithmetic that maps a segment number and an offset to a block address.
 */
module Layout {
  const BLOCK_SIZE := 4096
  const SEGMENT_BLOCKS := 1024
  const MAX_INODES := 65536
  const CHECKPOINT0_START := 1
  const CHECKPOINT1_START := 257
  const CHECKPOINT_BLOCKS := 256
  const SEGTABLE_START := 513
  const LOG_START := 1025
  const ROOT_INO := 1
  const DIRECT_BLOCKS := 12
  const WORDS_PER_BLOCK := 512
  const SEGMENT_MAGIC := 0x5345474D
  const CHECKPOINT_MAGIC := 0x43484B50
  const UINT32 := 0x1_0000_0000

  type Byte = x: int | 0 <= x < 256
  type Bytes = seq<Byte>

  datatype Option<T> = None | Some(value: T)

  function Min(x: nat, y: nat): nat
  {
    if x < y then x else y
  }

  /** Blocks of a file reachable through direct and single indirect pointers. */
  const MAPPED_BLOCKS := DIRECT_BLOCKS + WORDS_PER_BLOCK

  /** Blocks that can be read: those that can be written, and the double-indirect ones. */
  const READ_BLOCKS := MAPPED_BLOCKS + WORDS_PER_BLOCK * WORDS_PER_BLOCK

  /** Block info records that fit behind the 24-byte header of a segment: (4096 - 24) / 12. */
  const SUMMARY_RECORDS := 339

  /** Absolute address of block `off` of segment `seg`. */
  function SegmentToBlock(seg: nat, off: nat): (a: nat)
    ensures a >= LOG_START
    ensures off < SEGMENT_BLOCKS ==> SegOf(a) == seg && OffOf(a) == off
  {
    LOG_START + seg * SEGMENT_BLOCKS + off
  }

  /** The segment a log address lies in. */
  function SegOf(a: nat): nat
  {
    if a < LOG_START then 0 else (a - LOG_START) / SEGMENT_BLOCKS
  }

  /** The offset of a log address inside its segment; offset 0 is the summary block. */
  function OffOf(a: nat): (o: nat)
    ensures o < SEGMENT_BLOCKS
  {
    if a < LOG_START then 0 else (a - LOG_START) % SEGMENT_BLOCKS
  }

  /** The conversion as coded: below the log everything is (0, 0), and the segment is cut to 32 bits. */
  function BlockToSegment(a: nat): (nat, nat)
  {
    (SegOf(a) % UINT32, OffOf(a))
  }

  /**
   * The superblock, the checkpoint regions and the segment table lie one behind the other up to
   * the log, 256 segments are one gigabyte, and pointers and records fill the block they are in.
   */
  lemma RegionsTile()
    ensures CHECKPOINT0_START == 1 && CHECKPOINT1_START == CHECKPOINT0_START + CHECKPOINT_BLOCKS
    ensures SEGTABLE_START == CHECKPOINT1_START + CHECKPOINT_BLOCKS && LOG_START == SEGTABLE_START + 512
    ensures 256 * SEGMENT_BLOCKS * BLOCK_SIZE == 0x4000_0000
    ensures 8 * WORDS_PER_BLOCK == BLOCK_SIZE
    ensures 24 + 12 * SUMMARY_RECORDS <= BLOCK_SIZE < 24 + 12 * (SUMMARY_RECORDS + 1)
  {
  }

  /** The two conversions are inverse on the log, for every segment number that fits 32 bits. */
  lemma ConversionsInverse(a: nat, seg: nat, off: nat)
    requires seg < UINT32 && off < SEGMENT_BLOCKS
    ensures BlockToSegment(SegmentToBlock(seg, off)) == (seg, off)
    ensures a >= LOG_START && SegOf(a) < UINT32 ==>
              SegmentToBlock(BlockToSegment(a).0, BlockToSegment(a).1) == a
  {
    Address(a);
  }

  /** Every log address is the address of its own segment and offset. */
  lemma Address(a: nat)
    ensures a >= LOG_START ==> a == SegmentToBlock(SegOf(a), OffOf(a))
  {
    if a >= LOG_START {
      var q := a - LOG_START;
      assert q == q / SEGMENT_BLOCKS * SEGMENT_BLOCKS + q % SEGMENT_BLOCKS;
    }
  }
}
