/** The mounted state: `struct osfs_sb_info` and the region it points into
    (two bitmaps, the inode table, the block pool), shared by both variants.
    The two variants' `struct osfs_inode` differ only in how they name their
    data, which `DataRef` captures. */
module Region {
  import opened Types
  import opened Layout
  import opened Bitmap

  /** A `struct timespec64`, kept as an opaque instant; 0 is the zeroed value. */
  type Time = int

  /** `i_block` of the single-block variant, `i_head`/`i_tail` of the linked one. */
  datatype DataRef = Single(block: u32) | Chained(head: u32, tail: u32)

  /** `struct osfs_inode`. */
  datatype Inode = Inode(
    ino: u32, size: u32, blocks: u32, mode: u16, links: u16,
    uid: u32, gid: u32, atime: Time, mtime: Time, ctime: Time,
    data: DataRef)

  /** Which `osfs.h` the code is built against. */
  datatype Variant = Basic | Linked

  /** An inode record after `memset(..., 0, ...)`. */
  function ZeroInode(v: Variant): Inode {
    Inode(0, 0, 0, 0, 0, 0, 0, 0, 0, 0, if v == Basic then Single(0) else Chained(0, 0))
  }

  function ZeroBlock(n: nat): seq<byte> {
    seq(n, _ => 0)
  }

  // A chained block (`struct osfs_block_header`): the little-endian
  // `next_block` word, then the payload.

  function NextOf(blk: seq<byte>): u32
    requires |blk| >= HEADER_SIZE
  {
    FromLe32(blk[..HEADER_SIZE])
  }

  function Payload(blk: seq<byte>): seq<byte>
    requires |blk| >= HEADER_SIZE
  {
    blk[HEADER_SIZE..]
  }

  /** `hdr->next_block = next`: the header reads back as `next` and the
      payload is untouched. */
  function WithNext(blk: seq<byte>, next: u32): (r: seq<byte>)
    requires |blk| >= HEADER_SIZE
    ensures |r| == |blk|
    ensures NextOf(r) == next
    ensures Payload(r) == Payload(blk)
  {
    Le32RoundTrip(next);
    assert (Le32(next) + blk[HEADER_SIZE..])[..HEADER_SIZE] == Le32(next);
    Le32(next) + blk[HEADER_SIZE..]
  }

  /** `struct osfs_sb_info` together with the memory its pointers designate.
      The geometry fields and the partition are fixed when the region is set
      up; the free counters and the contents of the four areas change. */
  class SbInfo {
    const magic: u32
    const blockSize: u32
    const inodeCount: u32
    const blockCount: u32
    var nrFreeInodes: u32
    var nrFreeBlocks: u32
    /** Where, in the region, the four pointer fields point. */
    const partition: Partition
    const inodeBitmap: array<bool>
    const blockBitmap: array<bool>
    const inodeTable: array<Inode>
    const dataBlocks: array<seq<byte>>

    /** Each area holds one element per inode or block, the bitmaps are two
        areas, every block is `block_size` bytes, block indexes stay below
        `OSFS_NO_NEXT_BLOCK`, and pool offsets fit in 32 bits. */
    ghost predicate Valid()
      reads this, dataBlocks
    {
      && inodeBitmap.Length == inodeCount as int
      && inodeTable.Length == inodeCount as int
      && blockBitmap.Length == blockCount as int
      && dataBlocks.Length == blockCount as int
      && inodeBitmap != blockBitmap
      && blockCount < NO_NEXT_BLOCK
      && HEADER_SIZE < blockSize as int
      && (blockCount as int + 1) * blockSize as int < U32_LIMIT
      && forall b | 0 <= b < dataBlocks.Length :: |dataBlocks[b]| == blockSize as int
    }

    /** Each free counter plus the number of set bits is the capacity. */
    ghost predicate CountsConsistent()
      reads this, inodeBitmap, blockBitmap
    {
      && nrFreeInodes as int + Popcount(inodeBitmap[..]) == inodeCount as int
      && nrFreeBlocks as int + Popcount(blockBitmap[..]) == blockCount as int
    }

    /** The part of `osfs_fill_super` before the root inode: the region is
        allocated and zero-filled, the geometry and free counters are set,
        and the region is cut into its areas. */
    constructor Init(g: Geometry, v: Variant)
      requires ValidGeometry(g)
      ensures magic == OSFS_MAGIC
      ensures blockSize as int == g.blockSize && inodeCount as int == g.inodeCount
      ensures blockCount as int == g.blockCount
      ensures nrFreeInodes == Trunc32(g.inodeCount - 1) && nrFreeBlocks as int == g.blockCount
      ensures partition == RegionPartition(g)
      ensures fresh(inodeBitmap) && fresh(blockBitmap) && fresh(inodeTable) && fresh(dataBlocks)
      ensures forall i | 0 <= i < inodeBitmap.Length :: !inodeBitmap[i]
      ensures forall b | 0 <= b < blockBitmap.Length :: !blockBitmap[b]
      ensures forall i | 0 <= i < inodeTable.Length :: inodeTable[i] == ZeroInode(v)
      ensures forall b | 0 <= b < dataBlocks.Length :: dataBlocks[b] == ZeroBlock(g.blockSize)
      ensures Valid()
    {
      magic := OSFS_MAGIC;
      blockSize := g.blockSize;
      inodeCount := g.inodeCount;
      blockCount := g.blockCount;
      nrFreeInodes := Trunc32(g.inodeCount - 1);
      nrFreeBlocks := g.blockCount;
      partition := RegionPartition(g);
      inodeBitmap := new bool[g.inodeCount](_ => false);
      blockBitmap := new bool[g.blockCount](_ => false);
      inodeTable := new Inode[g.inodeCount](_ => ZeroInode(v));
      dataBlocks := new seq<byte>[g.blockCount](_ => ZeroBlock(g.blockSize));
    }
  }
}
