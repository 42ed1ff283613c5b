/** Layout constants of `osfs.h` (both variants) and the region-size
    arithmetic of `osfs_fill_super`.  The numbers the C hard-codes are kept as
    constants; the capacities and the sizes the C compiler decides
    (`BITS_PER_LONG`, `sizeof(struct osfs_sb_info)`, `sizeof(struct osfs_inode)`)
    are parameters of a `Geometry`. */
module Layout {
  import opened Types

  const OSFS_MAGIC: u32 := 0x051AB520
  const INODE_COUNT: nat := 20
  const DATA_BLOCK_COUNT: nat := 20
  const MAX_FILENAME_LEN: nat := 255
  const ROOT_INODE: nat := 1

  /** `(uint32_t)-1`, the chain terminator of the linked variant. */
  const NO_NEXT_BLOCK: u32 := 0xFFFF_FFFF

  /** `sizeof(uint32_t)`: the `next_block` header at the start of a chained block. */
  const HEADER_SIZE: nat := 4

  /** `struct osfs_dir_entry` is `char filename[255]` followed by a `uint32_t`,
      which the C alignment rules place at offset 256; the record is 260 bytes. */
  const DIRENT_INO_OFFSET: nat := 256
  const DIRENT_SIZE: nat := 260

  /** `BLOCK_SIZE` as `linux/fs.h` defines it (`1 << BLOCK_SIZE_BITS`). */
  const KERNEL_BLOCK_SIZE: nat := 1024

  /** The value the chain-variant header gives `BLOCK_SIZE` when no earlier
      header has defined it. */
  const FALLBACK_BLOCK_SIZE: nat := 4096

  /** Capacities and compiler-decided sizes of one filesystem instance. */
  datatype Geometry = Geometry(
    blockSize: nat,        // BLOCK_SIZE
    inodeCount: nat,       // INODE_COUNT
    blockCount: nat,       // DATA_BLOCK_COUNT
    wordBits: nat,         // BITS_PER_LONG
    sbInfoSize: nat,       // sizeof(struct osfs_sb_info)
    inodeSize: nat)        // sizeof(struct osfs_inode)

  /** What the C types can hold: the `uint32_t` superblock fields, a block
      index that can never be confused with `NO_NEXT_BLOCK`, a block with
      room for its chain header and at least one payload byte, and byte
      offsets into the pool (and one block past it) that the code's 32-bit
      `block_no * BLOCK_SIZE` and `i_size` arithmetic can represent. */
  predicate ValidGeometry(g: Geometry) {
    && g.wordBits > 0 && g.wordBits % 8 == 0
    && HEADER_SIZE < g.blockSize
    && g.inodeCount < U32_LIMIT
    && g.blockCount < NO_NEXT_BLOCK
    && (g.blockCount + 1) * g.blockSize < U32_LIMIT
  }

  /** The instance the source builds: 20 inodes, 20 blocks, `linux/fs.h`'s block size. */
  function Osfs(wordBits: nat, sbInfoSize: nat, inodeSize: nat): Geometry {
    Geometry(KERNEL_BLOCK_SIZE, INODE_COUNT, DATA_BLOCK_COUNT, wordBits, sbInfoSize, inodeSize)
  }

  /** `BITMAP_SIZE(bits)`: the number of `unsigned long` words for `bits` bits. */
  function BitmapSize(bits: nat, wordBits: nat): nat
    requires wordBits > 0
  {
    (bits + wordBits - 1) / wordBits
  }

  /** `BITMAP_SIZE` is the ceiling of `bits / BITS_PER_LONG`: enough words for
      every bit, and not one word more. */
  lemma BitmapSizeIsCeiling(bits: nat, wordBits: nat)
    requires wordBits > 0
    ensures BitmapSize(bits, wordBits) * wordBits >= bits
    ensures BitmapSize(bits, wordBits) * wordBits < bits + wordBits
  {
    var n := bits + wordBits - 1;
    var q, r := n / wordBits, n % wordBits;
    assert n == q * wordBits + r;
  }

  /** `MAX_DIR_ENTRIES` of the single-block variant. */
  function BasicMaxDirEntries(blockSize: nat): nat {
    blockSize / DIRENT_SIZE
  }

  /** Usable bytes of a chained block: `BLOCK_SIZE - sizeof(uint32_t)`. */
  function PayloadSize(blockSize: nat): nat
    requires blockSize >= HEADER_SIZE
  {
    blockSize - HEADER_SIZE
  }

  /** `MAX_DIR_ENTRIES` of the linked variant, counted in the payload. */
  function ChainMaxDirEntries(blockSize: nat): nat
    requires blockSize >= HEADER_SIZE
  {
    PayloadSize(blockSize) / DIRENT_SIZE
  }

  /** Both `MAX_DIR_ENTRIES` are floors: that many entries fit in a block
      (its payload, for the linked variant) and one more does not. */
  lemma MaxDirEntriesFit(blockSize: nat)
    requires blockSize >= HEADER_SIZE
    ensures BasicMaxDirEntries(blockSize) * DIRENT_SIZE <= blockSize
    ensures (BasicMaxDirEntries(blockSize) + 1) * DIRENT_SIZE > blockSize
    ensures HEADER_SIZE + ChainMaxDirEntries(blockSize) * DIRENT_SIZE <= blockSize
    ensures HEADER_SIZE + (ChainMaxDirEntries(blockSize) + 1) * DIRENT_SIZE > blockSize
  {
  }

  /** `struct osfs_block_header` is exactly one block: the 4-byte header and
      `BLOCK_SIZE - 4` payload bytes. */
  lemma BlockHeaderIsOneBlock(blockSize: nat)
    requires blockSize >= HEADER_SIZE
    ensures HEADER_SIZE + PayloadSize(blockSize) == blockSize
  {
  }

  function WordBytes(g: Geometry): nat { g.wordBits / 8 }

  /** `INODE_BITMAP_SIZE * sizeof(unsigned long)` and the block counterpart. */
  function InodeBitmapBytes(g: Geometry): nat
    requires ValidGeometry(g)
  {
    BitmapSize(g.inodeCount, g.wordBits) * WordBytes(g)
  }

  function BlockBitmapBytes(g: Geometry): nat
    requires ValidGeometry(g)
  {
    BitmapSize(g.blockCount, g.wordBits) * WordBytes(g)
  }

  /** `total_memory_size` of `osfs_fill_super`. */
  function TotalMemorySize(g: Geometry): nat
    requires ValidGeometry(g)
  {
    assert g.inodeCount * g.inodeSize >= 0 && g.blockCount * g.blockSize >= 0;
    g.sbInfoSize + InodeBitmapBytes(g) + BlockBitmapBytes(g)
      + g.inodeCount * g.inodeSize + g.blockCount * g.blockSize
  }

  /** Byte offsets, from the start of the region, of the four pointers that
      `osfs_fill_super` stores in `osfs_sb_info`. */
  datatype Partition = Partition(inodeBitmap: nat, blockBitmap: nat, inodeTable: nat, dataBlocks: nat)

  /** The pointer arithmetic of `osfs_fill_super`: `sb_info + 1`, then each
      area starts where the previous one ends. */
  function RegionPartition(g: Geometry): Partition
    requires ValidGeometry(g)
  {
    var inodeBitmap := g.sbInfoSize;
    var blockBitmap := inodeBitmap + InodeBitmapBytes(g);
    var inodeTable := blockBitmap + BlockBitmapBytes(g);
    var dataBlocks := inodeTable + g.inodeCount * g.inodeSize;
    Partition(inodeBitmap, blockBitmap, inodeTable, dataBlocks)
  }

  /** A bitmap of `BITMAP_SIZE(bits)` words, counted in bytes, has a bit for
      each of `bits` objects. */
  lemma BitmapBytesCover(bits: nat, wordBits: nat)
    requires wordBits > 0 && wordBits % 8 == 0
    ensures BitmapSize(bits, wordBits) * (wordBits / 8) * 8 >= bits
  {
    var q, k := BitmapSize(bits, wordBits), wordBits / 8;
    BitmapSizeIsCeiling(bits, wordBits);
    assert k * 8 == wordBits;
    assert q * k * 8 == q * (k * 8);
  }

  /** The five areas tile the region in order: sb_info, inode bitmap, block
      bitmap, inode table, data blocks; each bitmap holds a bit per inode or
      block; the data blocks end exactly where the region ends. */
  lemma PartitionTilesRegion(g: Geometry)
    requires ValidGeometry(g)
    ensures var p := RegionPartition(g);
      && 0 <= p.inodeBitmap <= p.blockBitmap <= p.inodeTable <= p.dataBlocks <= TotalMemorySize(g)
      && (p.blockBitmap - p.inodeBitmap) * 8 >= g.inodeCount
      && (p.inodeTable - p.blockBitmap) * 8 >= g.blockCount
      && p.dataBlocks - p.inodeTable == g.inodeCount * g.inodeSize
      && p.dataBlocks + g.blockCount * g.blockSize == TotalMemorySize(g)
  {
    BitmapBytesCover(g.inodeCount, g.wordBits);
    BitmapBytesCover(g.blockCount, g.wordBits);
    assert g.inodeCount * g.inodeSize >= 0 && g.blockCount * g.blockSize >= 0;
  }

  /** The fixed numbers of `osfs.h`: the root inode is a real, non-sentinel
      inode number; the chain terminator is never a block index; both
      `MAX_DIR_ENTRIES` come to 3 for `linux/fs.h`'s 1024-byte blocks and the
      linked variant's to 15 for its own 4096-byte fallback; one 64-bit word
      holds either bitmap. */
  lemma OsfsConstants()
    ensures 0 < ROOT_INODE < INODE_COUNT
    ensures NO_NEXT_BLOCK >= DATA_BLOCK_COUNT
    ensures BasicMaxDirEntries(KERNEL_BLOCK_SIZE) == 3
    ensures ChainMaxDirEntries(KERNEL_BLOCK_SIZE) == 3
    ensures ChainMaxDirEntries(FALLBACK_BLOCK_SIZE) == 15
    ensures BitmapSize(INODE_COUNT, 64) == 1 && BitmapSize(DATA_BLOCK_COUNT, 64) == 1
    ensures DIRENT_INO_OFFSET >= MAX_FILENAME_LEN && DIRENT_INO_OFFSET % 4 == 0
    ensures DIRENT_SIZE == DIRENT_INO_OFFSET + 4
  {
  }

  /** The source's instance fits the C types on any word size. */
  lemma OsfsGeometryValid(wordBits: nat, sbInfoSize: nat, inodeSize: nat)
    requires wordBits > 0 && wordBits % 8 == 0
    ensures ValidGeometry(Osfs(wordBits, sbInfoSize, inodeSize))
  {
  }
}
