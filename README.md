# osfs in Dafny

A model of `osfs`, the in-memory Linux filesystem of `lab4`. It covers both
variants and proves properties about each.

## How osfs is laid out

At mount, `osfs` allocates one region with `vmalloc` and zero-fills it. It
then cuts the region into five consecutive areas:
- the `osfs_sb_info` superblock record;
- an inode bitmap and a block bitmap, each counted in `unsigned long` words;
- a table of inode records;
- a pool of `DATA_BLOCK_COUNT` blocks of `BLOCK_SIZE` bytes.

Allocation works the same way in both variants. The inode allocator takes the
lowest clear bit from 1 upwards, and the block allocator the lowest clear bit
from 0. Each decrements a free counter kept in the superblock.

The two variants differ in how an inode holds its data:
- **basic** (`lab4/dir.c`, `lab4/basic/`): each inode owns exactly one block,
  `i_block`. A directory is an array of 260-byte entries in that block, with
  the entry count being `i_size / 260`. Each entry holds a 255-byte name, one
  padding byte, and a little-endian `uint32_t` inode number at offset 256.
- **linked** (`lab4/bonus/`): every block starts with a 4-byte little-endian
  `next_block` header, and the rest is payload. An inode keeps `i_head`,
  `i_tail` and `i_blocks`. `OSFS_NO_NEXT_BLOCK` (`0xFFFFFFFF`) ends a chain.
  - Files map byte offsets to (block, offset) by walking the chain. They grow
    the chain on write and copy data in chunks.
  - Directories pack `MAX_DIR_ENTRIES` records into each block's payload.

## How the model is built

The model has one module per concern:

| module | what it holds |
|---|---|
| `Types` | `uint32_t` wrap-around (`Trunc32`, `Dec32`, `Inc32`), C's truncating division, little-endian words, error numbers, `S_IFMT` file types |
| `Layout` | the constants of both `osfs.h` headers; the instance geometry; the size sum and the pointer arithmetic of the region split |
| `Bitmap` | population count and the first-fit scan that specifies the allocators |
| `Region` | the class `SbInfo`, which is `osfs_sb_info` plus the arrays of the region; the inode record and its `DataRef` (one block, or a head/tail chain) |
| `Inodes` | `osfs_get_osfs_inode`, `osfs_iget`, and the allocators of both variants (the linked allocator also writes the new block's header) |
| `Super` | `osfs_fill_super` |
| `Dirent` | the 260-byte directory record: `strncpy` into it, `strlen`/`strncmp` against it, decoding, and emitting entries |
| `BasicDir` | `osfs_lookup`, `osfs_iterate`, `osfs_add_dir_entry` and `osfs_new_inode` of `lab4/dir.c` |
| `Chain` | acyclic chains as ghost sequences of block indexes; `osfs_find_block`, `osfs_append_block`, `osfs_ensure_offset` |
| `ChainFile` | `osfs_read` and `osfs_write` |
| `ChainDir` | `osfs_lookup`, `osfs_iterate`, `osfs_add_dir_entry` and `osfs_create` of `lab4/bonus/dir.c` |

How the C constructs map to Dafny:
- **State.** The region's areas are arrays of the `SbInfo` object, and the
  operations that change them are methods with `modifies` clauses.
- **Blocks.** Each block is its raw bytes, so the chain header and the
  directory records are encoded and decoded exactly as the C code lays them
  out.
- **Chains.** The C walks have no cycle guard. Each chain is therefore a ghost
  sequence of distinct block indexes, tied to the headers by `Chain.IsChain`.
  `ChainBytes` gives a file's contents as the concatenated payloads.
- **External calls.** Kernel calls whose outcome the core only tests become
  parameters:
  - `vmalloc`, `new_inode` and `d_make_root` success are booleans;
  - the room `dir_emit` accepts is a count;
  - `current_time` is `now`;
  - the owner that `inode_init_owner` sets is `uid`/`gid`.
- **Integer widths.** `i_size`, the counters and the inode numbers are
  `uint32_t`, and decrements and increments on them wrap as in C.

Where the code and its documented behaviour differ, the model follows the code:
- The header comment of `osfs_create` mentions `-ENAMETOOLONG`, but no length
  check exists. Names are taken as the VFS supplies them: at most 255 bytes,
  with no NUL.
- A failure after the inode bit or a block is taken gives neither back.
- The linked `osfs_add_dir_entry` allocates its boundary block before the
  duplicate check (Findings). `ChainDir.AddDirEntryAsWritten` models that
  order. The linked create (`ChainDir.LinkIntoParent`, `ChainDir.Install`,
  `ChainDir.Create`) is modelled over the corrected `ChainDir.AddDirEntry`
  instead, whose tight-chain invariant it relies on. In the code, an existing
  name at a block boundary makes `osfs_create` fail with `-ENOSPC` when no
  block is free, and otherwise with `-EEXIST` while keeping the parent's new
  block.
- The linked `osfs_lookup` looks only at the head block (Findings).

A 255-byte name fills the 255-byte `filename` field. Its terminating NUL
falls into the padding byte after it, which is why `Dirent.DecodeEntry` reads
the name up to offset 256.

## Model

| member | source | states |
|---|---|---|
| Types.Trunc32 | lab4/dir.c:238 | storing into a `uint32_t` keeps values in range unchanged and turns -1 into `0xFFFFFFFF` |
| Types.Dec32 | lab4/basic/inode.c:40 | `x--` on a `uint32_t` is `x - 1` above 0 and wraps from 0 to `0xFFFFFFFF` |
| Types.Inc32 | lab4/basic/inode.c:127 | `x++` on a `uint32_t` is `x + 1` below the top and wraps from `0xFFFFFFFF` to 0 |
| Types.CDiv | lab4/bonus/file.c:110 | C's signed division: equal to floor division for non-negative offsets, and 0 for the offset -1 that a zero-length write at position 0 passes |
| Types.Le32RoundTrip | lab4/basic/osfs.h:49-52 | the little-endian `inode_no` (and `next_block`) field decodes to the word stored in it |
| Types.Le32Injective | lab4/bonus/osfs.h:34-37 | different words have different byte images |
| Types.FileType | lab4/dir.c:123-126 | `mode & S_IFMT` is the multiple of `0x1000` at or below the mode, so the `S_ISDIR`/`S_ISREG`/`S_ISLNK` tests read one field |
| Layout.BitmapSizeIsCeiling | lab4/basic/osfs.h:20 | `BITMAP_SIZE(bits)` words hold every bit, and one word fewer would not (the same macro is at lab4/bonus/osfs.h:26-29) |
| Layout.BitmapBytesCover | lab4/basic/osfs.h:23-24 | the bytes of `INODE_BITMAP_SIZE`/`BLOCK_BITMAP_SIZE` words give a bit to every inode and block |
| Layout.MaxDirEntriesFit | lab4/basic/osfs.h:18 | `MAX_DIR_ENTRIES` records fit in one block and one more does not; the linked `MAX_DIR_ENTRIES` of lab4/bonus/osfs.h:25 fit in a block's payload after the 4-byte header, and one more does not |
| Layout.BlockHeaderIsOneBlock | lab4/bonus/osfs.h:34-37 | the 4-byte header plus the payload is exactly one block |
| Layout.PartitionTilesRegion | lab4/super.c:45-72 | the five areas follow one another in order from the start of the region; each bitmap has a bit per object; the inode table is `INODE_COUNT` records; the data blocks end exactly at `total_memory_size` |
| Layout.OsfsConstants | lab4/basic/osfs.h:15-26 | `0 < ROOT_INODE < INODE_COUNT`; `OSFS_NO_NEXT_BLOCK` is no block index; 3 directory records per 1024-byte block in both variants (15 per 4096-byte linked block); one 64-bit word per bitmap; the record's name field is followed by the inode number at offset 256 |
| Layout.OsfsGeometryValid | lab4/super.c:45-49 | the instance the source builds (20 inodes, 20 blocks of 1024 bytes) satisfies every bound the model relies on |
| Bitmap.PopcountUpdate | lab4/basic/inode.c:40 | setting or clearing one bit changes the number of set bits by exactly that bit's change |
| Bitmap.PopcountZero | lab4/super.c:75-76 | no bit is set exactly when the count of set bits is 0 |
| Bitmap.PopcountFull | lab4/basic/inode.c:120-121 | every bit is set exactly when the count of set bits is the length |
| Bitmap.FirstClear | lab4/basic/inode.c:37-43 | the first-fit scan: the lowest clear index at or after `from`, with every index before it set; none exactly when all are set |
| Bitmap.NoClearBitMeansFull | lab4/basic/inode.c:43-45 | a scan that finds no clear bit means the bitmap is full |
| Bitmap.FreeBitsFirstClear | lab4/basic/inode.c:108-122 | the first-fit scan finds no clear bit exactly when no bit is free, and taking the one it finds leaves one free bit fewer |
| Region.WithNext | lab4/bonus/inode.c:76-80 | writing `next_block` sets the header and leaves the block's length and payload as they were |
| Region.SbInfo.Init | lab4/super.c:52-72 | the region is zero-filled, the magic, geometry and free counters are set (`nr_free_inodes` is `INODE_COUNT - 1`), and the areas are placed by `RegionPartition`; both bitmaps are clear |
| Inodes.GetOsfsInode | lab4/basic/inode.c:15-22 | no record exactly when `ino` is 0 or at least `inode_count`; otherwise table slot `ino`; the same check is at lab4/bonus/inode.c:5-12 |
| Inodes.OpsFor | lab4/basic/inode.c:84-90 | directory operations exactly for directories, file operations exactly for regular files |
| Inodes.Iget | lab4/basic/inode.c:59-96 | `-EFAULT` exactly when the record check fails; `-ENOMEM` when the VFS allocation fails; otherwise a handle whose number, mode, size, block count, owner and times come from the record; the same in lab4/bonus/inode.c:29-65 |
| Inodes.AllocKeepsCount | lab4/basic/inode.c:37-42 | taking a clear bit and decrementing the counter keeps "free count + set bits = capacity" (and the counter was not 0) |
| Inodes.FreeKeepsCountIff | lab4/basic/inode.c:124-128 | the unconditional clear and increment keep that relation exactly when the freed bit was set |
| Inodes.FullIffNoneFree | lab4/dir.c:129-130 | under that relation the counter is 0 exactly when no bit is clear, so the early `nr_free == 0` test agrees with the scan |
| Inodes.GetFreeInode | lab4/basic/inode.c:33-46 | sets the lowest clear bit from 1 upwards and only it, decrements `nr_free_inodes` once and returns the index (never 0); with none, `-ENOSPC` and nothing changes; the counter relation is kept; the same in lab4/bonus/inode.c:14-27 |
| Inodes.AllocDataBlock | lab4/basic/inode.c:108-122 | sets the lowest clear block bit from 0 and only it, decrements `nr_free_blocks` and returns the index; with none, `-ENOSPC` and nothing changes |
| Inodes.AllocChainBlock | lab4/bonus/inode.c:67-87 | as `AllocDataBlock`, and the new block's header is `OSFS_NO_NEXT_BLOCK` with its payload untouched, a one-block chain |
| Inodes.FreeDataBlock | lab4/basic/inode.c:124-128 | clears the bit and increments the counter unconditionally; the counter relation survives exactly when the bit was set; the same in lab4/bonus/inode.c:89-93 |
| Super.RootRecord | lab4/super.c:105-110 | the root record is the zeroed record with `i_ino = ROOT_INODE`, a directory mode and two links, so its size, block count, owner and data reference are 0 |
| Super.ClearBitmap | lab4/super.c:75-76 | every bit of a bitmap is clear afterwards |
| Super.PopcountSingle | lab4/super.c:114 | a bitmap with only the root bit set counts one set bit, matching `nr_free_inodes = INODE_COUNT - 1` |
| Super.FillSuperAsWritten | lab4/super.c:36-128 | the error of each failing step (`-ENOMEM` for `vmalloc`, the root VFS inode and `d_make_root`; `-EIO` for the record check); on success the mounted state: counters consistent, only the root inode bit set, no block bit set, the root record, all else zero |
| Super.MountHandsOutRootBlock | lab4/super.c:105-114 | basic variant, as written: the root directory's `i_block` is 0 while block 0 is the first one the allocator hands out |
| Super.MountLeavesRootChainBroken | lab4/super.c:105-114 | linked variant, as written: the root's head and tail are block 0 with `i_blocks` 0, block 0's zeroed header is not `OSFS_NO_NEXT_BLOCK`, and block 0 is still free |
| Super.FillSuper | lab4/super.c:36-128 | corrected: the geometry and counters of the mount; the basic root owns block 0, marked used, and is an empty directory; the linked root starts as an empty chain, which is an empty directory whenever a block payload holds at least one record; the root has size 0 and two links, every other record and block is zero, and the free counters agree with both bitmaps |
| Dirent.CStr | lab4/dir.c:39 | `strlen` of a field: the longest NUL-free prefix, followed by a NUL when shorter than the field |
| Dirent.CStrOfNoNul | lab4/dir.c:39 | a NUL-free field reads back whole |
| Dirent.StrncmpEqWithoutNul | lab4/dir.c:40 | `strncmp(a, b, n) == 0` on a NUL-free prefix is byte equality of the first `n` bytes |
| Dirent.NameMatchesIff | lab4/dir.c:39-40 | the `strlen == len && strncmp == 0` test holds exactly when the stored name equals the query |
| Dirent.StrncpyReadsBack | lab4/dir.c:233-234 | `strncpy` of a name followed by a NUL reads back as the name |
| Dirent.EncodedName | lab4/dir.c:233-234 | the name written into a record reads back as the name, including a 255-byte one whose NUL falls in the padding byte |
| Dirent.EncodedIno | lab4/dir.c:235 | the inode number written into a record reads back |
| Dirent.DecodeEncode | lab4/dir.c:233-235 | a written record decodes to exactly the entry written |
| Dirent.Entries | lab4/dir.c:35-36 | the `i_size / 260` records of a block decoded in order |
| Dirent.PutEntrySlots | lab4/dir.c:233-235 | writing record `k` changes record `k` to the encoded entry and leaves every other record byte for byte |
| Dirent.PutEntryKeepsOthers | lab4/dir.c:233-235 | writing record `k` leaves every other entry as it was |
| Dirent.PutEntryReadsBack | lab4/dir.c:233-235 | record `k` then holds the name and inode number written |
| Dirent.AppendEntry | lab4/dir.c:233-238 | writing record `count` extends the entry list by exactly the new entry |
| Dirent.EntriesOneMore | lab4/dir.c:233-238 | a block whose records agree with the old ones except record `n`, which holds `e`, lists the old entries followed by `e` |
| Dirent.FindFrom | lab4/dir.c:38-49 | the first index at or after `from` whose name matches, with no match before it; none exactly when no later name matches |
| Dirent.FindAfterAppend | lab4/dir.c:224-238 | appending keeps an earlier match; a new name is then found at the appended index |
| Dirent.Names | lab4/dir.c:84-96 | the `dir_emit` arguments of a list of entries, one per entry in order |
| Dirent.EmitFrom | lab4/dir.c:84-96 | the entry loop of `osfs_iterate`: success emits every entry from the start index in order; a full buffer stops it with `-EINVAL` after exactly the room it had; `pos` advances by one per entry emitted |
| Dirent.EmitFromResumes | lab4/dir.c:84-96 | a listing refused for lack of room resumes at the returned `pos` where it stopped, with nothing skipped or repeated |
| BasicDir.EntriesFit | lab4/basic/osfs.h:18 | a directory's records lie inside its block |
| BasicDir.Lookup | lab4/dir.c:17-52 | the first entry whose name equals the query, resolved by `osfs_iget`; no entry, no inode; an `osfs_iget` error is returned |
| BasicDir.ScanEntries | lab4/dir.c:38-49 | the record loop finds the first matching entry of the block and its inode number, or none |
| BasicDir.IterateSpec | lab4/dir.c:64-99 | from `pos` 0, `.` and `..` first (a quiet stop when they do not fit), then the entries from index 0; from `pos >= 2`, the entries from index `pos - 2` |
| BasicDir.IterateListsAll | lab4/dir.c:64-99 | a listing from 0 with room for all names `.`, `..` and every entry once, in stored order, and ends with `pos` past them |
| BasicDir.EmitEntries | lab4/dir.c:84-96 | the loop over the block's records emits what `EmitFrom` specifies |
| BasicDir.Iterate | lab4/dir.c:64-99 | one call produces what `IterateSpec` specifies for the directory's entries |
| BasicDir.AppendDirEntry | lab4/dir.c:233-238 | the record at index `count` becomes the new entry, every other entry is kept, and `i_size` grows by one record |
| BasicDir.AddDirEntry | lab4/dir.c:202-241 | `-ENOSPC` when the block is full, checked first; `-EEXIST` when a name matches; both change nothing. Otherwise the entries become the old ones plus the new one, found at its index, and `i_size` grows by 260. Nothing outside the directory's block and record changes |
| BasicDir.SizeGrows | lab4/dir.c:238 | one more record fits in the 32-bit `i_size` and adds one to the entry count |
| BasicDir.NewRecord | lab4/dir.c:173-183 | the zeroed record given `ino`, mode, owner, `i_size 0`, `i_blocks 1` and the three times |
| BasicDir.NewVfsInode | lab4/dir.c:138-165 | the VFS inode: number, mode, two links for a directory and one otherwise, size 0, operations by file type |
| BasicDir.NewInode | lab4/dir.c:114-200 | corrected (one decrement). `-EINVAL` for an unsupported mode and `-ENOSPC` for a zero counter or no free inode, all before any change. Once the lowest free inode is taken, its bit stays set and `nr_free_inodes` stays one lower on every path. `-ENOMEM` exactly when `new_inode` fails; nothing else has changed then. `-ENOSPC` when no block is free; the new record is then written and nothing else has changed. Otherwise the lowest free block is taken, the record names it, and `nr_free_blocks` drops by one. No other error is returned, and the counter relation is kept |
| BasicDir.NewInodeAsWritten | lab4/dir.c:114-200 | as written: on success `nr_free_inodes` has dropped by two, and from a consistent state the counter no longer agrees with the bitmap |
| BasicDir.DoubleDecrementDrifts | lab4/dir.c:194 | one bit taken against two decrements: the counter ends one below the clear-bit count, or wraps to `0xFFFFFFFF` from 1 |
| Chain.ChainBound | lab4/bonus/file.c:25-36 | an acyclic chain cannot be longer than the pool |
| Chain.NoHeadIffEmpty | lab4/bonus/osfs.h:83-84 | `i_head == OSFS_NO_NEXT_BLOCK` exactly when the inode owns no block |
| Chain.ChainBytesLength | lab4/bonus/file.c:28-34 | a chain of `n` blocks holds `n` payloads of `BLOCK_SIZE - 4` bytes |
| Chain.ChainBytesSplit | lab4/bonus/file.c:65-68 | the file's bytes are the payloads before block `k`, block `k`'s payload, and those after it |
| Chain.ChainBytesAt | lab4/bonus/file.c:65-68 | bytes `k*p + off` onwards of the file are bytes `off` onwards of block `k`'s payload |
| Chain.ChainBytesAppend | lab4/bonus/file.c:95-97 | appending a block appends its payload to the file's bytes |
| Chain.ChainBytesFrame | lab4/bonus/file.c:154 | blocks with unchanged payloads give unchanged file bytes |
| Chain.ChainFrame | lab4/bonus/file.c:85-100 | writes outside a chain leave it a chain with the same bytes |
| Chain.LinkedIsChain | lab4/bonus/file.c:89-98 | linking a fresh block as the new tail, or as head and tail of an empty chain, gives the old chain followed by that block |
| Chain.LinkedBytes | lab4/bonus/file.c:95-97 | linking keeps every old payload and adds the new block's |
| Chain.FindBlock | lab4/bonus/file.c:15-39 | `-ENODATA` for an empty chain; block number `offset / p` of the chain at offset `offset mod p` when the chain is that long; `-EFAULT` otherwise |
| Chain.TookBoth | lab4/bonus/file.c:115-122 | two allocations in a row took, between them, the blocks of the first followed by those of the second, and no others |
| Chain.TookOne | lab4/bonus/inode.c:67-87 | setting one clear bit takes exactly that block |
| Chain.KeptBoth | lab4/bonus/dir.c:225-241 | two writes in a row leave every block outside both of their footprints as it was |
| Chain.GrewTwice | lab4/bonus/file.c:115-122 | one growth after another is one growth: the appended blocks were free, are the only bits set, and nothing outside the final chain was written |
| Chain.GrewByLink | lab4/bonus/file.c:83-101 | taking the free block `b` and linking it behind the chain is a growth by exactly `b` |
| Chain.AppendBlock | lab4/bonus/file.c:83-101 | allocates the lowest free block and links it as the tail (or head and tail), `i_blocks` grows by one, and earlier blocks keep their order and payloads; no other bit is set and no block outside the chain is written; an allocator failure changes nothing |
| Chain.LinkBlock | lab4/bonus/file.c:89-99 | the link step: the old tail's header points at the block, head and tail are updated, `i_blocks` grows by one |
| Chain.RequiredBlocks | lab4/bonus/file.c:109-110 | `offset / p + 1`, with C division, so 1 for the offset -1 |
| Chain.RequiredCovers | lab4/bonus/file.c:110 | that many blocks hold byte `offset` |
| Chain.EnsureOffset | lab4/bonus/file.c:106-124 | `0` exactly when the chain plus the free blocks can reach `required_blocks`, and then the chain has exactly `max(blocks, required)` blocks and covers byte `offset`; nothing at all changes when it already did; on `-ENOSPC` every free block has been appended and the bitmap is full; the appended blocks are the only bits set, no block outside the chain is written, and the old bytes are a prefix |
| Chain.AppendBlocks | lab4/bonus/file.c:115-122 | the `add` loop appends exactly `add` blocks when that many are free, and otherwise every free block with `-ENOSPC` and a full bitmap; only the appended bits are set and no block outside the chain is written |
| ChainFile.Overlay | lab4/bonus/file.c:154 | bytes in the written window come from the data; all others are kept |
| ChainFile.PutPayload | lab4/bonus/file.c:154 | a copy into a block's payload keeps its header |
| ChainFile.ReadSpec | lab4/bonus/file.c:47-51 | nothing at or past `i_size`; otherwise the bytes from `pos` to `min(pos + len, i_size)` |
| ChainFile.Read | lab4/bonus/file.c:41-78 | returns what `ReadSpec` specifies of the file's bytes and advances the position by exactly the bytes returned |
| ChainFile.ReadChunks | lab4/bonus/file.c:58-74 | the chunk loop copies the chain's bytes from `pos`, stopping where the chain ends |
| ChainFile.Locate | lab4/bonus/file.c:146-152 | an offset inside the chain lies in its block `k` at `off`, with `offset = k*p + off` |
| ChainFile.WriteChunks | lab4/bonus/file.c:143-160 | the chunk loop lays the data over the chain's bytes at `pos`, keeps the chain, and leaves blocks outside it alone |
| ChainFile.WriteOne | lab4/bonus/file.c:146-159 | one chunk extends the written prefix of the data |
| ChainFile.ReadBack | lab4/bonus/file.c:65-73 | reading back a written range within `i_size` returns what was written |
| ChainFile.FileBytesLength | lab4/bonus/file.c:28-34 | a file's bytes are its blocks times the payload size |
| ChainFile.WriteRange | lab4/bonus/file.c:143-169 | after the copy the data sits at `pos` and all other bytes are kept; `i_size` becomes `max(i_size, pos + len)`, the times are `now`, and the size still lies within the chain; no block outside the chain and no other record is written |
| ChainFile.CopyIn | lab4/bonus/file.c:143-160 | the data is placed at `pos` in the file's bytes, and no block outside the chain is written |
| ChainFile.Write | lab4/bonus/file.c:127-174 | success exactly when the chain plus the free blocks reach the blocks the write needs: it returns `len`, advances the position by `len`, places the data with all other bytes kept, sets `i_size` to `max(i_size, pos + len)`, and a read of the range returns the data; `-ENOSPC` exactly otherwise, after every free block was appended, leaving the position and the bytes as they were; only the appended bits are set and no block outside the chain is written |
| ChainDir.ChainEntries | lab4/bonus/dir.c:69-86 | entry `e` of a directory is record `e mod M` of chain block `e / M` |
| ChainDir.ChainEntriesPrefix | lab4/bonus/dir.c:69-86 | the first `n` entries are a prefix of the first `count` |
| ChainDir.ChainEntriesFrame | lab4/bonus/dir.c:115-125 | blocks whose payloads are unchanged keep the entries |
| ChainDir.ScanChain | lab4/bonus/dir.c:130-145 | the whole-chain scan finds the first matching entry and its inode number, or none |
| ChainDir.ScanHead | lab4/bonus/dir.c:22-49 | the lookup loop as written finds the first match among the first `min(count, M)` entries only |
| ChainDir.LookupAsWritten | lab4/bonus/dir.c:10-52 | as written: lookup resolves the name among the head block's entries only |
| ChainDir.Lookup | lab4/bonus/dir.c:10-52 | corrected: the first entry of the whole chain with the name, resolved by `osfs_iget` |
| ChainDir.HeadLookupAgreesIff | lab4/bonus/dir.c:25-48 | the head-only lookup agrees with the whole-chain one exactly when the name is absent or first appears among the first `M` entries; past them it reports no entry |
| ChainDir.EmitChain | lab4/bonus/dir.c:69-86 | the block loop emits what `EmitFrom` specifies for the chain's entries from `curr_entry` |
| ChainDir.Iterate | lab4/bonus/dir.c:55-89 | corrected (`curr_entry` taken after the dots): one call produces what `IterateSpec` specifies for the directory's entries |
| ChainDir.HeadReads | lab4/bonus/dir.c:62-81 | the head-block record indexes the loop reads from `curr_entry` on |
| ChainDir.ListingFromZeroReadsBeforeBlock | lab4/bonus/dir.c:62-67 | as written, a listing from 0 reads records -2 and -1 of the head block |
| ChainDir.TightTail | lab4/bonus/dir.c:113-125 | on a tight chain, growing where needed puts the last block where entry `count` belongs and keeps the chain tight |
| ChainDir.BoundaryBlockBreaksTight | lab4/bonus/dir.c:115-146 | a block linked at a whole-block boundary and then left empty makes the chain one block too long |
| ChainDir.PutKeepsEntry | lab4/bonus/dir.c:155-157 | writing entry `count` leaves every other entry |
| ChainDir.PutReadsEntry | lab4/bonus/dir.c:155-157 | entry `count` then reads as the name and inode number written |
| ChainDir.ChainEntriesPut | lab4/bonus/dir.c:155-159 | the entries become the old ones plus the new one |
| ChainDir.AppendDirBlock | lab4/bonus/dir.c:100-125 | the lowest free block is linked behind the chain, the pool becoming exactly the linked pool, with the directory's entries as they were; only its bit is set and no block outside the chain is written; an allocator failure changes nothing |
| ChainDir.AppendedDir | lab4/bonus/dir.c:113-125 | after a block is linked behind a directory, the old blocks keep their payloads and the directory lists the entries it listed before |
| ChainDir.GrowForEntry | lab4/bonus/dir.c:100-125 | the lowest free block is added exactly when the chain is empty or the count is a nonzero multiple of `M`, and the pool is then exactly that block linked behind the chain; `-ENOSPC` exactly when that allocation fails, changing nothing; the entries and `i_size` are kept; only the added bit is set and no block outside the chain is written |
| ChainDir.PutTailEntry | lab4/bonus/dir.c:155-159 | writes slot `count mod M` of the tail block and grows `i_size` by one record |
| ChainDir.GrowthAfterTight | lab4/bonus/dir.c:109-125 | the growth rule keeps a tight chain tight, and the boundary block without its entry breaks tightness |
| ChainDir.CheckAndPut | lab4/bonus/dir.c:127-159 | `-EEXIST`, with nothing changed, exactly when a name matches; otherwise the tail write, which appends the entry when the tail is its block; no block outside the chain is written |
| ChainDir.AddDirEntryAsWritten | lab4/bonus/dir.c:91-162 | as written: `-ENOSPC` exactly when a needed block cannot be had, changing nothing. Otherwise the lowest free block, when needed, is linked first. `-EEXIST` then comes exactly when a name matches, leaving the grown pool with the entries and `i_size` kept; at a boundary the chain is one block too long. On success the pool is the grown pool with the entry written to record `count mod M` of the chain's last block, and `i_size` grows by 260. Only the directory's record changes, only the taken bit is set, and no block outside the chain is written |
| ChainDir.PutAfterGrowth | lab4/bonus/dir.c:127-159 | after growth: `-EEXIST` exactly when a name matches, changing nothing. Otherwise the entry is written to record `count mod M` of the last block, and only the directory's `i_size` changes, growing by one record. On a chain that was tight, the entry is appended and the chain stays tight. The growth's bitmap and block frame still holds |
| ChainDir.StaleEntryShown | lab4/bonus/dir.c:115-159 | on that overlong chain, the next add writes past the block the new entry belongs to, so the entry read back is record 0 of the skipped block, not the one written. It applies to the pool `ChainDir.AddDirEntryAsWritten` leaves on success: `PutTail` of the grown pool along a chain of `count / M + 2` blocks |
| ChainDir.GrowAndPut | lab4/bonus/dir.c:100-159 | growth, then the write, on a tight chain: `-ENOSPC` exactly when a needed block is missing, changing nothing; otherwise the entry is appended, the lowest free block is the one added, and the chain stays tight; only that bit is set and no block outside the chain is written |
| ChainDir.PutIntoRoom | lab4/bonus/dir.c:149-159 | with room in the tail of a chain that was tight, the entry is appended, `i_size` grows by one record, the chain stays tight, and no block outside it is written |
| ChainDir.AddDirEntry | lab4/bonus/dir.c:91-162 | corrected (names compared first): `-EEXIST` exactly when a name matches, `-ENOSPC` exactly when a needed block is missing, both changing nothing; otherwise the entry is appended, found at its index, `i_size` grows by 260, the lowest free block is the one added, and the chain stays tight; only that bit is set and no block outside the chain or record other than the parent's is written |
| ChainDir.AllocOutsideDir | lab4/bonus/dir.c:227 | a block allocated for another inode is the lowest free one, its header is `OSFS_NO_NEXT_BLOCK` and no other block changes; the directory and its entries stay as they were |
| ChainDir.TouchDir | lab4/bonus/dir.c:244-246 | the parent's modification and change times become `now`, and nothing else changes |
| ChainDir.NewChainRecord | lab4/bonus/dir.c:212-222 | the zeroed record given `ino`, mode, owner, size 0, `i_blocks 0`, no head or tail, and the times |
| ChainDir.CreateRecord | lab4/bonus/dir.c:212-235 | the record is written; a directory gets the lowest free block as head and tail with `i_blocks 1`, which makes it an empty one-block directory; `-ENOSPC` exactly when a directory finds no free block, keeping the record already written; only that block's bit is set and no other block is written |
| ChainDir.FirstDirBlock | lab4/bonus/dir.c:225-235 | the lowest free block becomes a new directory's head and tail with `i_blocks 1`, an empty one-block directory; `-ENOSPC` exactly when none is free, changing nothing; the parent is kept |
| ChainDir.LinkIntoParent | lab4/bonus/dir.c:237-246 | corrected (via `ChainDir.AddDirEntry`): `-EEXIST` exactly when the parent has the name, `-ENOSPC` exactly when a needed block is missing, both changing nothing; otherwise the entry is appended and the parent's times are set; no other record changes, only the added bit is set and no block outside the chain is written |
| ChainDir.Install | lab4/bonus/dir.c:212-246 | corrected (via `ChainDir.AddDirEntry`): success exactly when the name is absent and the free blocks cover the new directory's block and the parent's growth; `-EEXIST` exactly when the name is present and the new directory's block was found; the new record (file: empty chain; directory: one block), the parent's new entry, and no other record, bit or block changed |
| ChainDir.Create | lab4/bonus/dir.c:164-255 | corrected (via `ChainDir.AddDirEntry`): `-EINVAL` and `-ENOSPC` before any change; `-ENOMEM` exactly when the VFS inode cannot be had after the inode bit is taken; success exactly when the name is absent and the free blocks suffice, `-EEXIST` exactly when it is present; on success the lowest free inode is taken with one decrement, the VFS inode is built, the record is written, the parent lists the new entry and gets the new times; no other record, bit or block changes, and the counters stay consistent with the bitmaps |

## Left out

- VFS and kernel services (`new_inode`, `iput`, `d_splice_alias`, `d_instantiate`, `d_make_root`, `mark_inode_dirty`, `insert_inode_hash`, `dir_emit`, `current_time`, `inode_init_owner`): their outcomes are parameters, and reference counts and dentries are not modelled.
- `copy_to_user`/`copy_from_user` always succeed, so their `-EFAULT` paths are not modelled.
- Bits are `array<bool>`, not `unsigned long` words with atomic `set_bit`/`test_bit`; there is no concurrency.
- Timestamps are opaque integers; `simple_inode_init_ts` on the VFS inode is left out.
- `osfs_iget` copies `i_size` and the other fields into the VFS inode. `inode->i_size` and the other VFS-side copies are outside the model; the handle records what they are copied from.
- `osfs_destroy_inode` (lab4/super.c:17-22), both `osfs_init.c` files, and labs 1 to 3 are not part of this model: they are registration or are unrelated to the filesystem.
- `osfs_create` in lab4/dir.c:260-302 is an unfinished skeleton that uses uninitialised variables, so it is not modelled.
- Rollback: the code has none. A failure after the inode bit or a block is taken leaks it, and the model proves nothing beyond that.
- The `memset` followed by field assignments of a record is one write of the final record.
- `BasicDir.IterateSpec`, `BasicDir.Iterate`, `ChainDir.Iterate`: require `pos` to be 0 or at least 2. Position 1, where `dir_emit_dots` leaves `pos` when only `.` fitted, is not modelled (a call from there would start at record -1), and `pos` is an unbounded integer rather than a `loff_t`.
- Names are at most 255 bytes and hold no NUL, as the VFS supplies them; a longer name would overrun the record in C and is not modelled.
- `Dirent.DecodeEntry` reads the name through offset 256, so a 255-byte name's NUL lies in the padding byte; memory past the record is not modelled.
- The check `used_entries >= max_entries_per_block` (lab4/bonus/dir.c:150-153) can never hold, since `used_entries` is a remainder modulo `MAX_DIR_ENTRIES`; it is not modelled as a branch.
- The check `ino >= inode_count` after `osfs_get_free_inode` (lab4/dir.c:134, lab4/bonus/dir.c:181) can never hold; the model keeps the test without a separate result.
- `ChainDir.LookupAsWritten`: the `while` loop of lab4/bonus/dir.c:22-49 is modelled by its effect, one scan of the head block, because the recomputed, clamped count ends it after that block.
- The `#ifndef BLOCK_SIZE` fallback of lab4/bonus/osfs.h:21-23: `linux/fs.h` defines `BLOCK_SIZE` as 1024, so the instance uses 1024 in both variants; the block size is a geometry parameter throughout.
- Geometries whose block indexes reach `OSFS_NO_NEXT_BLOCK`, or whose pool offsets do not fit in 32 bits, are excluded by `Layout.ValidGeometry`; the source's instance lies well inside these bounds.

## Findings

| source | as written | input that shows it | evidently intended | confidence | as-written member | corrected member |
|---|---|---|---|---|---|---|
| lab4/dir.c:194 | `nr_free_inodes--` after `osfs_get_free_inode` has already decremented it | any successful `osfs_new_inode` from a consistent state: the counter ends one below the number of clear inode bits (from 1 it wraps to `0xFFFFFFFF`) | one decrement per inode taken | not executed | BasicDir.NewInodeAsWritten, BasicDir.DoubleDecrementDrifts | BasicDir.NewInode |
| lab4/bonus/dir.c:25-48 | the count is recomputed and clamped to `MAX_DIR_ENTRIES` on each pass, so the loop ends after the head block | a directory with 4 entries and 3 per block (1024-byte blocks): looking up the fourth name returns no entry | search every block of the chain, as the duplicate check does | not executed | ChainDir.LookupAsWritten, ChainDir.HeadLookupAgreesIff | ChainDir.Lookup |
| lab4/bonus/dir.c:115-146 | the boundary block is allocated and linked before the names are compared, and stays linked after `-EEXIST` | a directory with 3 entries and 3 per block: adding an existing name links a second block; the next new name links a third and is written there, so entry 3 is read from the second block's record 0 | compare names before growing the chain | not executed | ChainDir.AddDirEntryAsWritten, ChainDir.StaleEntryShown | ChainDir.AddDirEntry |
| lab4/super.c:105-114 | the zeroed root record keeps block 0 (basic `i_block`, linked `i_head`/`i_tail`) without block 0 being marked used | basic: the first allocation after mount returns block 0, the root's block; linked: the root chain starts at a free block whose zeroed header points back to block 0 | give the root a block that is marked used (basic) or an empty chain (linked) | not executed | Super.FillSuperAsWritten, Super.MountHandsOutRootBlock, Super.MountLeavesRootChainBroken | Super.FillSuper |
| lab4/bonus/dir.c:62-67 | `curr_entry = ctx->pos - 2` is computed before `dir_emit_dots` advances `pos` | a listing from position 0 of a directory with a head block: records -2 and -1, before the head block's payload, are read and emitted | take `curr_entry` after the dots | not executed | ChainDir.HeadReads, ChainDir.ListingFromZeroReadsBeforeBlock | ChainDir.Iterate |
