/** The allocator and inode-table access of `inode.c`, which both variants
    share (the linked variant's block allocator also writes the new block's
    chain header), and the lemmas that relate the free counters to the
    bitmaps. */
module Inodes {
  import opened Types
  import opened Layout
  import opened Bitmap
  import opened Region

  /** `osfs_get_osfs_inode`: the table slot of `ino`, or `None` for NULL. */
  function GetOsfsInode(sb: SbInfo, ino: u32): (r: Option<nat>)
    reads sb
    ensures r.None? <==> ino == 0 || ino >= sb.inodeCount
    ensures r.Some? ==> r.value == ino as int && 0 < r.value < sb.inodeCount as int
  {
    if ino == 0 || ino >= sb.inodeCount then None else Some(ino as nat)
  }

  /** The `inode_operations`/`file_operations` pair a VFS inode is given. */
  datatype Ops = DirOps | FileOps | NoOps

  function OpsFor(mode: u16): (o: Ops)
    ensures o == DirOps <==> IsDir(mode)
    ensures o == FileOps <==> IsReg(mode)
  {
    if IsDir(mode) then DirOps else if IsReg(mode) then FileOps else NoOps
  }

  /** The fields of a VFS `struct inode` the core sets; `record` is the
      table slot `i_private` points to. */
  datatype VfsInode = VfsInode(
    ino: u32, mode: u16, nlink: nat, uid: u32, gid: u32,
    atime: Time, mtime: Time, ctime: Time,
    size: u32, blocks: u32, ops: Ops, record: nat)

  /** `osfs_iget`. `vfsOk` is whether the VFS's `new_inode` succeeds; the
      link count is the one `new_inode` gives. */
  function Iget(sb: SbInfo, ino: u32, vfsOk: bool): (r: Result<VfsInode>)
    reads sb, sb.inodeTable, sb.dataBlocks
    requires sb.Valid()
    ensures GetOsfsInode(sb, ino).None? ==> r == Err(EFAULT)
    ensures GetOsfsInode(sb, ino).Some? && !vfsOk ==> r == Err(ENOMEM)
    ensures r.Ok? <==> GetOsfsInode(sb, ino).Some? && vfsOk
    ensures r.Ok? ==>
      var rec := sb.inodeTable[ino];
      && r.value.ino == ino && r.value.record == ino as int
      && r.value.mode == rec.mode && r.value.size == rec.size && r.value.blocks == rec.blocks
      && r.value.uid == rec.uid && r.value.gid == rec.gid
      && r.value.atime == rec.atime && r.value.mtime == rec.mtime && r.value.ctime == rec.ctime
      && (r.value.ops == DirOps <==> IsDir(rec.mode))
      && (r.value.ops == FileOps <==> IsReg(rec.mode))
  {
    match GetOsfsInode(sb, ino)
    case None => Err(EFAULT)
    case Some(slot) =>
      if !vfsOk then Err(ENOMEM)
      else
        var rec := sb.inodeTable[slot];
        Ok(VfsInode(ino, rec.mode, 1, rec.uid, rec.gid, rec.atime, rec.mtime, rec.ctime,
                    rec.size, rec.blocks, OpsFor(rec.mode), slot))
  }

  /** Setting a clear bit and decrementing the counter keeps the counter
      consistent with the bitmap; the counter cannot have been 0. */
  lemma AllocKeepsCount(bits: seq<bool>, nrFree: u32, i: nat)
    requires i < |bits| && !bits[i]
    requires nrFree as int + Popcount(bits) == |bits|
    ensures nrFree > 0
    ensures Dec32(nrFree) as int + Popcount(bits[i := true]) == |bits|
  {
    PopcountFull(bits);
    PopcountUpdate(bits, i, true);
  }

  /** `osfs_free_data_block` clears the bit and increments the counter
      unconditionally: consistency survives exactly when the bit was set. */
  lemma FreeKeepsCountIff(bits: seq<bool>, nrFree: u32, b: nat)
    requires b < |bits| < NO_NEXT_BLOCK
    requires nrFree as int + Popcount(bits) == |bits|
    ensures Inc32(nrFree) as int + Popcount(bits[b := false]) == |bits| <==> bits[b]
  {
    PopcountUpdate(bits, b, false);
  }

  /** With a consistent counter, the bitmap has no clear bit exactly when the
      counter is 0 — the guard `osfs_new_inode` and `osfs_create` test. */
  lemma FullIffNoneFree(bits: seq<bool>, nrFree: u32)
    requires nrFree as int + Popcount(bits) == |bits|
    ensures FirstClear(bits, 0).None? <==> nrFree == 0
  {
    PopcountFull(bits);
  }

  /** `osfs_get_free_inode`: the first clear bit from 1 upwards is set and the
      counter decremented; with none, `-ENOSPC` and nothing changes. Inode 0
      is never handed out. */
  method GetFreeInode(sb: SbInfo) returns (r: Result<u32>)
    requires sb.Valid()
    modifies sb, sb.inodeBitmap
    ensures sb.nrFreeBlocks == old(sb.nrFreeBlocks)
    ensures FirstClear(old(sb.inodeBitmap[..]), 1).None? ==>
      r == Err(ENOSPC) && sb.inodeBitmap[..] == old(sb.inodeBitmap[..])
      && sb.nrFreeInodes == old(sb.nrFreeInodes)
    ensures FirstClear(old(sb.inodeBitmap[..]), 1).Some? ==>
      var i := FirstClear(old(sb.inodeBitmap[..]), 1).value;
      && r == Ok(i as u32)
      && sb.inodeBitmap[..] == old(sb.inodeBitmap[..])[i := true]
      && sb.nrFreeInodes == Dec32(old(sb.nrFreeInodes))
    ensures r.Ok? ==> 0 < r.value < sb.inodeCount
    ensures old(sb.CountsConsistent()) ==> sb.CountsConsistent()
  {
    ghost var bits := sb.inodeBitmap[..];
    var ino: u32 := 1;
    while ino < sb.inodeCount
      invariant 1 <= ino as int <= Max(1, sb.inodeCount as int)
      invariant sb.inodeBitmap[..] == bits && sb.nrFreeInodes == old(sb.nrFreeInodes)
      invariant sb.nrFreeBlocks == old(sb.nrFreeBlocks)
      invariant FirstClear(bits, 1) == FirstClear(bits, ino as nat)
      decreases sb.inodeCount - ino
    {
      if !sb.inodeBitmap[ino] {
        if old(sb.CountsConsistent()) {
          AllocKeepsCount(bits, sb.nrFreeInodes, ino as nat);
        }
        sb.inodeBitmap[ino] := true;
        sb.nrFreeInodes := Dec32(sb.nrFreeInodes);
        return Ok(ino);
      }
      ino := ino + 1;
    }
    return Err(ENOSPC);
  }

  /** `osfs_alloc_data_block` of the single-block variant: the first clear
      block bit from 0 upwards is set and the counter decremented; with none,
      `-ENOSPC` and nothing changes. */
  method AllocDataBlock(sb: SbInfo) returns (r: Result<u32>)
    requires sb.Valid()
    modifies sb, sb.blockBitmap
    ensures sb.nrFreeInodes == old(sb.nrFreeInodes)
    ensures FirstClear(old(sb.blockBitmap[..]), 0).None? ==>
      r == Err(ENOSPC) && sb.blockBitmap[..] == old(sb.blockBitmap[..])
      && sb.nrFreeBlocks == old(sb.nrFreeBlocks)
    ensures FirstClear(old(sb.blockBitmap[..]), 0).Some? ==>
      var b := FirstClear(old(sb.blockBitmap[..]), 0).value;
      && r == Ok(b as u32)
      && sb.blockBitmap[..] == old(sb.blockBitmap[..])[b := true]
      && sb.nrFreeBlocks == Dec32(old(sb.nrFreeBlocks))
    ensures r.Ok? ==> r.value < sb.blockCount
    ensures old(sb.CountsConsistent()) ==> sb.CountsConsistent()
  {
    ghost var bits := sb.blockBitmap[..];
    var i: u32 := 0;
    while i < sb.blockCount
      invariant i <= sb.blockCount
      invariant sb.blockBitmap[..] == bits && sb.nrFreeBlocks == old(sb.nrFreeBlocks)
      invariant sb.nrFreeInodes == old(sb.nrFreeInodes)
      invariant FirstClear(bits, 0) == FirstClear(bits, i as nat)
      decreases sb.blockCount - i
    {
      if !sb.blockBitmap[i] {
        if old(sb.CountsConsistent()) {
          AllocKeepsCount(bits, sb.nrFreeBlocks, i as nat);
        }
        sb.blockBitmap[i] := true;
        sb.nrFreeBlocks := Dec32(sb.nrFreeBlocks);
        return Ok(i);
      }
      i := i + 1;
    }
    return Err(ENOSPC);
  }

  /** `osfs_alloc_data_block` of the linked variant: the same allocation,
      after which the new block's `next_block` is `OSFS_NO_NEXT_BLOCK`, so it
      is a one-block chain; its payload is left as it was. */
  method AllocChainBlock(sb: SbInfo) returns (r: Result<u32>)
    requires sb.Valid()
    modifies sb, sb.blockBitmap, sb.dataBlocks
    ensures sb.Valid()
    ensures sb.nrFreeInodes == old(sb.nrFreeInodes)
    ensures FirstClear(old(sb.blockBitmap[..]), 0).None? ==>
      r == Err(ENOSPC) && sb.blockBitmap[..] == old(sb.blockBitmap[..])
      && sb.nrFreeBlocks == old(sb.nrFreeBlocks) && sb.dataBlocks[..] == old(sb.dataBlocks[..])
    ensures FirstClear(old(sb.blockBitmap[..]), 0).Some? ==>
      var b := FirstClear(old(sb.blockBitmap[..]), 0).value;
      && r == Ok(b as u32)
      && sb.blockBitmap[..] == old(sb.blockBitmap[..])[b := true]
      && sb.nrFreeBlocks == Dec32(old(sb.nrFreeBlocks))
      && sb.dataBlocks[..] == old(sb.dataBlocks[..])[b := WithNext(old(sb.dataBlocks[b]), NO_NEXT_BLOCK)]
    ensures r.Ok? ==> r.value < sb.blockCount && NextOf(sb.dataBlocks[r.value]) == NO_NEXT_BLOCK
    ensures old(sb.CountsConsistent()) ==> sb.CountsConsistent()
  {
    r := AllocDataBlock(sb);
    if r.Ok? {
      sb.dataBlocks[r.value] := WithNext(sb.dataBlocks[r.value], NO_NEXT_BLOCK);
    }
  }

  /** `osfs_free_data_block`: clears the bit and increments the counter
      whether or not the block was in use. */
  method FreeDataBlock(sb: SbInfo, b: u32)
    requires sb.Valid() && b < sb.blockCount
    modifies sb, sb.blockBitmap
    ensures sb.blockBitmap[..] == old(sb.blockBitmap[..])[b := false]
    ensures sb.nrFreeBlocks == Inc32(old(sb.nrFreeBlocks))
    ensures sb.nrFreeInodes == old(sb.nrFreeInodes)
    ensures old(sb.CountsConsistent()) ==> (sb.CountsConsistent() <==> old(sb.blockBitmap[b]))
  {
    if old(sb.CountsConsistent()) {
      FreeKeepsCountIff(sb.blockBitmap[..], sb.nrFreeBlocks, b as nat);
    }
    sb.blockBitmap[b] := false;
    sb.nrFreeBlocks := Inc32(sb.nrFreeBlocks);
  }
}
