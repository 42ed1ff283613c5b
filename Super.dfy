/** `osfs_fill_super`: the mount that builds the whole in-memory state. The
    environment's answers (whether `vmalloc`, the root's `new_inode` and
    `d_make_root` succeed) and `current_time` are parameters. */
module Super {
  import opened Types
  import opened Layout
  import opened Bitmap
  import opened Region
  import opened Inodes
  import BasicDir
  import ChainDir

  /** `S_IFDIR | 0755`. */
  const ROOT_MODE: u16 := 0x41ED

  /** The root's record: zeroed, then number, mode, two links and the mount
      time. Its data reference stays at the zeroed value. */
  function RootRecord(v: Variant, now: Time): (rec: Inode)
    ensures rec.ino as int == ROOT_INODE && IsDir(rec.mode) && rec.links == 2
    ensures rec.size == 0 && rec.blocks == 0 && rec.uid == 0 && rec.gid == 0
    ensures rec.data == ZeroInode(v).data
  {
    ZeroInode(v).(ino := ROOT_INODE as u32, mode := ROOT_MODE, links := 2,
                  atime := now, mtime := now, ctime := now)
  }

  /** The state a successful mount leaves behind. */
  ghost predicate Mounted(sb: SbInfo, g: Geometry, v: Variant, now: Time)
    reads sb, sb.inodeBitmap, sb.blockBitmap, sb.inodeTable, sb.dataBlocks
  {
    && ValidGeometry(g) && sb.Valid() && sb.CountsConsistent()
    && sb.magic == OSFS_MAGIC && sb.blockSize as int == g.blockSize
    && sb.inodeCount as int == g.inodeCount && sb.blockCount as int == g.blockCount
    && sb.partition == RegionPartition(g)
    && sb.nrFreeInodes as int == g.inodeCount - 1 && sb.nrFreeBlocks as int == g.blockCount
    && ROOT_INODE < sb.inodeBitmap.Length
    && (forall i | 0 <= i < sb.inodeBitmap.Length :: sb.inodeBitmap[i] <==> i == ROOT_INODE)
    && (forall b | 0 <= b < sb.blockBitmap.Length :: !sb.blockBitmap[b])
    && sb.inodeTable[ROOT_INODE] == RootRecord(v, now)
    && (forall i | 0 <= i < sb.inodeTable.Length && i != ROOT_INODE :: sb.inodeTable[i] == ZeroInode(v))
    && (forall b | 0 <= b < sb.dataBlocks.Length :: sb.dataBlocks[b] == ZeroBlock(g.blockSize))
  }

  /** `memset` of a bitmap area. */
  method ClearBitmap(a: array<bool>)
    modifies a
    ensures forall i | 0 <= i < a.Length :: !a[i]
  {
    for i := 0 to a.Length
      invariant forall j | 0 <= j < i :: !a[j]
    {
      a[i] := false;
    }
  }

  /** A bitmap with exactly one bit set counts one. */
  lemma {:induction false} PopcountSingle(s: seq<bool>, k: nat)
    requires k < |s|
    requires forall i | 0 <= i < |s| :: s[i] <==> i == k
    ensures Popcount(s) == 1
  {
    var z := s[k := false];
    PopcountZero(z);
    PopcountUpdate(z, k, true);
    assert z[k := true] == s;
  }

  /** `osfs_fill_super` as written. Every failure after the allocation gives
      the region back, so an error leaves no state. */
  method FillSuperAsWritten(g: Geometry, v: Variant, vmallocOk: bool, rootVfsOk: bool,
                            makeRootOk: bool, now: Time) returns (r: Result<SbInfo>)
    requires ValidGeometry(g)
    ensures !vmallocOk ==> r == Err(ENOMEM)
    ensures vmallocOk && !rootVfsOk ==> r == Err(ENOMEM)
    ensures vmallocOk && rootVfsOk && g.inodeCount <= ROOT_INODE ==> r == Err(EIO)
    ensures vmallocOk && rootVfsOk && g.inodeCount > ROOT_INODE && !makeRootOk ==> r == Err(ENOMEM)
    ensures r.Ok? <==> vmallocOk && rootVfsOk && g.inodeCount > ROOT_INODE && makeRootOk
    ensures r.Ok? ==> (fresh(r.value) && fresh(r.value.inodeBitmap) && fresh(r.value.blockBitmap)
                       && fresh(r.value.inodeTable) && fresh(r.value.dataBlocks))
    ensures r.Ok? ==> Mounted(r.value, g, v, now)
  {
    if !vmallocOk {
      return Err(ENOMEM);
    }
    var sb := new SbInfo.Init(g, v);
    ClearBitmap(sb.inodeBitmap);
    ClearBitmap(sb.blockBitmap);
    if !rootVfsOk {
      return Err(ENOMEM);
    }
    var slot := GetOsfsInode(sb, ROOT_INODE as u32);
    if slot.None? {
      return Err(EIO);
    }
    sb.inodeTable[slot.value] := ZeroInode(v);
    sb.inodeTable[slot.value] := sb.inodeTable[slot.value].(
      ino := ROOT_INODE as u32, mode := ROOT_MODE, links := 2,
      atime := now, mtime := now, ctime := now);
    sb.inodeBitmap[ROOT_INODE] := true;
    if !makeRootOk {
      return Err(ENOMEM);
    }
    PopcountSingle(sb.inodeBitmap[..], ROOT_INODE);
    PopcountZero(sb.blockBitmap[..]);
    return Ok(sb);
  }

  /** After the mount as written, the single-block root names block 0 as its
      directory block, yet block 0 is the first one the allocator hands out. */
  lemma MountHandsOutRootBlock(sb: SbInfo, g: Geometry, now: Time)
    requires Mounted(sb, g, Basic, now) && g.blockCount > 0
    ensures sb.inodeTable[ROOT_INODE].data == Single(0)
    ensures FirstClear(sb.blockBitmap[..], 0) == Some(0)
  {
  }

  /** After the mount as written, the linked root claims head and tail 0 with
      no blocks: neither an empty chain (`OSFS_NO_NEXT_BLOCK`) nor block 0's
      one-block chain, and block 0 is still free. */
  lemma MountLeavesRootChainBroken(sb: SbInfo, g: Geometry, now: Time)
    requires Mounted(sb, g, Linked, now) && g.blockCount > 0
    ensures sb.inodeTable[ROOT_INODE].data == Chained(0, 0)
    ensures sb.inodeTable[ROOT_INODE].blocks == 0
    ensures NextOf(sb.dataBlocks[0]) != NO_NEXT_BLOCK
    ensures FirstClear(sb.blockBitmap[..], 0) == Some(0)
  {
    assert sb.dataBlocks[0][..HEADER_SIZE] == [0, 0, 0, 0];
  }

  /** The mount with the root's data reserved: the single-block root takes
      its block from the allocator, and the linked root starts as an empty
      chain that its first directory entry grows. */
  method FillSuper(g: Geometry, v: Variant, vmallocOk: bool, rootVfsOk: bool,
                   makeRootOk: bool, now: Time) returns (r: Result<SbInfo>)
    requires ValidGeometry(g)
    ensures r.Ok? <==> (vmallocOk && rootVfsOk && g.inodeCount > ROOT_INODE && makeRootOk
                        && (v == Basic ==> g.blockCount > 0))
    ensures r.Ok? ==> (fresh(r.value) && fresh(r.value.inodeBitmap) && fresh(r.value.blockBitmap)
                       && fresh(r.value.inodeTable) && fresh(r.value.dataBlocks))
    ensures r.Ok? ==> var sb := r.value;
      && sb.Valid() && sb.CountsConsistent()
      && sb.magic == OSFS_MAGIC && sb.blockSize as int == g.blockSize
      && sb.inodeCount as int == g.inodeCount && sb.blockCount as int == g.blockCount
      && sb.partition == RegionPartition(g)
      && sb.nrFreeInodes as int == g.inodeCount - 1
      && ROOT_INODE < sb.inodeBitmap.Length
      && (forall i | 0 <= i < sb.inodeBitmap.Length :: sb.inodeBitmap[i] <==> i == ROOT_INODE)
      && (forall i | 0 <= i < sb.inodeTable.Length && i != ROOT_INODE :: sb.inodeTable[i] == ZeroInode(v))
      && (forall b | 0 <= b < sb.dataBlocks.Length :: sb.dataBlocks[b] == ZeroBlock(g.blockSize))
    ensures r.Ok? && v == Basic ==> var sb := r.value;
      && sb.inodeTable[ROOT_INODE] == RootRecord(v, now).(data := Single(0), blocks := 1)
      && (forall b | 0 <= b < sb.blockBitmap.Length :: sb.blockBitmap[b] <==> b == 0)
      && sb.nrFreeBlocks as int == g.blockCount - 1
      && BasicDir.DirAt(sb, ROOT_INODE) && BasicDir.DirEntries(sb, ROOT_INODE) == []
    ensures r.Ok? && v == Linked ==> var sb := r.value;
      && sb.inodeTable[ROOT_INODE] == RootRecord(v, now).(data := Chained(NO_NEXT_BLOCK, NO_NEXT_BLOCK))
      && (forall b | 0 <= b < sb.blockBitmap.Length :: !sb.blockBitmap[b])
      && sb.nrFreeBlocks as int == g.blockCount
      && (ChainMaxDirEntries(g.blockSize) > 0 ==>
            ChainDir.TightDir(sb, ROOT_INODE, []) && ChainDir.DirEntries(sb, ROOT_INODE, []) == [])
  {
    r := FillSuperAsWritten(g, v, vmallocOk, rootVfsOk, makeRootOk, now);
    if r.Err? {
      return;
    }
    var sb := r.value;
    var root := sb.inodeTable[ROOT_INODE];
    if v == Basic {
      var b := AllocDataBlock(sb);
      if b.Err? {
        return Err(ENOSPC);
      }
      sb.inodeTable[ROOT_INODE] := root.(data := Single(b.value), blocks := 1);
    } else {
      sb.inodeTable[ROOT_INODE] := root.(data := Chained(NO_NEXT_BLOCK, NO_NEXT_BLOCK));
    }
  }
}
