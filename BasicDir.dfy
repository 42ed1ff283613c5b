/** `dir.c` of the single-block variant: a directory is one data block
    holding `i_size / 260` entries back to back. Lookup, listing, adding an
    entry and creating an inode. */
module BasicDir {
  import opened Types
  import opened Layout
  import opened Bitmap
  import opened Region
  import opened Inodes
  import opened Dirent

  /** The number of entries a directory record's size stands for. */
  function EntryCount(rec: Inode): nat {
    rec.size as nat / DIRENT_SIZE
  }

  /** Record `d` is a single-block directory whose entries fit its block. */
  ghost predicate DirAt(sb: SbInfo, d: nat)
    reads sb, sb.inodeTable, sb.dataBlocks
  {
    && sb.Valid()
    && d < sb.inodeTable.Length
    && sb.inodeTable[d].data.Single?
    && sb.inodeTable[d].data.block < sb.blockCount
    && EntryCount(sb.inodeTable[d]) <= BasicMaxDirEntries(sb.blockSize as nat)
  }

  /** The entries fit in the directory's block. */
  lemma EntriesFit(sb: SbInfo, d: nat)
    requires DirAt(sb, d)
    ensures EntryCount(sb.inodeTable[d]) * DIRENT_SIZE <= |sb.dataBlocks[sb.inodeTable[d].data.block]|
  {
    MaxDirEntriesFit(sb.blockSize as nat);
  }

  /** The decoded entries of directory `d`. */
  ghost function DirEntries(sb: SbInfo, d: nat): seq<DirEntry>
    reads sb, sb.inodeTable, sb.dataBlocks
    requires DirAt(sb, d)
  {
    EntriesFit(sb, d);
    Entries(sb.dataBlocks[sb.inodeTable[d].data.block], EntryCount(sb.inodeTable[d]))
  }

  /** `osfs_lookup`: scans the entries in order with the `strlen`/`strncmp`
      test and builds the VFS inode of the first match; `Ok(None)` is the
      `NULL` that lets the VFS make a negative dentry. */
  method Lookup(sb: SbInfo, dir: nat, name: seq<byte>, vfsOk: bool) returns (r: Result<Option<VfsInode>>)
    requires DirAt(sb, dir)
    ensures r == Resolve(sb, DirEntries(sb, dir), name, vfsOk)
  {
    var rec := sb.inodeTable[dir];
    EntriesFit(sb, dir);
    var hit, ino := ScanEntries(sb.dataBlocks[rec.data.block], rec.size as nat / DIRENT_SIZE, name);
    if hit.None? {
      return Ok(None);
    }
    var inode := Iget(sb, ino, vfsOk);
    if inode.Err? {
      return Err(inode.error);
    }
    return Ok(Some(inode.value));
  }

  /** What one call of `osfs_iterate` produces from `pos` with a buffer that
      accepts `room` entries: the two dots first when `pos` is 0 (stopping
      quietly if they do not fit), then the entries from index `pos - 2`. */
  function IterateSpec(es: seq<DirEntry>, pos: int, room: nat): (l: Listing)
    requires pos == 0 || pos >= 2
    ensures pos >= 2 ==> l == EmitFrom(es, pos - 2, room, pos)
    ensures pos == 0 && room < 2 ==> l == Listing(Pass, [Dot, DotDot][..room], room)
    ensures pos == 0 && room >= 2 ==>
      var rest := EmitFrom(es, 0, room - 2, 2);
      l == Listing(rest.rc, [Dot, DotDot] + rest.emitted, rest.pos)
  {
    if pos >= 2 then EmitFrom(es, pos - 2, room, pos)
    else if room == 0 then Listing(Pass, [], 0)
    else if room == 1 then Listing(Pass, [Dot], 1)
    else
      var rest := EmitFrom(es, 0, room - 2, 2);
      Listing(rest.rc, [Dot, DotDot] + rest.emitted, rest.pos)
  }

  /** A complete listing from position 0 with enough room names the two dots
      and then every entry once, in order, and leaves `pos` past them all. */
  lemma IterateListsAll(es: seq<DirEntry>, room: nat)
    requires room >= |es| + 2
    ensures IterateSpec(es, 0, room) == Listing(Pass, [Dot, DotDot] + Names(es), |es| + 2)
  {
    assert es[Min(0, |es|)..] == es;
  }

  /** The entry loop of `osfs_iterate` over the first `count` records of
      `blk`, from index `start`, with `pos` counting along. */
  method EmitEntries(blk: seq<byte>, count: nat, start: int, room: nat, pos: int) returns (l: Listing)
    requires count * DIRENT_SIZE <= |blk| && start >= 0
    ensures l == EmitFrom(Entries(blk, count), start, room, pos)
  {
    ghost var es := Entries(blk, count);
    if start >= count {
      assert es[Min(start, |es|)..] == [];
      return Listing(Pass, [], pos);
    }
    var out: seq<Emit> := [];
    var left, p, i := room, pos, start;
    while i < count
      invariant start <= i <= count
      invariant out == Names(es[start..i])
      invariant left == room - (i - start) && p == pos + (i - start)
    {
      if left == 0 {
        assert Names(es[start..])[..room] == Names(es[start..i]);
        return Listing(Fail(EINVAL), out, p);
      }
      var e := EntryAt(blk, i);
      assert es[start..i + 1] == es[start..i] + [es[i]];
      out := out + [Named(e.name, e.ino)];
      left, p, i := left - 1, p + 1, i + 1;
    }
    assert es[start..i] == es[start..];
    return Listing(Pass, out, p);
  }

  /** `osfs_iterate`. */
  method Iterate(sb: SbInfo, dir: nat, pos: int, room: nat) returns (l: Listing)
    requires DirAt(sb, dir) && (pos == 0 || pos >= 2)
    ensures l == IterateSpec(DirEntries(sb, dir), pos, room)
  {
    var rec := sb.inodeTable[dir];
    var blk := sb.dataBlocks[rec.data.block];
    var count := rec.size as nat / DIRENT_SIZE;
    EntriesFit(sb, dir);
    if pos != 0 {
      l := EmitEntries(blk, count, pos - 2, room, pos);
    } else if room == 0 {
      l := Listing(Pass, [], 0);
    } else if room == 1 {
      l := Listing(Pass, [Dot], 1);
    } else {
      var rest := EmitEntries(blk, count, 0, room - 2, 2);
      l := Listing(rest.rc, [Dot, DotDot] + rest.emitted, rest.pos);
    }
  }

  /** The record loop of `osfs_lookup` and of the duplicate check of
      `osfs_add_dir_entry`, in both variants: the first of the first `n`
      records of `area` that carries the name, by the `strlen`/`strncmp`
      test, and that record's inode number. */
  method ScanEntries(area: seq<byte>, n: nat, name: seq<byte>) returns (found: Option<nat>, ino: u32)
    requires n * DIRENT_SIZE <= |area|
    ensures found == FindEntry(Entries(area, n), name)
    ensures found.Some? ==> ino == Entries(area, n)[found.value].ino
  {
    ghost var es := Entries(area, n);
    for i := 0 to n
      invariant forall j | 0 <= j < i :: es[j].name != name
    {
      var field := Slot(area, i)[..DIRENT_INO_OFFSET];
      NameMatchesIff(field, name);
      if NameMatches(field, name) {
        assert es[i].name == name;
        return Some(i), EntryAt(area, i).ino;
      }
    }
    return None, 0;
  }

  /** The write at the end of `osfs_add_dir_entry`: record `count` of the
      block gets the entry and the size grows by one record. */
  method AppendDirEntry(sb: SbInfo, dir: nat, ino: u32, name: seq<byte>)
    requires DirAt(sb, dir) && |name| <= MAX_FILENAME_LEN && NoNul(name)
    requires |DirEntries(sb, dir)| < BasicMaxDirEntries(sb.blockSize as nat)
    modifies sb.dataBlocks, sb.inodeTable
    ensures DirAt(sb, dir)
    ensures var rec := old(sb.inodeTable[dir]);
      var b := rec.data.block;
      && sb.dataBlocks[..] == old(sb.dataBlocks[..])[b := PutEntry(old(sb.dataBlocks[b]), EntryCount(rec), name, ino)]
      && sb.inodeTable[..] == old(sb.inodeTable[..])[dir := rec.(size := Trunc32(rec.size as int + DIRENT_SIZE))]
    ensures DirEntries(sb, dir) == old(DirEntries(sb, dir)) + [DirEntry(name, ino)]
  {
    var rec := sb.inodeTable[dir];
    var b := rec.data.block;
    var count := rec.size as nat / DIRENT_SIZE;
    var blk := sb.dataBlocks[b];
    MaxDirEntriesFit(sb.blockSize as nat);
    ghost var es := DirEntries(sb, dir);
    CStrOfNoNul(name);
    SizeGrows(sb.blockSize as nat, sb.blockCount as nat, rec.size as nat);
    var blk' := PutEntry(blk, count, name, ino);
    var rec' := rec.(size := Trunc32(rec.size as int + DIRENT_SIZE));
    assert EntryCount(rec') == count + 1;
    ghost var es' := Entries(blk', count + 1);
    AppendEntry(blk, count, name, ino);
    assert es' == es + [DirEntry(name, ino)];
    sb.dataBlocks[b] := blk';
    sb.inodeTable[dir] := rec';
    assert sb.Valid();
    assert DirAt(sb, dir);
    assert DirEntries(sb, dir) == es';
  }

  /** `osfs_add_dir_entry`: `-ENOSPC` when the block is full, `-EEXIST` when
      an entry has the name already; otherwise the entry is written after the
      last one, where a lookup of the name now finds it. A VFS name holds no
      NUL byte. */
  method AddDirEntry(sb: SbInfo, dir: nat, ino: u32, name: seq<byte>) returns (rc: Outcome)
    requires DirAt(sb, dir) && |name| <= MAX_FILENAME_LEN && NoNul(name)
    modifies sb.dataBlocks, sb.inodeTable
    ensures DirAt(sb, dir)
    ensures var es := old(DirEntries(sb, dir));
      && (|es| >= BasicMaxDirEntries(sb.blockSize as nat) ==> rc == Fail(ENOSPC))
      && (|es| < BasicMaxDirEntries(sb.blockSize as nat) && FindEntry(es, name).Some? ==> rc == Fail(EEXIST))
      && (rc == Pass <==> |es| < BasicMaxDirEntries(sb.blockSize as nat) && FindEntry(es, name).None?)
    ensures rc.Fail? ==> sb.dataBlocks[..] == old(sb.dataBlocks[..]) && sb.inodeTable[..] == old(sb.inodeTable[..])
    ensures forall j | 0 <= j < sb.dataBlocks.Length && j != old(sb.inodeTable[dir]).data.block ::
      sb.dataBlocks[j] == old(sb.dataBlocks[j])
    ensures forall j | 0 <= j < sb.inodeTable.Length && j != dir :: sb.inodeTable[j] == old(sb.inodeTable[j])
    ensures rc == Pass ==>
      var rec := old(sb.inodeTable[dir]);
      var b := rec.data.block;
      && (EntryCount(rec) + 1) * DIRENT_SIZE <= |old(sb.dataBlocks[b])|
      && sb.dataBlocks[b] == PutEntry(old(sb.dataBlocks[b]), EntryCount(rec), name, ino)
      && sb.inodeTable[dir] == rec.(size := Trunc32(rec.size as int + DIRENT_SIZE))
      && DirEntries(sb, dir) == old(DirEntries(sb, dir)) + [DirEntry(name, ino)]
      && FindEntry(DirEntries(sb, dir), name) == Some(|old(DirEntries(sb, dir))|)
  {
    var rec := sb.inodeTable[dir];
    var count := rec.size as nat / DIRENT_SIZE;
    if count >= BasicMaxDirEntries(sb.blockSize as nat) {
      return Fail(ENOSPC);
    }
    EntriesFit(sb, dir);
    ghost var es := DirEntries(sb, dir);
    MaxDirEntriesFit(sb.blockSize as nat);
    assert (count + 1) * DIRENT_SIZE <= BasicMaxDirEntries(sb.blockSize as nat) * DIRENT_SIZE;
    assert (EntryCount(rec) + 1) * DIRENT_SIZE <= |sb.dataBlocks[rec.data.block]|;
    var dup, _ := ScanEntries(sb.dataBlocks[rec.data.block], count, name);
    if dup.Some? {
      return Fail(EEXIST);
    }
    FindAfterAppend(es, DirEntry(name, ino), name);
    AppendDirEntry(sb, dir, ino, name);
    return Pass;
  }

  /** One more record fits the 32-bit size when the block still has room. */
  lemma SizeGrows(blockSize: nat, blockCount: nat, size: nat)
    requires blockCount >= 1 && (blockCount + 1) * blockSize < U32_LIMIT
    requires size / DIRENT_SIZE < BasicMaxDirEntries(blockSize)
    ensures size + DIRENT_SIZE < U32_LIMIT
    ensures (size + DIRENT_SIZE) / DIRENT_SIZE == size / DIRENT_SIZE + 1
  {
    MaxDirEntriesFit(blockSize);
    assert (blockCount + 1) * blockSize >= 2 * blockSize;
  }

  /** The record `osfs_new_inode` writes for inode `ino` before its block is
      allocated (`blocks` already says 1). */
  function NewRecord(ino: u32, mode: u16, uid: u32, gid: u32, now: Time): (rec: Inode)
    ensures rec.ino == ino && rec.mode == mode && rec.uid == uid && rec.gid == gid
    ensures rec.size == 0 && rec.blocks == 1 && rec.links == 0
    ensures rec.atime == now && rec.mtime == now && rec.ctime == now
    ensures rec.data == Single(0)
  {
    ZeroInode(Basic).(ino := ino, mode := mode, uid := uid, gid := gid, blocks := 1,
                      atime := now, mtime := now, ctime := now)
  }

  /** The VFS inode `osfs_new_inode` returns: owner and mode from
      `inode_init_owner`, two links for a directory and one otherwise, empty,
      and the operations of its type. */
  function NewVfsInode(ino: u32, mode: u16, uid: u32, gid: u32, now: Time): (i: VfsInode)
    ensures i.ino == ino && i.mode == mode && i.record == ino as nat
    ensures i.nlink == (if IsDir(mode) then 2 else 1)
    ensures i.size == 0 && i.blocks == 0
    ensures (i.ops == DirOps <==> IsDir(mode)) && (i.ops == FileOps <==> IsReg(mode))
  {
    VfsInode(ino, mode, if IsDir(mode) then 2 else 1, uid, gid, now, now, now, 0, 0,
             OpsFor(mode), ino as nat)
  }

  /** `osfs_new_inode` with the free-inode counter decremented once, by
      `osfs_get_free_inode`. An allocation that fails after the inode bit is
      taken does not give the bit back. */
  method NewInode(sb: SbInfo, mode: u16, uid: u32, gid: u32, vfsOk: bool, now: Time) returns (r: Result<VfsInode>)
    requires sb.Valid()
    modifies sb, sb.inodeBitmap, sb.blockBitmap, sb.inodeTable
    ensures !SupportedMode(mode) ==> r == Err(EINVAL)
    ensures SupportedMode(mode) && (old(sb.nrFreeInodes) == 0 || old(sb.nrFreeBlocks) == 0) ==> r == Err(ENOSPC)
    ensures (!SupportedMode(mode) || old(sb.nrFreeInodes) == 0 || old(sb.nrFreeBlocks) == 0) ==>
      && sb.inodeBitmap[..] == old(sb.inodeBitmap[..]) && sb.blockBitmap[..] == old(sb.blockBitmap[..])
      && sb.inodeTable[..] == old(sb.inodeTable[..])
      && sb.nrFreeInodes == old(sb.nrFreeInodes) && sb.nrFreeBlocks == old(sb.nrFreeBlocks)
    ensures r.Ok? <==> (SupportedMode(mode) && old(sb.nrFreeInodes) != 0 && old(sb.nrFreeBlocks) != 0
                        && FirstClear(old(sb.inodeBitmap[..]), 1).Some? && vfsOk
                        && FirstClear(old(sb.blockBitmap[..]), 0).Some?)
    ensures var taken := SupportedMode(mode) && old(sb.nrFreeInodes) != 0 && old(sb.nrFreeBlocks) != 0
                         && FirstClear(old(sb.inodeBitmap[..]), 1).Some?;
      && (r == Err(ENOMEM) <==> taken && !vfsOk)
      && (r == Err(ENOSPC) <==> SupportedMode(mode) && !(taken && (!vfsOk || FirstClear(old(sb.blockBitmap[..]), 0).Some?)))
      && (r.Err? ==> r.error in {EINVAL, ENOSPC, ENOMEM})
    ensures SupportedMode(mode) && old(sb.nrFreeInodes) != 0 && old(sb.nrFreeBlocks) != 0
            && FirstClear(old(sb.inodeBitmap[..]), 1).None? ==>
      && sb.inodeBitmap[..] == old(sb.inodeBitmap[..]) && sb.blockBitmap[..] == old(sb.blockBitmap[..])
      && sb.inodeTable[..] == old(sb.inodeTable[..])
      && sb.nrFreeInodes == old(sb.nrFreeInodes) && sb.nrFreeBlocks == old(sb.nrFreeBlocks)
    ensures SupportedMode(mode) && old(sb.nrFreeInodes) != 0 && old(sb.nrFreeBlocks) != 0
            && FirstClear(old(sb.inodeBitmap[..]), 1).Some? ==>
      var ino := FirstClear(old(sb.inodeBitmap[..]), 1).value;
      && sb.inodeBitmap[..] == old(sb.inodeBitmap[..])[ino := true]
      && sb.nrFreeInodes == Dec32(old(sb.nrFreeInodes))
      && (!vfsOk ==>
            && sb.blockBitmap[..] == old(sb.blockBitmap[..]) && sb.inodeTable[..] == old(sb.inodeTable[..])
            && sb.nrFreeBlocks == old(sb.nrFreeBlocks))
      && (vfsOk && FirstClear(old(sb.blockBitmap[..]), 0).None? ==>
            && sb.blockBitmap[..] == old(sb.blockBitmap[..]) && sb.nrFreeBlocks == old(sb.nrFreeBlocks)
            && sb.inodeTable[..] == old(sb.inodeTable[..])[ino := NewRecord(ino as u32, mode, uid, gid, now)])
    ensures r.Ok? ==>
      var ino := FirstClear(old(sb.inodeBitmap[..]), 1).value;
      var b := FirstClear(old(sb.blockBitmap[..]), 0).value;
      && r.value == NewVfsInode(ino as u32, mode, uid, gid, now)
      && sb.inodeBitmap[..] == old(sb.inodeBitmap[..])[ino := true]
      && sb.blockBitmap[..] == old(sb.blockBitmap[..])[b := true]
      && sb.inodeTable[..] == old(sb.inodeTable[..])[ino := NewRecord(ino as u32, mode, uid, gid, now).(data := Single(b as u32))]
      && sb.nrFreeInodes == Dec32(old(sb.nrFreeInodes)) && sb.nrFreeBlocks == Dec32(old(sb.nrFreeBlocks))
    ensures old(sb.CountsConsistent()) ==> sb.CountsConsistent()
  {
    if !SupportedMode(mode) {
      return Err(EINVAL);
    }
    if sb.nrFreeInodes == 0 || sb.nrFreeBlocks == 0 {
      return Err(ENOSPC);
    }
    var got := GetFreeInode(sb);
    if got.Err? || got.value >= sb.inodeCount {
      return Err(ENOSPC);
    }
    var ino := got.value;
    if !vfsOk {
      return Err(ENOMEM);
    }
    var inode := NewVfsInode(ino, mode, uid, gid, now);
    var slot := GetOsfsInode(sb, ino);
    if slot.None? {
      return Err(EIO);
    }
    sb.inodeTable[slot.value] := ZeroInode(Basic);
    sb.inodeTable[slot.value] := NewRecord(ino, mode, uid, gid, now);
    var blk := AllocDataBlock(sb);
    if blk.Err? {
      return Err(ENOSPC);
    }
    sb.inodeTable[slot.value] := sb.inodeTable[slot.value].(data := Single(blk.value));
    return Ok(inode);
  }

  /** `osfs_new_inode` as written: on success it decrements the free-inode
      counter a second time, after `osfs_get_free_inode` already has. */
  method NewInodeAsWritten(sb: SbInfo, mode: u16, uid: u32, gid: u32, vfsOk: bool, now: Time) returns (r: Result<VfsInode>)
    requires sb.Valid()
    modifies sb, sb.inodeBitmap, sb.blockBitmap, sb.inodeTable
    ensures r.Ok? <==> (SupportedMode(mode) && old(sb.nrFreeInodes) != 0 && old(sb.nrFreeBlocks) != 0
                        && FirstClear(old(sb.inodeBitmap[..]), 1).Some? && vfsOk
                        && FirstClear(old(sb.blockBitmap[..]), 0).Some?)
    ensures r.Ok? ==>
      var ino := FirstClear(old(sb.inodeBitmap[..]), 1).value;
      && sb.inodeBitmap[..] == old(sb.inodeBitmap[..])[ino := true]
      && sb.nrFreeInodes == Dec32(Dec32(old(sb.nrFreeInodes)))
    ensures r.Ok? && old(sb.CountsConsistent()) ==>
      sb.nrFreeInodes as int + Popcount(sb.inodeBitmap[..]) != sb.inodeCount as int
  {
    ghost var bits := sb.inodeBitmap[..];
    ghost var nr := sb.nrFreeInodes;
    r := NewInode(sb, mode, uid, gid, vfsOk, now);
    if r.Ok? {
      if old(sb.CountsConsistent()) {
        DoubleDecrementDrifts(bits, nr, FirstClear(bits, 1).value);
      }
      sb.nrFreeInodes := Dec32(sb.nrFreeInodes);
    }
  }

  /** Taking one inode and decrementing its counter twice breaks the counter's
      agreement with the bitmap: it drops one below the number of clear bits,
      or, from 1, wraps around to `0xFFFFFFFF`. */
  lemma DoubleDecrementDrifts(bits: seq<bool>, nrFree: u32, i: nat)
    requires i < |bits| < U32_LIMIT && !bits[i]
    requires nrFree as int + Popcount(bits) == |bits|
    ensures Dec32(Dec32(nrFree)) as int + Popcount(bits[i := true]) != |bits|
    ensures nrFree >= 2 ==> Dec32(Dec32(nrFree)) as int + Popcount(bits[i := true]) == |bits| - 1
    ensures nrFree == 1 ==> Dec32(Dec32(nrFree)) as int == U32_LIMIT - 1
  {
    AllocKeepsCount(bits, nrFree, i);
    PopcountUpdate(bits, i, true);
  }
}
