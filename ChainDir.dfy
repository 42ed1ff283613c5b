/** `dir.c` of the linked variant: a directory's entries fill the payloads
    of its chain in order, `MAX_DIR_ENTRIES` to a block, and `i_size / 260`
    says how many there are. Lookup, listing, adding an entry and creating
    an inode. */
module ChainDir {
  import opened Types
  import opened Layout
  import opened Bitmap
  import opened Region
  import opened Inodes
  import opened Dirent
  import opened Chain
  import opened ChainFile
  import BasicDir

  /** Every block of `chain` is in the pool and has a payload of at least
      `m` records. */
  ghost predicate Holds(blocks: seq<seq<byte>>, chain: seq<nat>, m: nat) {
    forall i | 0 <= i < |chain| :: chain[i] < |blocks| && HEADER_SIZE + m * DIRENT_SIZE <= |blocks[chain[i]]|
  }

  lemma SlotFits(s: nat, m: nat)
    requires s < m
    ensures (s + 1) * DIRENT_SIZE <= m * DIRENT_SIZE
  {
    MulLe(s + 1, m, DIRENT_SIZE);
  }

  /** Entry `e` of a directory: record `e % m` of the payload of its
      `e / m`-th block. */
  ghost function EntryOf(blocks: seq<seq<byte>>, chain: seq<nat>, m: nat, e: nat): DirEntry
    requires m > 0 && e < |chain| * m && Holds(blocks, chain, m)
  {
    InsideTheChain(e, |chain|, m);
    SlotFits(e % m, m);
    EntryAt(Payload(blocks[chain[e / m]]), e % m)
  }

  /** The first `count` entries of a directory stored along `chain`. */
  ghost function ChainEntries(blocks: seq<seq<byte>>, chain: seq<nat>, count: nat, m: nat): (es: seq<DirEntry>)
    requires m > 0 && count <= |chain| * m && Holds(blocks, chain, m)
    ensures |es| == count
    ensures forall e | 0 <= e < count :: es[e] == EntryOf(blocks, chain, m, e)
  {
    seq(count, e requires 0 <= e < count => EntryOf(blocks, chain, m, e))
  }

  /** Fewer entries are a prefix of more. */
  lemma ChainEntriesPrefix(blocks: seq<seq<byte>>, chain: seq<nat>, n: nat, count: nat, m: nat)
    requires m > 0 && n <= count <= |chain| * m && Holds(blocks, chain, m)
    ensures ChainEntries(blocks, chain, n, m) == ChainEntries(blocks, chain, count, m)[..n]
  {
  }

  /** Only payloads are read: pools that agree on the payloads of the
      blocks the first `count` entries live in give the same entries. */
  lemma ChainEntriesFrame(blocks: seq<seq<byte>>, blocks': seq<seq<byte>>, chain: seq<nat>, count: nat, m: nat)
    requires m > 0 && count <= |chain| * m && Holds(blocks, chain, m) && Holds(blocks', chain, m)
    requires forall i | 0 <= i < |chain| && i * m < count :: Payload(blocks'[chain[i]]) == Payload(blocks[chain[i]])
    ensures ChainEntries(blocks', chain, count, m) == ChainEntries(blocks, chain, count, m)
  {
    forall e | 0 <= e < count
      ensures EntryOf(blocks', chain, m, e) == EntryOf(blocks, chain, m, e)
    {
      InsideTheChain(e, |chain|, m);
      DivModSplit(e, m);
      MulLe(e / m, e / m, m);
    }
  }

  /** The directory shape of record `d` in the linked variant: a file chain
      whose size is a whole number of records, all of which its blocks
      hold. */
  ghost predicate DirChain(sb: SbInfo, d: nat, chain: seq<nat>)
    reads sb, sb.inodeTable, sb.dataBlocks, sb.blockBitmap
  {
    && FileChain(sb, d, chain)
    && ChainMaxDirEntries(sb.blockSize as nat) > 0
    && sb.inodeTable[d].size as nat % DIRENT_SIZE == 0
    && BasicDir.EntryCount(sb.inodeTable[d]) <= |chain| * ChainMaxDirEntries(sb.blockSize as nat)
  }

  /** No block past the one the last entry is in, except a lone first
      block: the shape `osfs_add_dir_entry` keeps when it succeeds. */
  predicate Tight(count: nat, n: nat, m: nat) {
    count <= n * m && (n <= 1 || (n - 1) * m < count)
  }

  ghost predicate TightDir(sb: SbInfo, d: nat, chain: seq<nat>)
    reads sb, sb.inodeTable, sb.dataBlocks, sb.blockBitmap
  {
    && DirChain(sb, d, chain)
    && Tight(BasicDir.EntryCount(sb.inodeTable[d]), |chain|, ChainMaxDirEntries(sb.blockSize as nat))
  }

  /** A valid pool's blocks all hold `MAX_DIR_ENTRIES` records. */
  lemma ValidHolds(sb: SbInfo, chain: seq<nat>)
    requires sb.Valid() && InPool(sb.dataBlocks[..], chain)
    ensures Holds(sb.dataBlocks[..], chain, ChainMaxDirEntries(sb.blockSize as nat))
  {
    MaxDirEntriesFit(sb.blockSize as nat);
  }

  /** The entries of directory `d`. */
  ghost function DirEntries(sb: SbInfo, d: nat, chain: seq<nat>): seq<DirEntry>
    reads sb, sb.inodeTable, sb.dataBlocks, sb.blockBitmap
    requires DirChain(sb, d, chain)
  {
    ValidHolds(sb, chain);
    ChainEntries(sb.dataBlocks[..], chain, BasicDir.EntryCount(sb.inodeTable[d]), ChainMaxDirEntries(sb.blockSize as nat))
  }

  /** Entry `base + i` lies in block `k` of the chain when `base == k * m`. */
  lemma EntryInBlock(blocks: seq<seq<byte>>, chain: seq<nat>, m: nat, k: nat, base: nat, i: nat)
    requires m > 0 && Holds(blocks, chain, m) && k < |chain| && base == k * m && i < m
    ensures base + i < |chain| * m
    ensures (i + 1) * DIRENT_SIZE <= |Payload(blocks[chain[k]])|
    ensures EntryOf(blocks, chain, m, base + i) == EntryAt(Payload(blocks[chain[k]]), i)
  {
    MulLe(k + 1, |chain|, m);
    MulStep(k, m);
    DivModOf(base + i, k, m, i);
    SlotFits(i, m);
  }

  /** The next block of a scan exists while entries remain past it. */
  lemma MoreBlocks(k: nat, n: nat, m: nat, count: nat)
    requires m > 0 && (k + 1) * m < count <= n * m
    ensures k + 1 < n
  {
    if k + 1 >= n {
      MulLe(n, k + 1, m);
    }
  }

  /** The entries `base .. base + n` are the first `n` records of block `k`. */
  lemma BlockSlice(blocks: seq<seq<byte>>, chain: seq<nat>, count: nat, m: nat, k: nat, base: nat, n: nat)
    requires m > 0 && Holds(blocks, chain, m) && count <= |chain| * m
    requires k < |chain| && base == k * m && n <= m && base + n <= count
    ensures n * DIRENT_SIZE <= |Payload(blocks[chain[k]])|
    ensures ChainEntries(blocks, chain, count, m)[base..base + n] == Entries(Payload(blocks[chain[k]]), n)
  {
    MulLe(n, m, DIRENT_SIZE);
    forall i | 0 <= i < n
      ensures ChainEntries(blocks, chain, count, m)[base + i] == Entries(Payload(blocks[chain[k]]), n)[i]
    {
      EntryInBlock(blocks, chain, m, k, base, i);
    }
  }

  /** A scan that found no match before `base` and then scanned
      `es[base..base + n]` knows the first match, or that there is none up
      to `base + n`. */
  lemma FindPastPrefix(es: seq<DirEntry>, base: nat, n: nat, name: seq<byte>, hit: Option<nat>)
    requires base + n <= |es| && forall j | 0 <= j < base :: es[j].name != name
    requires hit == FindEntry(es[base..base + n], name)
    ensures hit.Some? ==> FindEntry(es, name) == Some(base + hit.value)
    ensures hit.Some? ==> hit.value < n && es[base + hit.value] == es[base..base + n][hit.value]
    ensures hit.None? ==> forall j | 0 <= j < base + n :: es[j].name != name
  {
    var part := es[base..base + n];
    if hit.Some? {
      assert es[base + hit.value] == part[hit.value];
      assert forall j | base <= j < base + hit.value :: es[j] == part[j - base];
    } else {
      assert forall j | base <= j < base + n :: es[j] == part[j - base];
    }
  }

  /** The duplicate scan of `osfs_add_dir_entry`, which walks the whole
      chain: block by block, the first `min(remain, MAX_DIR_ENTRIES)`
      records, until `count` records are seen. The index of the first
      match, and its inode number. */
  method ScanChain(blocks: seq<seq<byte>>, rec: Inode, count: nat, m: nat, name: seq<byte>, ghost chain: seq<nat>)
    returns (found: Option<nat>, ino: u32)
    requires m > 0 && |blocks| < NO_NEXT_BLOCK && rec.data.Chained?
    requires IsChain(blocks, rec.data.head, rec.data.tail, chain) && Holds(blocks, chain, m)
    requires count <= |chain| * m
    ensures found == FindEntry(ChainEntries(blocks, chain, count, m), name)
    ensures found.Some? ==> ino == ChainEntries(blocks, chain, count, m)[found.value].ino
  {
    ghost var es := ChainEntries(blocks, chain, count, m);
    NoHeadIffEmpty(blocks, rec.data.head, rec.data.tail, chain);
    var block := rec.data.head;
    var remain: int := count;
    var base: nat := 0;
    ghost var k: nat := 0;
    while block != NO_NEXT_BLOCK && remain > 0
      invariant 0 <= remain <= count
      invariant forall j | 0 <= j < count - remain :: es[j].name != name
      invariant remain > 0 ==> base == count - remain && base == k * m && k < |chain| && block as nat == chain[k]
      decreases remain
    {
      var eCount := if remain > m then m else remain;
      BlockSlice(blocks, chain, count, m, k, base, eCount);
      var hit, hitIno := BasicDir.ScanEntries(Payload(blocks[block]), eCount, name);
      FindPastPrefix(es, base, eCount, name, hit);
      if hit.Some? {
        return Some(base + hit.value), hitIno;
      }
      remain := remain - eCount;
      MulStep(k, m);
      if remain > 0 {
        MoreBlocks(k, |chain|, m, count);
      }
      block := NextOf(blocks[block]);
      k, base := k + 1, base + m;
    }
    return None, 0;
  }

  /** The search of `osfs_lookup` as written. The entry count it starts
      from, `i_size / 260` capped at `MAX_DIR_ENTRIES`, is used up by the
      head block, so its loop always leaves after that block: only the first
      `min(count, MAX_DIR_ENTRIES)` entries are searched. */
  method ScanHead(blocks: seq<seq<byte>>, rec: Inode, count: nat, m: nat, name: seq<byte>, ghost chain: seq<nat>)
    returns (found: Option<nat>, ino: u32)
    requires m > 0 && |blocks| < NO_NEXT_BLOCK && rec.data.Chained?
    requires IsChain(blocks, rec.data.head, rec.data.tail, chain) && Holds(blocks, chain, m)
    requires count <= |chain| * m
    ensures var es := ChainEntries(blocks, chain, count, m);
      found == FindEntry(es[..Min(count, m)], name)
    ensures found.Some? ==> ino == ChainEntries(blocks, chain, count, m)[found.value].ino
  {
    ghost var es := ChainEntries(blocks, chain, count, m);
    NoHeadIffEmpty(blocks, rec.data.head, rec.data.tail, chain);
    if rec.data.head == NO_NEXT_BLOCK {
      assert es[..Min(count, m)] == [];
      return None, 0;
    }
    var n := count;
    if n > m {
      n := m;
    }
    assert n == Min(count, m);
    BlockSlice(blocks, chain, count, m, 0, 0, n);
    assert rec.data.head as nat == chain[0];
    ghost var head := Entries(Payload(blocks[chain[0]]), n);
    assert es[..n] == es[0..n] == head;
    found, ino := BasicDir.ScanEntries(Payload(blocks[rec.data.head]), n, name);
    assert found == FindEntry(head, name);
  }

  /** `osfs_lookup` as written: see `ScanHead`. */
  method LookupAsWritten(sb: SbInfo, dir: nat, name: seq<byte>, vfsOk: bool, ghost chain: seq<nat>)
    returns (r: Result<Option<VfsInode>>)
    requires DirChain(sb, dir, chain)
    ensures var es := DirEntries(sb, dir, chain);
      r == Resolve(sb, es[..Min(|es|, ChainMaxDirEntries(sb.blockSize as nat))], name, vfsOk)
  {
    var rec := sb.inodeTable[dir];
    ValidHolds(sb, chain);
    var hit, ino := ScanHead(sb.dataBlocks[..], rec, rec.size as nat / DIRENT_SIZE,
                             ChainMaxDirEntries(sb.blockSize as nat), name, chain);
    if hit.None? {
      return Ok(None);
    }
    var inode := Iget(sb, ino, vfsOk);
    if inode.Err? {
      return Err(inode.error);
    }
    return Ok(Some(inode.value));
  }

  /** `osfs_lookup` as its comment intends: the whole chain is searched, as
      the duplicate scan of `osfs_add_dir_entry` does. */
  method Lookup(sb: SbInfo, dir: nat, name: seq<byte>, vfsOk: bool, ghost chain: seq<nat>)
    returns (r: Result<Option<VfsInode>>)
    requires DirChain(sb, dir, chain)
    ensures r == Resolve(sb, DirEntries(sb, dir, chain), name, vfsOk)
  {
    var rec := sb.inodeTable[dir];
    ValidHolds(sb, chain);
    var hit, ino := ScanChain(sb.dataBlocks[..], rec, rec.size as nat / DIRENT_SIZE,
                              ChainMaxDirEntries(sb.blockSize as nat), name, chain);
    if hit.None? {
      return Ok(None);
    }
    var inode := Iget(sb, ino, vfsOk);
    if inode.Err? {
      return Err(inode.error);
    }
    return Ok(Some(inode.value));
  }

  /** The head-block lookup answers as the whole-chain one exactly when the
      first entry with the name, if any, is among the first `m`: a name
      that first appears further on is reported missing. */
  lemma HeadLookupAgreesIff(sb: SbInfo, es: seq<DirEntry>, m: nat, name: seq<byte>, vfsOk: bool)
    requires sb.Valid()
    ensures Resolve(sb, es[..Min(|es|, m)], name, vfsOk) == Resolve(sb, es, name, vfsOk)
            <==> FindEntry(es, name).None? || FindEntry(es, name).value < m
    ensures FindEntry(es, name).Some? && FindEntry(es, name).value >= m ==>
            Resolve(sb, es[..Min(|es|, m)], name, vfsOk) == Ok(None)
  {
    var head := es[..Min(|es|, m)];
    assert forall j | 0 <= j < |head| :: head[j] == es[j];
    match FindEntry(es, name)
    case None =>
    case Some(k) =>
      if k < m {
        assert FindEntry(head, name) == Some(k);
      } else {
        assert FindEntry(head, name).None?;
      }
  }

  /** Emitting `es[start..g]` and then, with the room left, `es[g..hi]`:
      a refusal in the second part is the refusal of the whole listing, and
      success emits `es[start..hi]`. */
  lemma EmitSplit(es: seq<DirEntry>, start: nat, g: nat, hi: nat, room: nat, pos: int, sub: Listing)
    requires start <= g <= hi <= |es| && g - start <= room
    requires sub == EmitFrom(es[g..hi], 0, room - (g - start), pos + (g - start))
    ensures sub.rc.Fail? ==>
      EmitFrom(es, start, room, pos) == Listing(Fail(EINVAL), Names(es[start..g]) + sub.emitted, sub.pos)
    ensures sub.rc == Pass ==>
      Names(es[start..g]) + sub.emitted == Names(es[start..hi]) && sub.pos == pos + (hi - start)
  {
    assert es[g..hi][Min(0, hi - g)..] == es[g..hi];
    NamesSplit(es, start, g, hi);
    if sub.rc.Fail? {
      EmitRefusedInSecond(es, start, g, hi, room, pos);
    }
  }

  /** The names of `es[start..hi]` are those of `es[start..g]`, then those
      of `es[g..hi]`. */
  lemma NamesSplit(es: seq<DirEntry>, start: nat, g: nat, hi: nat)
    requires start <= g <= hi <= |es|
    ensures Names(es[start..g]) + Names(es[g..hi]) == Names(es[start..hi])
  {
    var front, back, all := Names(es[start..g]), Names(es[g..hi]), Names(es[start..hi]);
    forall i | 0 <= i < hi - start
      ensures (front + back)[i] == all[i]
    {
      if i < g - start {
        assert front[i] == Named(es[start + i].name, es[start + i].ino);
      } else {
        assert back[i - (g - start)] == Named(es[start + i].name, es[start + i].ino);
      }
    }
  }

  /** A listing of `es` from `start` with room for the entries up to `g`
      but not for all of `es[g..hi]` is refused after the first `room`. */
  lemma EmitRefusedInSecond(es: seq<DirEntry>, start: nat, g: nat, hi: nat, room: nat, pos: int)
    requires start <= g <= hi <= |es| && g - start <= room && hi - g > room - (g - start)
    ensures EmitFrom(es, start, room, pos)
         == Listing(Fail(EINVAL), Names(es[start..g]) + Names(es[g..hi])[..room - (g - start)], pos + room)
  {
    var left := room - (g - start);
    var front, back := Names(es[start..g]), Names(es[g..hi]);
    var rest := Names(es[start..]);
    assert es[Min(start, |es|)..] == es[start..];
    forall i | 0 <= i < room
      ensures rest[i] == (front + back[..left])[i]
    {
      if i < g - start {
        assert front[i] == Named(es[start + i].name, es[start + i].ino);
      } else {
        assert back[i - (g - start)] == Named(es[start + i].name, es[start + i].ino);
      }
    }
    assert rest[..room] == front + back[..left];
  }

  /** One block's part of a listing: the records from `curr` of the block
      whose entries start at `base` are the entries from `g = base + curr`
      to the block's end, or none when `curr` is past it. */
  lemma BlockShift(es: seq<DirEntry>, base: nat, n: nat, curr: nat, g: nat, room: nat, pos: int)
    requires base + n <= |es| && g == base + curr && g <= |es|
    ensures var hi := if curr < n then base + n else g;
      EmitFrom(es[base..base + n], curr, room, pos) == EmitFrom(es[g..hi], 0, room, pos)
  {
    var hi := if curr < n then base + n else g;
    var part := es[base..base + n];
    if curr < n {
      SliceOfSlice(es, base, base + n, curr);
    }
    assert part[Min(curr, n)..] == es[g..hi] == es[g..hi][Min(0, hi - g)..];
    EmitFromSameRest(part, curr, es[g..hi], 0, room, pos);
  }

  /** A listing depends only on the entries it would emit. */
  lemma EmitFromSameRest(x: seq<DirEntry>, s: nat, y: seq<DirEntry>, t: nat, room: nat, pos: int)
    requires x[Min(s, |x|)..] == y[Min(t, |y|)..]
    ensures EmitFrom(x, s, room, pos) == EmitFrom(y, t, room, pos)
  {
  }

  /** Dropping `c` elements of `x[a..b]` leaves `x[a + c..b]`. */
  lemma SliceOfSlice<T>(x: seq<T>, a: nat, b: nat, c: nat)
    requires a <= b <= |x| && c <= b - a
    ensures x[a..b][c..] == x[a + c..b]
  {
    forall i | 0 <= i < b - a - c
      ensures x[a..b][c..][i] == x[a + c..b][i]
    {
      assert x[a..b][c..][i] == x[a..b][c + i] == x[a + c + i];
    }
  }

  /** The entry loop of `osfs_iterate` over the chain, from index `start`:
      per block, the records from `curr_entry` up to
      `min(total_entries, MAX_DIR_ENTRIES)`, after which both counters drop
      by that bound and the walk moves to the next block. */
  method EmitChain(blocks: seq<seq<byte>>, rec: Inode, count: nat, m: nat, start: nat, room: nat, pos: int,
                   ghost chain: seq<nat>)
    returns (l: Listing)
    requires m > 0 && |blocks| < NO_NEXT_BLOCK && rec.data.Chained?
    requires IsChain(blocks, rec.data.head, rec.data.tail, chain) && Holds(blocks, chain, m)
    requires count <= |chain| * m
    ensures l == EmitFrom(ChainEntries(blocks, chain, count, m), start, room, pos)
  {
    ghost var es := ChainEntries(blocks, chain, count, m);
    if start >= count {
      assert es[Min(start, |es|)..] == [];
      return Listing(Pass, [], pos);
    }
    NoHeadIffEmpty(blocks, rec.data.head, rec.data.tail, chain);
    var block := rec.data.head;
    var total: int := count;
    var curr: int := start;
    var out: seq<Emit> := [];
    var p: int, left: nat := pos, room;
    ghost var k: nat, base: nat, g: nat := 0, 0, start;
    while block != NO_NEXT_BLOCK && curr < total
      invariant start <= g <= count && k <= |chain|
      invariant out == Names(es[start..g]) && |out| + left == room && p == pos + |out|
      invariant total >= 0 && curr >= 0
      invariant total == 0 ==> g == count
      invariant total > 0 ==>
        total == count - base && base == k * m && g == base + curr && k < |chain| && block as nat == chain[k]
      decreases |chain| - k
    {
      var blockEntries := if total > m then m else total;
      BlockSlice(blocks, chain, count, m, k, base, blockEntries);
      var sub := BasicDir.EmitEntries(Payload(blocks[block]), blockEntries, curr, left, p);
      ghost var hi := if curr < blockEntries then base + blockEntries else g;
      BlockShift(es, base, blockEntries, curr, g, left, p);
      EmitSplit(es, start, g, hi, room, pos, sub);
      if sub.rc.Fail? {
        return Listing(Fail(EINVAL), out + sub.emitted, sub.pos);
      }
      out, p, left := out + sub.emitted, sub.pos, left - |sub.emitted|;
      if curr < blockEntries {
        curr := blockEntries;
      }
      g := hi;
      total := total - blockEntries;
      curr := curr - blockEntries;
      MulStep(k, m);
      if total > 0 {
        MoreBlocks(k, |chain|, m, count);
      }
      block := NextOf(blocks[block]);
      k, base := k + 1, base + m;
    }
    assert g == count;
    assert es[start..g] == es[Min(start, |es|)..];
    assert |Names(es[Min(start, |es|)..])| <= room;
    return Listing(Pass, out, p);
  }

  /** `osfs_iterate` with `curr_entry` taken from `ctx->pos` after the dots
      are emitted: the listing of the single-block variant, over the
      chain's entries. */
  method Iterate(sb: SbInfo, dir: nat, pos: int, room: nat, ghost chain: seq<nat>) returns (l: Listing)
    requires DirChain(sb, dir, chain) && (pos == 0 || pos >= 2)
    ensures l == BasicDir.IterateSpec(DirEntries(sb, dir, chain), pos, room)
  {
    var rec := sb.inodeTable[dir];
    var m := ChainMaxDirEntries(sb.blockSize as nat);
    var count := rec.size as nat / DIRENT_SIZE;
    ValidHolds(sb, chain);
    if pos != 0 {
      l := EmitChain(sb.dataBlocks[..], rec, count, m, pos - 2, room, pos, chain);
    } else if room == 0 {
      l := Listing(Pass, [], 0);
    } else if room == 1 {
      l := Listing(Pass, [Dot], 1);
    } else {
      var rest := EmitChain(sb.dataBlocks[..], rec, count, m, 0, room - 2, 2, chain);
      l := Listing(rest.rc, [Dot, DotDot] + rest.emitted, rest.pos);
    }
  }

  /** The record indexes the entry loop of `osfs_iterate` reads in the head
      block when `curr_entry` starts at `start`: from `start` up to
      `min(count, MAX_DIR_ENTRIES)`. */
  function HeadReads(start: int, count: nat, m: nat): (r: seq<int>)
    ensures |r| == if start < Min(count, m) then Min(count, m) - start else 0
    ensures forall i | 0 <= i < |r| :: r[i] == start + i
  {
    if start < Min(count, m) then seq(Min(count, m) - start, i => start + i) else []
  }

  /** As written, `curr_entry` is `ctx->pos - 2` taken before
      `dir_emit_dots`: a listing from position 0 of a directory with a block
      reads records -2 and -1 of the head block, which lie before its
      payload, whatever the directory holds. */
  lemma ListingFromZeroReadsBeforeBlock(count: nat, m: nat)
    requires m > 0
    ensures var r := HeadReads(0 - 2, count, m);
      |r| >= 2 && r[0] == -2 && r[1] == -1
  {
  }

  // Adding an entry.

  /** Linking a block behind the chain leaves the payloads of its blocks. */
  lemma LinkedPayloads(blocks: seq<seq<byte>>, chain: seq<nat>, b: nat)
    requires InPool(blocks, chain) && b < |blocks| < NO_NEXT_BLOCK && |blocks[b]| >= HEADER_SIZE
    requires forall i | 0 <= i < |chain| :: chain[i] != b
    ensures forall i | 0 <= i < |chain| :: Payload(Chain.Linked(blocks, chain, b)[chain[i]]) == Payload(blocks[chain[i]])
  {
    forall i | 0 <= i < |chain|
      ensures Payload(Chain.Linked(blocks, chain, b)[chain[i]]) == Payload(blocks[chain[i]])
    {
      LinkedAt(blocks, chain, b, chain[i]);
    }
  }

  /** A block linked behind the chain adds room but no entries. */
  lemma ChainEntriesExtend(blocks: seq<seq<byte>>, blocks': seq<seq<byte>>, chain: seq<nat>, b: nat, count: nat, m: nat)
    requires m > 0 && count <= |chain| * m && Holds(blocks, chain, m) && Holds(blocks', chain, m)
    requires b < |blocks'| && HEADER_SIZE + m * DIRENT_SIZE <= |blocks'[b]|
    requires forall i | 0 <= i < |chain| :: Payload(blocks'[chain[i]]) == Payload(blocks[chain[i]])
    ensures count <= |chain + [b]| * m && Holds(blocks', chain + [b], m)
    ensures ChainEntries(blocks', chain + [b], count, m) == ChainEntries(blocks, chain, count, m)
  {
    MulLe(|chain|, |chain| + 1, m);
    forall e | 0 <= e < count
      ensures EntryOf(blocks', chain + [b], m, e) == EntryOf(blocks, chain, m, e)
    {
      InsideTheChain(e, |chain|, m);
      var k := e / m;
      assert (chain + [b])[k] == chain[k];
      assert Payload(blocks'[chain[k]]) == Payload(blocks[chain[k]]);
    }
  }

  /** Whether `osfs_add_dir_entry` needs a block before it can write: the
      directory has none, or its `count` entries fill whole blocks. */
  predicate NeedsBlock(count: nat, n: nat, m: nat)
    requires m > 0
  {
    n == 0 || (count > 0 && count % m == 0)
  }

  lemma DivOfRange(x: nat, a: nat, m: nat)
    requires m > 0 && a * m <= x < a * m + m
    ensures x / m == a
  {
    DivModOf(x, a, m, x - a * m);
  }

  /** In a tight directory the entry to add goes into the last block once
      the block that may be needed is linked, at record `count % m`. */
  lemma TightTail(count: nat, n: nat, m: nat)
    requires m > 0 && Tight(count, n, m)
    ensures var n' := if NeedsBlock(count, n, m) then n + 1 else n;
      n' >= 1 && n' - 1 == count / m && count < n' * m && Tight(count + 1, n', m)
  {
    DivModSplit(count, m);
    var q, r := count / m, count % m;
    MulStep(q, m);
    if count == 0 {
      if n >= 1 {
        MulLe(0, n - 1, m);
      }
    } else {
      assert n >= 1;
      MulStep(n - 1, m);
      DivOfRange(count - 1, n - 1, m);
      if r == 0 {
        assert q >= 1;
        MulStep(q - 1, m);
        DivModOf(count - 1, q - 1, m, m - 1);
      } else {
        DivModOf(count - 1, q, m, r - 1);
      }
    }
  }

  /** A block linked for a directory whose entries fill whole blocks and
      then left without an entry is one block too many. */
  lemma BoundaryBlockBreaksTight(count: nat, n: nat, m: nat)
    requires m > 0 && Tight(count, n, m) && count > 0 && count % m == 0
    ensures n == count / m && !Tight(count, n + 1, m)
  {
    TightTail(count, n, m);
    DivModSplit(count, m);
  }

  /** Block `blk` with record `s` of its payload overwritten by the entry. */
  function PutDirEntry(blk: seq<byte>, s: nat, name: seq<byte>, ino: u32): (r: seq<byte>)
    requires |blk| >= HEADER_SIZE && (s + 1) * DIRENT_SIZE <= |blk| - HEADER_SIZE && |name| <= MAX_FILENAME_LEN
    ensures |r| == |blk| && r[..HEADER_SIZE] == blk[..HEADER_SIZE]
    ensures Payload(r) == PutEntry(Payload(blk), s, name, ino)
  {
    var r := blk[..HEADER_SIZE] + PutEntry(Payload(blk), s, name, ino);
    assert r[..HEADER_SIZE] == blk[..HEADER_SIZE];
    r
  }

  /** The pool after the entry is written at record `count % m` of block
      `count / m`. */
  ghost function PutAt(blocks: seq<seq<byte>>, chain: seq<nat>, count: nat, m: nat, name: seq<byte>, ino: u32)
    : (r: seq<seq<byte>>)
    requires m > 0 && count < |chain| * m && Holds(blocks, chain, m) && |name| <= MAX_FILENAME_LEN
    ensures |r| == |blocks| && Holds(r, chain, m)
  {
    InsideTheChain(count, |chain|, m);
    SlotFits(count % m, m);
    var t := chain[count / m];
    blocks[t := PutDirEntry(blocks[t], count % m, name, ino)]
  }

  /** The write leaves every other entry. */
  lemma PutKeepsEntry(blocks: seq<seq<byte>>, chain: seq<nat>, count: nat, m: nat, name: seq<byte>, ino: u32, e: nat)
    requires m > 0 && count < |chain| * m && Holds(blocks, chain, m) && |name| <= MAX_FILENAME_LEN
    requires forall i, j | 0 <= i < j < |chain| :: chain[i] != chain[j]
    requires e < |chain| * m && e != count
    ensures EntryOf(PutAt(blocks, chain, count, m, name, ino), chain, m, e) == EntryOf(blocks, chain, m, e)
  {
    var blocks' := PutAt(blocks, chain, count, m, name, ino);
    InsideTheChain(count, |chain|, m);
    InsideTheChain(e, |chain|, m);
    DivModSplit(count, m);
    DivModSplit(e, m);
    var k, s, ke, se := count / m, count % m, e / m, e % m;
    EntryInBlock(blocks, chain, m, ke, ke * m, se);
    EntryInBlock(blocks', chain, m, ke, ke * m, se);
    SlotFits(s, m);
    var t := chain[k];
    assert blocks' == blocks[t := PutDirEntry(blocks[t], s, name, ino)];
    if ke == k {
      PutEntryKeepsOthers(Payload(blocks[t]), s, name, ino);
    }
  }

  /** The write puts the entry at index `count`. */
  lemma PutReadsEntry(blocks: seq<seq<byte>>, chain: seq<nat>, count: nat, m: nat, name: seq<byte>, ino: u32)
    requires m > 0 && count < |chain| * m && Holds(blocks, chain, m) && |name| <= MAX_FILENAME_LEN && NoNul(name)
    ensures EntryOf(PutAt(blocks, chain, count, m, name, ino), chain, m, count) == DirEntry(name, ino)
  {
    InsideTheChain(count, |chain|, m);
    SlotFits(count % m, m);
    PutEntryReadsBack(Payload(blocks[chain[count / m]]), count % m, name, ino);
    CStrOfNoNul(name);
  }

  /** Writing the entry at record `count % m` of block `count / m` appends
      it to the entries. */
  lemma ChainEntriesPut(blocks: seq<seq<byte>>, chain: seq<nat>, count: nat, m: nat, name: seq<byte>, ino: u32)
    requires m > 0 && count < |chain| * m && Holds(blocks, chain, m)
    requires forall i, j | 0 <= i < j < |chain| :: chain[i] != chain[j]
    requires |name| <= MAX_FILENAME_LEN && NoNul(name)
    ensures ChainEntries(PutAt(blocks, chain, count, m, name, ino), chain, count + 1, m)
            == ChainEntries(blocks, chain, count, m) + [DirEntry(name, ino)]
  {
    var blocks' := PutAt(blocks, chain, count, m, name, ino);
    forall e | 0 <= e < count
      ensures EntryOf(blocks', chain, m, e) == EntryOf(blocks, chain, m, e)
    {
      PutKeepsEntry(blocks, chain, count, m, name, ino, e);
    }
    PutReadsEntry(blocks, chain, count, m, name, ino);
  }

  /** One more entry fits the 32-bit size while the chain has room for it. */
  lemma SizeFits(count: nat, n: nat, m: nat, bs: nat, blockCount: nat)
    requires m > 0 && count < n * m && n <= blockCount
    requires HEADER_SIZE + m * DIRENT_SIZE <= bs && (blockCount + 1) * bs < U32_LIMIT
    ensures (count + 1) * DIRENT_SIZE < U32_LIMIT
  {
    MulLe(count + 1, n * m, DIRENT_SIZE);
    assert n * m * DIRENT_SIZE == n * (m * DIRENT_SIZE);
    MulLe(m * DIRENT_SIZE, bs - HEADER_SIZE, n);
    assert n * (m * DIRENT_SIZE) <= n * (bs - HEADER_SIZE);
    PayloadFits(n, blockCount, bs);
  }

  /** A directory that needs no block has a free record in its last block. */
  lemma RoomLeft(count: nat, n: nat, m: nat)
    requires m > 0 && count <= n * m && !NeedsBlock(count, n, m)
    ensures count < n * m
  {
    MulLe(1, n, m);
    if count == n * m {
      DivModOf(count, n, m, 0);
    }
  }

  /** The two tests of `osfs_add_dir_entry` for a new block are `NeedsBlock`. */
  lemma GrowTest(size: nat, noHead: bool, n: nat, m: nat)
    requires m > 0 && size % DIRENT_SIZE == 0 && size / DIRENT_SIZE <= n * m && (noHead <==> n == 0)
    ensures (noHead || ((size / DIRENT_SIZE) % m == 0 && size != 0)) <==> NeedsBlock(size / DIRENT_SIZE, n, m)
  {
  }

  /** `osfs_append_block` on a directory: its entries and the payloads of
      its blocks stay as they were, and it gains one block of room. */
  method AppendDirBlock(sb: SbInfo, dir: nat, ghost chain: seq<nat>) returns (r: Result<u32>, ghost chain': seq<nat>)
    requires DirChain(sb, dir, chain)
    modifies sb, sb.blockBitmap, sb.dataBlocks, sb.inodeTable
    ensures DirChain(sb, dir, chain')
    ensures match FirstClear(old(sb.blockBitmap[..]), 0)
      case None =>
        && r == Err(ENOSPC) && chain' == chain
        && sb.blockBitmap[..] == old(sb.blockBitmap[..]) && sb.nrFreeBlocks == old(sb.nrFreeBlocks)
        && sb.dataBlocks[..] == old(sb.dataBlocks[..]) && sb.inodeTable[..] == old(sb.inodeTable[..])
      case Some(b) =>
        && r == Ok(b as u32) && chain' == chain + [b]
        && sb.dataBlocks[..] == Chain.Linked(old(sb.dataBlocks[..]), chain, b)
    ensures sb.inodeTable[dir] == old(sb.inodeTable[dir]).(data := sb.inodeTable[dir].data,
                                                          blocks := sb.inodeTable[dir].blocks)
    ensures forall j | 0 <= j < sb.inodeTable.Length && j != dir :: sb.inodeTable[j] == old(sb.inodeTable[j])
    ensures forall i | 0 <= i < |chain| :: Payload(sb.dataBlocks[chain[i]]) == Payload(old(sb.dataBlocks[chain[i]]))
    ensures DirEntries(sb, dir, chain') == old(DirEntries(sb, dir, chain))
    ensures sb.nrFreeInodes == old(sb.nrFreeInodes)
    ensures old(sb.CountsConsistent()) ==> sb.CountsConsistent()
    ensures Grew(old(sb.blockBitmap[..]), sb.blockBitmap[..], old(sb.dataBlocks[..]), sb.dataBlocks[..], chain, chain')
  {
    var m := ChainMaxDirEntries(sb.blockSize as nat);
    ghost var count := BasicDir.EntryCount(sb.inodeTable[dir]);
    ghost var blocks := sb.dataBlocks[..];
    ValidHolds(sb, chain);
    r, chain' := AppendBlock(sb, dir, chain);
    if r.Ok? {
      AppendedDir(sb, dir, chain, r.value as nat, blocks, count);
    }
  }

  /** After `osfs_append_block` linked block `b` behind a directory's chain,
      the directory holds the entries the old pool `blocks` held. */
  lemma AppendedDir(sb: SbInfo, dir: nat, chain: seq<nat>, b: nat, blocks: seq<seq<byte>>, count: nat)
    requires FileChain(sb, dir, chain + [b]) && InPool(blocks, chain) && |blocks| == sb.dataBlocks.Length
    requires b < |blocks| && |blocks[b]| >= HEADER_SIZE && forall i | 0 <= i < |chain| :: chain[i] != b
    requires sb.dataBlocks[..] == Chain.Linked(blocks, chain, b)
    requires Holds(blocks, chain, ChainMaxDirEntries(sb.blockSize as nat))
    requires ChainMaxDirEntries(sb.blockSize as nat) > 0 && sb.inodeTable[dir].size as nat % DIRENT_SIZE == 0
    requires count == BasicDir.EntryCount(sb.inodeTable[dir]) && count <= |chain| * ChainMaxDirEntries(sb.blockSize as nat)
    ensures DirChain(sb, dir, chain + [b])
    ensures forall i | 0 <= i < |chain| :: Payload(sb.dataBlocks[chain[i]]) == Payload(blocks[chain[i]])
    ensures DirEntries(sb, dir, chain + [b]) == ChainEntries(blocks, chain, count, ChainMaxDirEntries(sb.blockSize as nat))
  {
    var m := ChainMaxDirEntries(sb.blockSize as nat);
    LinkedPayloads(blocks, chain, b);
    ValidHolds(sb, chain + [b]);
    ValidHolds(sb, chain);
    ChainEntriesExtend(blocks, sb.dataBlocks[..], chain, b, count, m);
  }

  /** The pool `osfs_add_dir_entry` leaves after its growth step: when the
      entry `need`s a block and one is free, the lowest free block linked
      behind the chain; otherwise the pool as it was. */
  ghost function Grown(blocks: seq<seq<byte>>, chain: seq<nat>, bits: seq<bool>, need: bool): seq<seq<byte>>
    requires InPool(blocks, chain) && |bits| == |blocks| < NO_NEXT_BLOCK
    requires forall b | 0 <= b < |blocks| :: |blocks[b]| >= HEADER_SIZE
  {
    if need && FirstClear(bits, 0).Some? then Chain.Linked(blocks, chain, FirstClear(bits, 0).value) else blocks
  }

  /** The first half of `osfs_add_dir_entry`: a directory without a block
      is given one as head and tail (`i_blocks = 1`), and one whose entries
      fill whole blocks gets a new tail linked behind the old one
      (`i_blocks++`), both from the allocator of the linked variant, whose
      failure is `-ENOSPC`. The entries stay as they were. A directory
      without a block has size 0, so the second test cannot also hold after
      the first allocation, and both cases are `osfs_append_block`'s two
      cases. */
  method GrowForEntry(sb: SbInfo, dir: nat, ghost chain: seq<nat>) returns (rc: Outcome, ghost chain': seq<nat>)
    requires DirChain(sb, dir, chain)
    modifies sb, sb.blockBitmap, sb.dataBlocks, sb.inodeTable
    ensures DirChain(sb, dir, chain')
    ensures var m := ChainMaxDirEntries(sb.blockSize as nat);
      var count := BasicDir.EntryCount(old(sb.inodeTable[dir]));
      var need := NeedsBlock(count, |chain|, m);
      && (rc.Fail? <==> need && FirstClear(old(sb.blockBitmap[..]), 0).None?)
      && (rc.Fail? ==> rc == Fail(ENOSPC))
      && (need && rc == Pass ==> chain' == chain + [FirstClear(old(sb.blockBitmap[..]), 0).value])
      && (rc == Pass ==> count < |chain'| * m)
    ensures var need := NeedsBlock(BasicDir.EntryCount(old(sb.inodeTable[dir])), |chain|, ChainMaxDirEntries(sb.blockSize as nat));
      !need || rc.Fail? ==>
        && chain' == chain && sb.dataBlocks[..] == old(sb.dataBlocks[..])
        && sb.inodeTable[..] == old(sb.inodeTable[..]) && sb.blockBitmap[..] == old(sb.blockBitmap[..])
        && sb.nrFreeBlocks == old(sb.nrFreeBlocks)
    ensures sb.inodeTable[dir] == old(sb.inodeTable[dir]).(data := sb.inodeTable[dir].data,
                                                          blocks := sb.inodeTable[dir].blocks)
    ensures forall j | 0 <= j < sb.inodeTable.Length && j != dir :: sb.inodeTable[j] == old(sb.inodeTable[j])
    ensures forall i | 0 <= i < |chain| :: Payload(sb.dataBlocks[chain[i]]) == Payload(old(sb.dataBlocks[chain[i]]))
    ensures DirEntries(sb, dir, chain') == old(DirEntries(sb, dir, chain))
    ensures sb.inodeTable[dir].size == old(sb.inodeTable[dir].size)
    ensures sb.nrFreeInodes == old(sb.nrFreeInodes)
    ensures old(sb.CountsConsistent()) ==> sb.CountsConsistent()
    ensures Grew(old(sb.blockBitmap[..]), sb.blockBitmap[..], old(sb.dataBlocks[..]), sb.dataBlocks[..], chain, chain')
    ensures rc == Pass ==>
      sb.dataBlocks[..] == Grown(old(sb.dataBlocks[..]), chain, old(sb.blockBitmap[..]),
                                 NeedsBlock(BasicDir.EntryCount(old(sb.inodeTable[dir])), |chain|, ChainMaxDirEntries(sb.blockSize as nat)))
  {
    var rec := sb.inodeTable[dir];
    var m := ChainMaxDirEntries(sb.blockSize as nat);
    ghost var count := rec.size as nat / DIRENT_SIZE;
    NoHeadIffEmpty(sb.dataBlocks[..], rec.data.head, rec.data.tail, chain);
    var used := (rec.size as nat / DIRENT_SIZE) % m;
    var grow := rec.data.head == NO_NEXT_BLOCK || (used == 0 && rec.size != 0);
    GrowTest(rec.size as nat, rec.data.head == NO_NEXT_BLOCK, |chain|, m);
    if !grow {
      RoomLeft(count, |chain|, m);
      GrewNothing(sb.blockBitmap[..], sb.dataBlocks[..], chain);
      return Pass, chain;
    }
    var got;
    got, chain' := AppendDirBlock(sb, dir, chain);
    if got.Err? {
      return Fail(ENOSPC), chain';
    }
    assert |chain'| == |chain| + 1;
    MulStep(|chain|, m);
    assert count < |chain'| * m;
    return Pass, chain';
  }

  /** The pool after the entry is written at record `count % m` of the
      chain's last block, where `osfs_add_dir_entry` writes it. */
  ghost function PutTail(blocks: seq<seq<byte>>, chain: seq<nat>, count: nat, m: nat, name: seq<byte>, ino: u32)
    : (r: seq<seq<byte>>)
    requires m > 0 && |chain| >= 1 && Holds(blocks, chain, m) && |name| <= MAX_FILENAME_LEN
    ensures |r| == |blocks| && Holds(r, chain, m)
    ensures |chain| - 1 == count / m && count < |chain| * m ==> r == PutAt(blocks, chain, count, m, name, ino)
    ensures Kept(blocks, r, chain)
  {
    SlotFits(count % m, m);
    var t := chain[|chain| - 1];
    blocks[t := PutDirEntry(blocks[t], count % m, name, ino)]
  }

  /** One more record in the size. */
  lemma SizeStep(size: nat, count: nat)
    requires size % DIRENT_SIZE == 0 && count == size / DIRENT_SIZE && (count + 1) * DIRENT_SIZE < U32_LIMIT
    ensures Trunc32(size + DIRENT_SIZE) as nat == size + DIRENT_SIZE
    ensures (size + DIRENT_SIZE) % DIRENT_SIZE == 0 && (size + DIRENT_SIZE) / DIRENT_SIZE == count + 1
  {
    DivModSplit(size, DIRENT_SIZE);
    DivModOf(size + DIRENT_SIZE, count + 1, DIRENT_SIZE, 0);
  }

  /** The write keeps every block's length and the chain's links. */
  lemma PutTailKeepsChain(blocks: seq<seq<byte>>, head: u32, tail: u32, chain: seq<nat>, count: nat, m: nat,
                          name: seq<byte>, ino: u32)
    requires IsChain(blocks, head, tail, chain) && m > 0 && |chain| >= 1 && Holds(blocks, chain, m)
    requires |name| <= MAX_FILENAME_LEN
    ensures var r := PutTail(blocks, chain, count, m, name, ino);
      && IsChain(r, head, tail, chain)
      && forall b | 0 <= b < |blocks| :: |r[b]| == |blocks[b]|
  {
    var t := chain[|chain| - 1];
    SlotFits(count % m, m);
    SameHeaderKeepsChain(blocks, head, tail, chain, t, PutDirEntry(blocks[t], count % m, name, ino));
  }

  /** Written to the block entry `count` belongs to, the entry follows the
      others. */
  lemma PutTailAppends(blocks: seq<seq<byte>>, chain: seq<nat>, count: nat, m: nat, name: seq<byte>, ino: u32)
    requires m > 0 && |chain| >= 1 && count < |chain| * m && Holds(blocks, chain, m)
    requires forall i, j | 0 <= i < j < |chain| :: chain[i] != chain[j]
    requires |name| <= MAX_FILENAME_LEN
    ensures |chain| - 1 == count / m && NoNul(name) ==>
      ChainEntries(PutTail(blocks, chain, count, m, name, ino), chain, count + 1, m)
        == ChainEntries(blocks, chain, count, m) + [DirEntry(name, ino)]
  {
    if |chain| - 1 == count / m && NoNul(name) {
      ChainEntriesPut(blocks, chain, count, m, name, ino);
    }
  }

  /** The write at the end of `osfs_add_dir_entry`: record `count % M` of
      the tail block gets the entry and the size grows by one record, which
      the 32-bit size holds. When the tail is the block entry `count`
      belongs to, the directory's entries grow by exactly that entry. */
  method PutTailEntry(sb: SbInfo, dir: nat, ino: u32, name: seq<byte>, ghost chain: seq<nat>)
    requires DirChain(sb, dir, chain) && |chain| >= 1 && |name| <= MAX_FILENAME_LEN
    requires BasicDir.EntryCount(sb.inodeTable[dir]) < |chain| * ChainMaxDirEntries(sb.blockSize as nat)
    modifies sb.dataBlocks, sb.inodeTable
    ensures DirChain(sb, dir, chain)
    ensures var rec := old(sb.inodeTable[dir]);
      var m := ChainMaxDirEntries(sb.blockSize as nat);
      && Holds(old(sb.dataBlocks[..]), chain, m)
      && sb.dataBlocks[..] == PutTail(old(sb.dataBlocks[..]), chain, BasicDir.EntryCount(rec), m, name, ino)
      && sb.inodeTable[..] == old(sb.inodeTable[..])[dir := rec.(size := Trunc32(rec.size as int + DIRENT_SIZE))]
      && sb.inodeTable[dir].size as int == rec.size as int + DIRENT_SIZE
      && BasicDir.EntryCount(sb.inodeTable[dir]) == BasicDir.EntryCount(rec) + 1
    ensures sb.CountsConsistent() == old(sb.CountsConsistent())
    ensures Kept(old(sb.dataBlocks[..]), sb.dataBlocks[..], chain)
    ensures var m := ChainMaxDirEntries(sb.blockSize as nat);
      |chain| - 1 == BasicDir.EntryCount(old(sb.inodeTable[dir])) / m && NoNul(name) ==>
        DirEntries(sb, dir, chain) == old(DirEntries(sb, dir, chain)) + [DirEntry(name, ino)]
  {
    var rec := sb.inodeTable[dir];
    var m := ChainMaxDirEntries(sb.blockSize as nat);
    var count := rec.size as nat / DIRENT_SIZE;
    ghost var blocks := sb.dataBlocks[..];
    ValidHolds(sb, chain);
    ChainBound(blocks, rec.data.head, rec.data.tail, chain);
    SizeFits(count, |chain|, m, sb.blockSize as nat, sb.blockCount as nat);
    SizeStep(rec.size as nat, count);
    PutTailKeepsChain(blocks, rec.data.head, rec.data.tail, chain, count, m, name, ino);
    PutTailAppends(blocks, chain, count, m, name, ino);
    var t := rec.data.tail;
    SlotFits(count % m, m);
    var rec' := rec.(size := Trunc32(rec.size as int + DIRENT_SIZE));
    assert BasicDir.EntryCount(rec') == count + 1 && rec'.size as nat % DIRENT_SIZE == 0;
    sb.dataBlocks[t] := PutDirEntry(sb.dataBlocks[t], count % m, name, ino);
    sb.inodeTable[dir] := rec';
    assert sb.dataBlocks[..] == PutTail(blocks, chain, count, m, name, ino);
  }

  /** What growing a tight chain leads to: the new entry's block is the
      last one and the chain stays tight with it, but a block added at a
      block boundary leaves it not tight without the entry. */
  lemma GrowthAfterTight(count: nat, n: nat, m: nat)
    requires m > 0
    ensures var n' := if NeedsBlock(count, n, m) then n + 1 else n;
      Tight(count, n, m) ==> n' - 1 == count / m && Tight(count + 1, n', m)
    ensures Tight(count, n, m) && count > 0 && count % m == 0 ==> !Tight(count, n + 1, m)
  {
    if Tight(count, n, m) {
      TightTail(count, n, m);
      if count > 0 && count % m == 0 {
        BoundaryBlockBreaksTight(count, n, m);
      }
    }
  }

  /** The last block of `n` holds entry `count` when it is the block that
      entry belongs in. */
  lemma RoomInLast(count: nat, n: nat, m: nat)
    requires m > 0 && n >= 1 && n - 1 == count / m
    ensures count < n * m
  {
    DivModSplit(count, m);
    MulStep(n - 1, m);
  }

  /** The second half of `osfs_add_dir_entry`, once the chain has room:
      `-EEXIST` with nothing changed when an entry has the name, otherwise
      the write of `PutTailEntry`. */
  method CheckAndPut(sb: SbInfo, dir: nat, ino: u32, name: seq<byte>, ghost chain: seq<nat>) returns (rc: Outcome)
    requires DirChain(sb, dir, chain) && |chain| >= 1 && |name| <= MAX_FILENAME_LEN && NoNul(name)
    requires BasicDir.EntryCount(sb.inodeTable[dir]) < |chain| * ChainMaxDirEntries(sb.blockSize as nat)
    modifies sb.dataBlocks, sb.inodeTable
    ensures DirChain(sb, dir, chain)
    ensures rc.Fail? <==> FindEntry(old(DirEntries(sb, dir, chain)), name).Some?
    ensures rc.Fail? ==> rc == Fail(EEXIST) && sb.dataBlocks[..] == old(sb.dataBlocks[..])
                         && sb.inodeTable[..] == old(sb.inodeTable[..])
                         && sb.inodeTable[dir] == old(sb.inodeTable[dir])
                         && DirEntries(sb, dir, chain) == old(DirEntries(sb, dir, chain))
    ensures rc == Pass ==>
      var rec := old(sb.inodeTable[dir]);
      var m := ChainMaxDirEntries(sb.blockSize as nat);
      && Holds(old(sb.dataBlocks[..]), chain, m)
      && sb.dataBlocks[..] == PutTail(old(sb.dataBlocks[..]), chain, BasicDir.EntryCount(rec), m, name, ino)
      && sb.inodeTable[..] == old(sb.inodeTable[..])[dir := rec.(size := Trunc32(rec.size as int + DIRENT_SIZE))]
      && sb.inodeTable[dir].size as int == rec.size as int + DIRENT_SIZE
      && BasicDir.EntryCount(sb.inodeTable[dir]) == BasicDir.EntryCount(rec) + 1
    ensures var m := ChainMaxDirEntries(sb.blockSize as nat);
      rc == Pass && |chain| - 1 == BasicDir.EntryCount(old(sb.inodeTable[dir])) / m ==>
        DirEntries(sb, dir, chain) == old(DirEntries(sb, dir, chain)) + [DirEntry(name, ino)]
    ensures Kept(old(sb.dataBlocks[..]), sb.dataBlocks[..], chain)
  {
    var rec := sb.inodeTable[dir];
    var m := ChainMaxDirEntries(sb.blockSize as nat);
    ValidHolds(sb, chain);
    var dup, _ := ScanChain(sb.dataBlocks[..], rec, rec.size as nat / DIRENT_SIZE, m, name, chain);
    if dup.Some? {
      return Fail(EEXIST);
    }
    PutTailEntry(sb, dir, ino, name, chain);
    return Pass;
  }

  /** `osfs_add_dir_entry` as written: the block a new entry needs is
      allocated and linked before the names are compared, so the `-EEXIST`
      answer leaves that block behind. From a directory whose entries fill
      whole blocks, the chain then has a block past the one the next entry
      belongs to, which the next write goes to instead (see
      `StaleEntryShown`). */
  method AddDirEntryAsWritten(sb: SbInfo, dir: nat, ino: u32, name: seq<byte>, ghost chain: seq<nat>)
    returns (rc: Outcome, ghost chain': seq<nat>)
    requires DirChain(sb, dir, chain) && |name| <= MAX_FILENAME_LEN && NoNul(name)
    modifies sb, sb.blockBitmap, sb.dataBlocks, sb.inodeTable
    ensures DirChain(sb, dir, chain')
    ensures var m := ChainMaxDirEntries(sb.blockSize as nat);
      var count := BasicDir.EntryCount(old(sb.inodeTable[dir]));
      var es := old(DirEntries(sb, dir, chain));
      var need := NeedsBlock(count, |chain|, m);
      var full := need && FirstClear(old(sb.blockBitmap[..]), 0).None?;
      && (rc == Fail(ENOSPC) <==> full)
      && (rc == Fail(EEXIST) <==> !full && FindEntry(es, name).Some?)
      && (rc == Pass <==> !full && FindEntry(es, name).None?)
    ensures var count := BasicDir.EntryCount(old(sb.inodeTable[dir]));
      var m := ChainMaxDirEntries(sb.blockSize as nat);
      rc == Fail(EEXIST) ==>
        && DirEntries(sb, dir, chain') == old(DirEntries(sb, dir, chain))
        && sb.inodeTable[dir].size == old(sb.inodeTable[dir].size)
        && |chain'| == |chain| + (if NeedsBlock(count, |chain|, m) then 1 else 0)
        && (Tight(count, |chain|, m) && count > 0 && count % m == 0 ==>
              |chain'| == count / m + 1 && !Tight(BasicDir.EntryCount(sb.inodeTable[dir]), |chain'|, m))
    ensures rc == Pass ==> sb.inodeTable[dir].size as int == old(sb.inodeTable[dir].size) as int + DIRENT_SIZE
    ensures rc == Pass && old(TightDir(sb, dir, chain)) ==>
      TightDir(sb, dir, chain') && DirEntries(sb, dir, chain') == old(DirEntries(sb, dir, chain)) + [DirEntry(name, ino)]
    ensures rc == Fail(ENOSPC) ==>
      && chain' == chain && sb.dataBlocks[..] == old(sb.dataBlocks[..])
      && sb.inodeTable[..] == old(sb.inodeTable[..]) && sb.blockBitmap[..] == old(sb.blockBitmap[..])
    ensures rc != Fail(ENOSPC) ==>
      chain' == chain + (if NeedsBlock(BasicDir.EntryCount(old(sb.inodeTable[dir])), |chain|, ChainMaxDirEntries(sb.blockSize as nat))
                         then [FirstClear(old(sb.blockBitmap[..]), 0).value] else [])
    ensures Grew(old(sb.blockBitmap[..]), sb.blockBitmap[..], old(sb.dataBlocks[..]), sb.dataBlocks[..], chain, chain')
    ensures var m := ChainMaxDirEntries(sb.blockSize as nat);
      var count := BasicDir.EntryCount(old(sb.inodeTable[dir]));
      var grown := Grown(old(sb.dataBlocks[..]), chain, old(sb.blockBitmap[..]), NeedsBlock(count, |chain|, m));
      && (rc == Fail(EEXIST) ==> sb.dataBlocks[..] == grown)
      && (rc == Pass ==> Holds(grown, chain', m) && sb.dataBlocks[..] == PutTail(grown, chain', count, m, name, ino))
    ensures sb.inodeTable[dir] == old(sb.inodeTable[dir]).(data := sb.inodeTable[dir].data,
                                                          blocks := sb.inodeTable[dir].blocks,
                                                          size := sb.inodeTable[dir].size)
    ensures forall j | 0 <= j < sb.inodeTable.Length && j != dir :: sb.inodeTable[j] == old(sb.inodeTable[j])
  {
    ghost var count := BasicDir.EntryCount(sb.inodeTable[dir]);
    ghost var es := DirEntries(sb, dir, chain);
    ghost var size := sb.inodeTable[dir].size;
    var m := ChainMaxDirEntries(sb.blockSize as nat);
    var grown;
    grown, chain' := GrowForEntry(sb, dir, chain);
    if grown.Fail? {
      return grown, chain';
    }
    rc := PutAfterGrowth(sb, dir, ino, name, chain, chain', count, es, old(sb.blockBitmap[..]), old(sb.dataBlocks[..]));
  }

  /** `CheckAndPut` on the chain `GrowForEntry` left, stated against the
      directory before the growth: `count` entries `es` along `chain`. */
  method PutAfterGrowth(sb: SbInfo, dir: nat, ino: u32, name: seq<byte>, ghost chain: seq<nat>,
                        ghost chain': seq<nat>, ghost count: nat, ghost es: seq<DirEntry>,
                        ghost bits: seq<bool>, ghost blocks: seq<seq<byte>>)
    returns (rc: Outcome)
    requires DirChain(sb, dir, chain') && |name| <= MAX_FILENAME_LEN && NoNul(name)
    requires BasicDir.EntryCount(sb.inodeTable[dir]) == count && DirEntries(sb, dir, chain') == es
    requires var m := ChainMaxDirEntries(sb.blockSize as nat);
      |chain'| == |chain| + (if NeedsBlock(count, |chain|, m) then 1 else 0) && count < |chain'| * m
    requires Grew(bits, sb.blockBitmap[..], blocks, sb.dataBlocks[..], chain, chain')
    modifies sb.dataBlocks, sb.inodeTable
    ensures DirChain(sb, dir, chain')
    ensures rc.Fail? <==> FindEntry(es, name).Some?
    ensures var m := ChainMaxDirEntries(sb.blockSize as nat);
      rc.Fail? ==>
        && rc == Fail(EEXIST) && DirEntries(sb, dir, chain') == es
        && sb.inodeTable[dir].size == old(sb.inodeTable[dir].size)
        && (Tight(count, |chain|, m) && count > 0 && count % m == 0 ==>
              |chain'| == count / m + 1 && !Tight(BasicDir.EntryCount(sb.inodeTable[dir]), |chain'|, m))
    ensures rc == Pass ==> sb.inodeTable[dir].size as int == old(sb.inodeTable[dir].size) as int + DIRENT_SIZE
    ensures rc == Pass && Tight(count, |chain|, ChainMaxDirEntries(sb.blockSize as nat)) ==>
      TightDir(sb, dir, chain') && DirEntries(sb, dir, chain') == es + [DirEntry(name, ino)]
    ensures rc.Fail? ==> sb.dataBlocks[..] == old(sb.dataBlocks[..]) && sb.inodeTable[..] == old(sb.inodeTable[..])
    ensures rc == Pass ==>
      var rec := old(sb.inodeTable[dir]);
      var m := ChainMaxDirEntries(sb.blockSize as nat);
      && Holds(old(sb.dataBlocks[..]), chain', m)
      && sb.dataBlocks[..] == PutTail(old(sb.dataBlocks[..]), chain', count, m, name, ino)
      && sb.inodeTable[..] == old(sb.inodeTable[..])[dir := rec.(size := Trunc32(rec.size as int + DIRENT_SIZE))]
    ensures Grew(bits, sb.blockBitmap[..], blocks, sb.dataBlocks[..], chain, chain')
  {
    var m := ChainMaxDirEntries(sb.blockSize as nat);
    GrowthAfterTight(count, |chain|, m);
    assert Tight(count, |chain|, m) ==> |chain'| - 1 == count / m && Tight(count + 1, |chain'|, m);
    rc := CheckAndPut(sb, dir, ino, name, chain');
    GrewThenWrote(bits, sb.blockBitmap[..], blocks, old(sb.dataBlocks[..]), sb.dataBlocks[..], chain, chain');
  }

  /** After an `-EEXIST` at a block boundary the chain is one block longer
      than its entries need, and the next `osfs_add_dir_entry` adds yet
      another: entry `count` then lies in the first of the two new
      blocks, at record 0, while the write goes to record 0 of the last.
      The entries after that write are the old ones followed by whatever
      record 0 of the skipped block held when it was allocated, not the
      entry written. */
  lemma StaleEntryShown(blocks: seq<seq<byte>>, chain: seq<nat>, count: nat, m: nat, name: seq<byte>, ino: u32)
    requires m > 0 && count > 0 && count % m == 0 && |chain| == count / m + 2
    requires Holds(blocks, chain, m) && (forall i, j | 0 <= i < j < |chain| :: chain[i] != chain[j])
    requires |name| <= MAX_FILENAME_LEN
    ensures count + 1 <= |chain| * m
    ensures var blocks' := PutTail(blocks, chain, count, m, name, ino);
      && ChainEntries(blocks', chain, count + 1, m)[..count] == ChainEntries(blocks, chain, count, m)
      && ChainEntries(blocks', chain, count + 1, m)[count] == EntryAt(Payload(blocks[chain[count / m]]), 0)
  {
    var q := count / m;
    var blocks' := PutTail(blocks, chain, count, m, name, ino);
    var t := chain[q + 1];
    DivModSplit(count, m);
    MulLe(q + 1, q + 2, m);
    MulStep(q, m);
    MulStep(q + 1, m);
    assert blocks'[chain[q]] == blocks[chain[q]];
    EntryInBlock(blocks', chain, m, q, count, 0);
    forall e | 0 <= e < count
      ensures EntryOf(blocks', chain, m, e) == EntryOf(blocks, chain, m, e)
    {
      InsideTheChain(e, q, m);
      assert blocks'[chain[e / m]] == blocks[chain[e / m]];
    }
  }

  /** The growth and the write of `osfs_add_dir_entry`, for a name no
      entry has: `-ENOSPC` with nothing changed when the entry needs a block
      and none is free, otherwise the entry is appended and the chain stays
      tight. */
  method GrowAndPut(sb: SbInfo, dir: nat, ino: u32, name: seq<byte>, ghost chain: seq<nat>)
    returns (rc: Outcome, ghost chain': seq<nat>)
    requires TightDir(sb, dir, chain) && |name| <= MAX_FILENAME_LEN && NoNul(name)
    modifies sb, sb.blockBitmap, sb.dataBlocks, sb.inodeTable
    ensures TightDir(sb, dir, chain')
    ensures var m := ChainMaxDirEntries(sb.blockSize as nat);
      var need := NeedsBlock(BasicDir.EntryCount(old(sb.inodeTable[dir])), |chain|, m);
      && (rc.Fail? <==> need && FirstClear(old(sb.blockBitmap[..]), 0).None?)
      && (rc.Fail? ==> rc == Fail(ENOSPC))
    ensures rc.Fail? ==>
      && chain' == chain && sb.dataBlocks[..] == old(sb.dataBlocks[..])
      && sb.inodeTable[..] == old(sb.inodeTable[..]) && sb.blockBitmap[..] == old(sb.blockBitmap[..])
      && sb.nrFreeBlocks == old(sb.nrFreeBlocks)
    ensures rc == Pass ==>
      && DirEntries(sb, dir, chain') == old(DirEntries(sb, dir, chain)) + [DirEntry(name, ino)]
      && sb.inodeTable[dir].size as int == old(sb.inodeTable[dir].size) as int + DIRENT_SIZE
      && chain' == chain + (if NeedsBlock(BasicDir.EntryCount(old(sb.inodeTable[dir])), |chain|, ChainMaxDirEntries(sb.blockSize as nat))
                            then [FirstClear(old(sb.blockBitmap[..]), 0).value] else [])
    ensures forall j | 0 <= j < sb.inodeTable.Length && j != dir :: sb.inodeTable[j] == old(sb.inodeTable[j])
    ensures sb.nrFreeInodes == old(sb.nrFreeInodes)
    ensures old(sb.CountsConsistent()) ==> sb.CountsConsistent()
    ensures Grew(old(sb.blockBitmap[..]), sb.blockBitmap[..], old(sb.dataBlocks[..]), sb.dataBlocks[..], chain, chain')
  {
    ghost var count := BasicDir.EntryCount(sb.inodeTable[dir]);
    ghost var es := DirEntries(sb, dir, chain);
    ghost var size := sb.inodeTable[dir].size;
    var m := ChainMaxDirEntries(sb.blockSize as nat);
    var grown;
    grown, chain' := GrowForEntry(sb, dir, chain);
    if grown.Fail? {
      return grown, chain';
    }
    ghost var bits1, blocks1 := sb.blockBitmap[..], sb.dataBlocks[..];
    PutIntoRoom(sb, dir, ino, name, chain, chain', count, es);
    GrewThenWrote(old(sb.blockBitmap[..]), bits1, old(sb.dataBlocks[..]), blocks1, sb.dataBlocks[..], chain, chain');
    return Pass, chain';
  }

  /** The write of `PutTailEntry` into the chain `GrowForEntry` left from a
      tight one, stated against the directory before the growth: `count`
      entries `es` along `chain`. The last block is the one the entry
      belongs in, and the chain is tight once the entry is there. */
  method PutIntoRoom(sb: SbInfo, dir: nat, ino: u32, name: seq<byte>, ghost chain: seq<nat>,
                     ghost chain': seq<nat>, ghost count: nat, ghost es: seq<DirEntry>)
    requires DirChain(sb, dir, chain') && |name| <= MAX_FILENAME_LEN && NoNul(name)
    requires BasicDir.EntryCount(sb.inodeTable[dir]) == count && DirEntries(sb, dir, chain') == es
    requires var m := ChainMaxDirEntries(sb.blockSize as nat);
      && |chain'| == |chain| + (if NeedsBlock(count, |chain|, m) then 1 else 0) && count < |chain'| * m
      && Tight(count, |chain|, m)
    modifies sb.dataBlocks, sb.inodeTable
    ensures TightDir(sb, dir, chain')
    ensures DirEntries(sb, dir, chain') == es + [DirEntry(name, ino)]
    ensures sb.inodeTable[dir].size as int == old(sb.inodeTable[dir].size) as int + DIRENT_SIZE
    ensures forall j | 0 <= j < sb.inodeTable.Length && j != dir :: sb.inodeTable[j] == old(sb.inodeTable[j])
    ensures sb.CountsConsistent() == old(sb.CountsConsistent())
    ensures Kept(old(sb.dataBlocks[..]), sb.dataBlocks[..], chain')
  {
    var m := ChainMaxDirEntries(sb.blockSize as nat);
    GrowthAfterTight(count, |chain|, m);
    assert |chain'| - 1 == count / m && Tight(count + 1, |chain'|, m);
    RoomInLast(count, |chain'|, m);
    PutTailEntry(sb, dir, ino, name, chain');
  }

  /** `osfs_add_dir_entry` with the names compared before any block is
      allocated: `-EEXIST` when an entry has the name, `-ENOSPC` when the
      entry needs a block and none is free, and either way nothing changes;
      otherwise the entry is added after the last one, where a lookup of the
      name now finds it, and the chain stays tight. */
  method AddDirEntry(sb: SbInfo, dir: nat, ino: u32, name: seq<byte>, ghost chain: seq<nat>)
    returns (rc: Outcome, ghost chain': seq<nat>)
    requires TightDir(sb, dir, chain) && |name| <= MAX_FILENAME_LEN && NoNul(name)
    modifies sb, sb.blockBitmap, sb.dataBlocks, sb.inodeTable
    ensures TightDir(sb, dir, chain')
    ensures var m := ChainMaxDirEntries(sb.blockSize as nat);
      var es := old(DirEntries(sb, dir, chain));
      var need := NeedsBlock(BasicDir.EntryCount(old(sb.inodeTable[dir])), |chain|, m);
      var full := need && FirstClear(old(sb.blockBitmap[..]), 0).None?;
      && (rc == Fail(EEXIST) <==> FindEntry(es, name).Some?)
      && (rc == Fail(ENOSPC) <==> FindEntry(es, name).None? && full)
      && (rc == Pass <==> FindEntry(es, name).None? && !full)
    ensures rc.Fail? ==>
      && chain' == chain && sb.dataBlocks[..] == old(sb.dataBlocks[..])
      && sb.inodeTable[..] == old(sb.inodeTable[..]) && sb.blockBitmap[..] == old(sb.blockBitmap[..])
      && sb.nrFreeBlocks == old(sb.nrFreeBlocks)
    ensures rc == Pass ==>
      && DirEntries(sb, dir, chain') == old(DirEntries(sb, dir, chain)) + [DirEntry(name, ino)]
      && FindEntry(DirEntries(sb, dir, chain'), name) == Some(|old(DirEntries(sb, dir, chain))|)
      && sb.inodeTable[dir].size as int == old(sb.inodeTable[dir].size) as int + DIRENT_SIZE
      && chain' == chain + (if NeedsBlock(BasicDir.EntryCount(old(sb.inodeTable[dir])), |chain|, ChainMaxDirEntries(sb.blockSize as nat))
                            then [FirstClear(old(sb.blockBitmap[..]), 0).value] else [])
    ensures forall j | 0 <= j < sb.inodeTable.Length && j != dir :: sb.inodeTable[j] == old(sb.inodeTable[j])
    ensures sb.nrFreeInodes == old(sb.nrFreeInodes)
    ensures old(sb.CountsConsistent()) ==> sb.CountsConsistent()
    ensures Grew(old(sb.blockBitmap[..]), sb.blockBitmap[..], old(sb.dataBlocks[..]), sb.dataBlocks[..], chain, chain')
  {
    var rec := sb.inodeTable[dir];
    ghost var es := DirEntries(sb, dir, chain);
    ValidHolds(sb, chain);
    var dup, _ := ScanChain(sb.dataBlocks[..], rec, rec.size as nat / DIRENT_SIZE,
                            ChainMaxDirEntries(sb.blockSize as nat), name, chain);
    if dup.Some? {
      GrewNothing(sb.blockBitmap[..], sb.dataBlocks[..], chain);
      return Fail(EEXIST), chain;
    }
    FindAfterAppend(es, DirEntry(name, ino), name);
    rc, chain' := GrowAndPut(sb, dir, ino, name, chain);
  }

  /** A block from the linked allocator for another inode leaves directory
      `d` and its entries as they were: the block was free, so it is none
      of `d`'s. */
  method AllocOutsideDir(sb: SbInfo, d: nat, ghost chain: seq<nat>) returns (r: Result<u32>)
    requires TightDir(sb, d, chain)
    modifies sb, sb.blockBitmap, sb.dataBlocks
    ensures TightDir(sb, d, chain) && DirEntries(sb, d, chain) == old(DirEntries(sb, d, chain))
    ensures sb.nrFreeInodes == old(sb.nrFreeInodes)
    ensures FirstClear(old(sb.blockBitmap[..]), 0).None? ==>
      r == Err(ENOSPC) && sb.blockBitmap[..] == old(sb.blockBitmap[..])
      && sb.nrFreeBlocks == old(sb.nrFreeBlocks) && sb.dataBlocks[..] == old(sb.dataBlocks[..])
    ensures FirstClear(old(sb.blockBitmap[..]), 0).Some? ==>
      var b := FirstClear(old(sb.blockBitmap[..]), 0).value;
      && r == Ok(b as u32)
      && sb.blockBitmap[..] == old(sb.blockBitmap[..])[b := true]
      && sb.nrFreeBlocks == Dec32(old(sb.nrFreeBlocks))
      && sb.dataBlocks[..] == old(sb.dataBlocks[..])[b := WithNext(old(sb.dataBlocks[b]), NO_NEXT_BLOCK)]
    ensures r.Ok? ==> r.value < sb.blockCount && NextOf(sb.dataBlocks[r.value]) == NO_NEXT_BLOCK
    ensures old(sb.CountsConsistent()) ==> sb.CountsConsistent()
  {
    ghost var blocks := sb.dataBlocks[..];
    ghost var bits := sb.blockBitmap[..];
    ghost var rec := sb.inodeTable[d];
    var m := ChainMaxDirEntries(sb.blockSize as nat);
    ValidHolds(sb, chain);
    r := AllocChainBlock(sb);
    if r.Ok? {
      var b := r.value as nat;
      assert forall i | 0 <= i < |chain| :: chain[i] != b;
      ChainFrame(blocks, sb.dataBlocks[..], rec.data.head, rec.data.tail, chain);
      ValidHolds(sb, chain);
      ChainEntriesFrame(blocks, sb.dataBlocks[..], chain, BasicDir.EntryCount(rec), m);
      assert Owned(sb.blockBitmap[..], chain);
    }
  }

  /** `osfs_create` sets the parent's `__i_mtime` and `__i_ctime` after the
      entry is added; the directory's chain and entries are kept. */
  method TouchDir(sb: SbInfo, d: nat, now: Time, ghost chain: seq<nat>)
    requires TightDir(sb, d, chain)
    modifies sb.inodeTable
    ensures TightDir(sb, d, chain) && DirEntries(sb, d, chain) == old(DirEntries(sb, d, chain))
    ensures sb.inodeTable[..] == old(sb.inodeTable[..])[d := old(sb.inodeTable[d]).(mtime := now, ctime := now)]
    ensures sb.inodeTable[d].mtime == now && sb.inodeTable[d].ctime == now
    ensures forall j | 0 <= j < sb.inodeTable.Length && j != d :: sb.inodeTable[j] == old(sb.inodeTable[j])
  {
    sb.inodeTable[d] := sb.inodeTable[d].(mtime := now, ctime := now);
  }

  /** The record `osfs_create` writes for inode `ino` of the linked variant
      before any block is allocated: zeroed, then owner, mode and times, an
      empty size and no block, with both ends of the chain
      `OSFS_NO_NEXT_BLOCK`. */
  function NewChainRecord(ino: u32, mode: u16, uid: u32, gid: u32, now: Time): (rec: Inode)
    ensures rec.ino == ino && rec.mode == mode && rec.uid == uid && rec.gid == gid
    ensures rec.size == 0 && rec.blocks == 0 && rec.links == 0
    ensures rec.atime == now && rec.mtime == now && rec.ctime == now
    ensures rec.data == Chained(NO_NEXT_BLOCK, NO_NEXT_BLOCK)
  {
    ZeroInode(Region.Linked).(ino := ino, mode := mode, uid := uid, gid := gid,
                              data := Chained(NO_NEXT_BLOCK, NO_NEXT_BLOCK),
                              atime := now, mtime := now, ctime := now)
  }

  /** The block `osfs_create` takes for a new inode of mode `mode` from the
      bitmap `bits`: the first free one for a directory, when there is one. */
  ghost function OwnBlock(bits: seq<bool>, mode: u16): seq<nat> {
    if IsDir(mode) && FirstClear(bits, 0).Some? then [FirstClear(bits, 0).value] else []
  }

  /** The record half of `osfs_create`: slot `s` gets the new record, and a
      directory gets a first block from the linked allocator as head and
      tail, which makes it an empty directory of one block. A failed
      allocation returns its error with the record already written. The
      parent directory and its entries are left as they were. */
  method CreateRecord(sb: SbInfo, s: nat, ino: u32, mode: u16, uid: u32, gid: u32, now: Time,
                      parent: nat, ghost chain: seq<nat>) returns (rc: Outcome)
    requires TightDir(sb, parent, chain) && s == ino as nat && s < sb.inodeTable.Length && s != parent
    modifies sb, sb.blockBitmap, sb.dataBlocks, sb.inodeTable
    ensures TightDir(sb, parent, chain) && DirEntries(sb, parent, chain) == old(DirEntries(sb, parent, chain))
    ensures forall j | 0 <= j < sb.inodeTable.Length && j != s :: sb.inodeTable[j] == old(sb.inodeTable[j])
    ensures sb.nrFreeInodes == old(sb.nrFreeInodes)
    ensures old(sb.CountsConsistent()) ==> sb.CountsConsistent()
    ensures rc.Fail? <==> IsDir(mode) && FirstClear(old(sb.blockBitmap[..]), 0).None?
    ensures rc.Fail? || !IsDir(mode) ==>
      && sb.blockBitmap[..] == old(sb.blockBitmap[..]) && sb.nrFreeBlocks == old(sb.nrFreeBlocks)
      && sb.dataBlocks[..] == old(sb.dataBlocks[..])
    ensures rc.Fail? ==> rc == Fail(ENOSPC) && sb.inodeTable[s] == NewChainRecord(ino, mode, uid, gid, now)
    ensures rc == Pass && !IsDir(mode) ==>
      sb.inodeTable[s] == NewChainRecord(ino, mode, uid, gid, now) && FileChain(sb, s, [])
    ensures rc == Pass && IsDir(mode) ==>
      var b := FirstClear(old(sb.blockBitmap[..]), 0).value;
      && sb.inodeTable[s] == NewChainRecord(ino, mode, uid, gid, now).(blocks := 1, data := Chained(b as u32, b as u32))
      && sb.blockBitmap[..] == old(sb.blockBitmap[..])[b := true]
      && sb.nrFreeBlocks == Dec32(old(sb.nrFreeBlocks))
      && TightDir(sb, s, [b]) && DirEntries(sb, s, [b]) == []
    ensures var own := OwnBlock(old(sb.blockBitmap[..]), mode);
      Took(old(sb.blockBitmap[..]), sb.blockBitmap[..], own) && Kept(old(sb.dataBlocks[..]), sb.dataBlocks[..], own)
    ensures sb.inodeTable[s] == CreatedRecord(old(sb.blockBitmap[..]), ino, mode, uid, gid, now)
    ensures rc.Fail? <==> IsDir(mode) && FreeBits(old(sb.blockBitmap[..])) == 0
    ensures rc == Pass ==> FreeBits(sb.blockBitmap[..]) == FreeBits(old(sb.blockBitmap[..])) - Bit(IsDir(mode))
  {
    FreeBitsFirstClear(sb.blockBitmap[..]);
    var rec := NewChainRecord(ino, mode, uid, gid, now);
    sb.inodeTable[s] := rec;
    if IsDir(mode) {
      rc := FirstDirBlock(sb, s, parent, chain);
      return rc;
    }
    return Pass;
  }

  /** A new directory's first block: taken from the linked allocator and
      made head and tail of record `s`, which has no block yet, with
      `i_blocks = 1`; that is an empty directory of one block. When no block
      is free, `-ENOSPC` with nothing changed. */
  method FirstDirBlock(sb: SbInfo, s: nat, parent: nat, ghost chain: seq<nat>) returns (rc: Outcome)
    requires TightDir(sb, parent, chain) && s < sb.inodeTable.Length && s != parent
    requires sb.inodeTable[s].data == Chained(NO_NEXT_BLOCK, NO_NEXT_BLOCK) && sb.inodeTable[s].size == 0
    modifies sb, sb.blockBitmap, sb.dataBlocks, sb.inodeTable
    ensures TightDir(sb, parent, chain) && DirEntries(sb, parent, chain) == old(DirEntries(sb, parent, chain))
    ensures forall j | 0 <= j < sb.inodeTable.Length && j != s :: sb.inodeTable[j] == old(sb.inodeTable[j])
    ensures sb.nrFreeInodes == old(sb.nrFreeInodes)
    ensures old(sb.CountsConsistent()) ==> sb.CountsConsistent()
    ensures rc.Fail? <==> FirstClear(old(sb.blockBitmap[..]), 0).None?
    ensures rc.Fail? ==>
      && rc == Fail(ENOSPC) && sb.inodeTable[..] == old(sb.inodeTable[..])
      && sb.blockBitmap[..] == old(sb.blockBitmap[..]) && sb.nrFreeBlocks == old(sb.nrFreeBlocks)
      && sb.dataBlocks[..] == old(sb.dataBlocks[..])
    ensures rc == Pass ==>
      var b := FirstClear(old(sb.blockBitmap[..]), 0).value;
      && sb.inodeTable[s] == old(sb.inodeTable[s]).(blocks := 1, data := Chained(b as u32, b as u32))
      && sb.blockBitmap[..] == old(sb.blockBitmap[..])[b := true]
      && sb.nrFreeBlocks == Dec32(old(sb.nrFreeBlocks))
      && TightDir(sb, s, [b]) && DirEntries(sb, s, [b]) == []
    ensures rc == Pass ==>
      var own := [FirstClear(old(sb.blockBitmap[..]), 0).value];
      Took(old(sb.blockBitmap[..]), sb.blockBitmap[..], own) && Kept(old(sb.dataBlocks[..]), sb.dataBlocks[..], own)
  {
    ghost var bits := sb.blockBitmap[..];
    var rec := sb.inodeTable[s];
    var blk := AllocOutsideDir(sb, parent, chain);
    if blk.Err? {
      return Fail(blk.error);
    }
    TookOne(bits, blk.value as nat);
    sb.inodeTable[s] := rec.(blocks := 1, data := Chained(blk.value, blk.value));
    MulLe(0, 1, ChainMaxDirEntries(sb.blockSize as nat));
    return Pass;
  }

  /** The entry for `ino` added to the parent, then the parent's times set
      when that succeeded: `AddDirEntry`'s outcomes, with `TouchDir` on
      success. */
  method LinkIntoParent(sb: SbInfo, parent: nat, ino: u32, name: seq<byte>, now: Time, ghost chain: seq<nat>)
    returns (rc: Outcome, ghost chain': seq<nat>)
    requires TightDir(sb, parent, chain) && |name| <= MAX_FILENAME_LEN && NoNul(name)
    modifies sb, sb.blockBitmap, sb.dataBlocks, sb.inodeTable
    ensures TightDir(sb, parent, chain')
    ensures var m := ChainMaxDirEntries(sb.blockSize as nat);
      var es := old(DirEntries(sb, parent, chain));
      var need := NeedsBlock(BasicDir.EntryCount(old(sb.inodeTable[parent])), |chain|, m);
      var full := need && FirstClear(old(sb.blockBitmap[..]), 0).None?;
      && (rc == Fail(EEXIST) <==> FindEntry(es, name).Some?)
      && (rc == Fail(ENOSPC) <==> FindEntry(es, name).None? && full)
      && (rc == Pass <==> FindEntry(es, name).None? && !full)
    ensures rc.Fail? ==>
      && chain' == chain && sb.dataBlocks[..] == old(sb.dataBlocks[..])
      && sb.inodeTable[..] == old(sb.inodeTable[..]) && sb.blockBitmap[..] == old(sb.blockBitmap[..])
      && sb.nrFreeBlocks == old(sb.nrFreeBlocks)
    ensures rc == Pass ==>
      && DirEntries(sb, parent, chain') == old(DirEntries(sb, parent, chain)) + [DirEntry(name, ino)]
      && sb.inodeTable[parent].mtime == now && sb.inodeTable[parent].ctime == now
    ensures sb.nrFreeInodes == old(sb.nrFreeInodes)
    ensures old(sb.CountsConsistent()) ==> sb.CountsConsistent()
    ensures forall j | 0 <= j < sb.inodeTable.Length && j != parent :: sb.inodeTable[j] == old(sb.inodeTable[j])
    ensures Grew(old(sb.blockBitmap[..]), sb.blockBitmap[..], old(sb.dataBlocks[..]), sb.dataBlocks[..], chain, chain')
  {
    rc, chain' := AddDirEntry(sb, parent, ino, name, chain);
    if rc.Fail? {
      return rc, chain';
    }
    TouchDir(sb, parent, now, chain');
  }

  /** The record `osfs_create` leaves in the slot of inode `ino`: the new
      record, with the block of `OwnBlock` as head and tail when it took
      one. */
  ghost function CreatedRecord(bits: seq<bool>, ino: u32, mode: u16, uid: u32, gid: u32, now: Time): Inode
    requires |bits| <= U32_LIMIT
  {
    var own := OwnBlock(bits, mode);
    if own == [] then NewChainRecord(ino, mode, uid, gid, now)
    else NewChainRecord(ino, mode, uid, gid, now).(blocks := 1, data := Chained(own[0] as u32, own[0] as u32))
  }

  /** Everything `osfs_create` does once the inode number and its slot are
      found: the record, a directory's first block, the entry in the parent,
      and the parent's times. Success needs a name no entry has and a free
      block for the directory's own block and one for the parent's growth,
      when those are needed; `-EEXIST` comes only once a directory's own
      block is had. An error is returned as it comes, with the steps before
      it kept: the record and the directory's own block stay. */
  method Install(sb: SbInfo, ino: u32, mode: u16, uid: u32, gid: u32, now: Time,
                 parent: nat, name: seq<byte>, ghost chain: seq<nat>) returns (rc: Outcome, ghost chain': seq<nat>)
    requires TightDir(sb, parent, chain) && ino as nat < sb.inodeTable.Length && ino as nat != parent
    requires |name| <= MAX_FILENAME_LEN && NoNul(name)
    modifies sb, sb.blockBitmap, sb.dataBlocks, sb.inodeTable
    ensures TightDir(sb, parent, chain') && chain <= chain'
    ensures sb.nrFreeInodes == old(sb.nrFreeInodes)
    ensures old(sb.CountsConsistent()) ==> sb.CountsConsistent()
    ensures var m := ChainMaxDirEntries(sb.blockSize as nat);
      var es := old(DirEntries(sb, parent, chain));
      var free := FreeBits(old(sb.blockBitmap[..]));
      var need := NeedsBlock(BasicDir.EntryCount(old(sb.inodeTable[parent])), |chain|, m);
      && (rc == Pass <==> FindEntry(es, name).None? && free >= Bit(IsDir(mode)) + Bit(need))
      && (rc == Fail(EEXIST) <==> FindEntry(es, name).Some? && free >= Bit(IsDir(mode)))
      && (rc.Fail? ==> rc == Fail(ENOSPC) || rc == Fail(EEXIST))
    ensures rc == Pass ==>
      && DirEntries(sb, parent, chain') == old(DirEntries(sb, parent, chain)) + [DirEntry(name, ino)]
      && sb.inodeTable[parent].mtime == now && sb.inodeTable[parent].ctime == now
    ensures rc.Fail? ==>
      && chain' == chain && DirEntries(sb, parent, chain') == old(DirEntries(sb, parent, chain))
      && sb.inodeTable[parent] == old(sb.inodeTable[parent])
    ensures sb.inodeTable[ino] == CreatedRecord(old(sb.blockBitmap[..]), ino, mode, uid, gid, now)
    ensures forall j | 0 <= j < sb.inodeTable.Length && j != parent && j != ino as nat ::
      sb.inodeTable[j] == old(sb.inodeTable[j])
    ensures var own := OwnBlock(old(sb.blockBitmap[..]), mode);
      && Took(old(sb.blockBitmap[..]), sb.blockBitmap[..], own + chain'[|chain|..])
      && Kept(old(sb.dataBlocks[..]), sb.dataBlocks[..], own + chain')
  {
    ghost var bits, blocks := sb.blockBitmap[..], sb.dataBlocks[..];
    var made := CreateRecord(sb, ino as nat, ino, mode, uid, gid, now, parent, chain);
    if made.Fail? {
      assert chain[|chain|..] == [];
      return made, chain;
    }
    ghost var bits1, blocks1 := sb.blockBitmap[..], sb.dataBlocks[..];
    FreeBitsFirstClear(bits1);
    rc, chain' := LinkIntoParent(sb, parent, ino, name, now, chain);
    TookBoth(bits, bits1, sb.blockBitmap[..], OwnBlock(bits, mode), chain'[|chain|..]);
    KeptBoth(blocks, blocks1, sb.dataBlocks[..], OwnBlock(bits, mode), chain');
  }

  /** `osfs_create` of the linked variant, with the entry added by
      `AddDirEntry`: the mode, the free counters, the inode allocator, the
      VFS allocation and the table slot are checked in that order, then
      `Install` does the rest. The free-inode counter drops once. An error
      after the inode is taken does not give it back, and neither the record
      nor a directory's own block is undone. */
  method Create(sb: SbInfo, parent: nat, name: seq<byte>, mode: u16, uid: u32, gid: u32, vfsOk: bool, now: Time,
                ghost chain: seq<nat>) returns (r: Result<VfsInode>, ghost chain': seq<nat>)
    requires TightDir(sb, parent, chain) && sb.inodeBitmap[parent]
    requires |name| <= MAX_FILENAME_LEN && NoNul(name)
    modifies sb, sb.inodeBitmap, sb.blockBitmap, sb.dataBlocks, sb.inodeTable
    ensures TightDir(sb, parent, chain') && chain <= chain'
    ensures !SupportedMode(mode) ==> r == Err(EINVAL)
    ensures SupportedMode(mode) && (old(sb.nrFreeInodes) == 0 || old(sb.nrFreeBlocks) == 0) ==> r == Err(ENOSPC)
    ensures (!SupportedMode(mode) || old(sb.nrFreeInodes) == 0 || old(sb.nrFreeBlocks) == 0) ==>
      && sb.inodeBitmap[..] == old(sb.inodeBitmap[..]) && sb.blockBitmap[..] == old(sb.blockBitmap[..])
      && sb.inodeTable[..] == old(sb.inodeTable[..]) && sb.dataBlocks[..] == old(sb.dataBlocks[..])
      && sb.nrFreeInodes == old(sb.nrFreeInodes) && sb.nrFreeBlocks == old(sb.nrFreeBlocks)
    ensures (SupportedMode(mode) && old(sb.nrFreeInodes) != 0 && old(sb.nrFreeBlocks) != 0
             && FirstClear(old(sb.inodeBitmap[..]), 1).None?) ==> r == Err(ENOSPC)
    ensures var taken := SupportedMode(mode) && old(sb.nrFreeInodes) != 0 && old(sb.nrFreeBlocks) != 0
                         && FirstClear(old(sb.inodeBitmap[..]), 1).Some?;
      var es := old(DirEntries(sb, parent, chain));
      var free := FreeBits(old(sb.blockBitmap[..]));
      var need := NeedsBlock(BasicDir.EntryCount(old(sb.inodeTable[parent])), |chain|,
                             ChainMaxDirEntries(sb.blockSize as nat));
      && (r == Err(ENOMEM) <==> taken && !vfsOk)
      && (r.Ok? <==> taken && vfsOk && FindEntry(es, name).None? && free >= Bit(IsDir(mode)) + Bit(need))
      && (r == Err(EEXIST) <==> taken && vfsOk && FindEntry(es, name).Some? && free >= Bit(IsDir(mode)))
      && (r.Err? ==> r.error in {EINVAL, ENOSPC, ENOMEM, EEXIST})
    ensures SupportedMode(mode) && old(sb.nrFreeInodes) != 0 && old(sb.nrFreeBlocks) != 0
            && FirstClear(old(sb.inodeBitmap[..]), 1).Some? ==>
      var ino := FirstClear(old(sb.inodeBitmap[..]), 1).value;
      && sb.inodeBitmap[..] == old(sb.inodeBitmap[..])[ino := true]
      && sb.nrFreeInodes == Dec32(old(sb.nrFreeInodes))
      && (vfsOk ==> sb.inodeTable[ino] == CreatedRecord(old(sb.blockBitmap[..]), ino as u32, mode, uid, gid, now))
    ensures r.Ok? ==> SupportedMode(mode) && vfsOk && FirstClear(old(sb.inodeBitmap[..]), 1).Some?
                      && FindEntry(old(DirEntries(sb, parent, chain)), name).None?
    ensures r.Ok? ==>
      var ino := FirstClear(old(sb.inodeBitmap[..]), 1).value;
      && r.value == BasicDir.NewVfsInode(ino as u32, mode, uid, gid, now)
      && sb.inodeBitmap[..] == old(sb.inodeBitmap[..])[ino := true]
      && sb.nrFreeInodes == Dec32(old(sb.nrFreeInodes))
      && DirEntries(sb, parent, chain') == old(DirEntries(sb, parent, chain)) + [DirEntry(name, ino as u32)]
      && sb.inodeTable[parent].mtime == now && sb.inodeTable[parent].ctime == now
      && (!IsDir(mode) ==> sb.inodeTable[ino] == NewChainRecord(ino as u32, mode, uid, gid, now))
      && (IsDir(mode) ==>
            && FirstClear(old(sb.blockBitmap[..]), 0).Some?
            && var b := FirstClear(old(sb.blockBitmap[..]), 0).value;
               sb.inodeTable[ino] == NewChainRecord(ino as u32, mode, uid, gid, now).(blocks := 1, data := Chained(b as u32, b as u32)))
    ensures r.Err? ==>
      && chain' == chain && DirEntries(sb, parent, chain') == old(DirEntries(sb, parent, chain))
      && sb.inodeTable[parent] == old(sb.inodeTable[parent])
    ensures forall j | 0 <= j < sb.inodeTable.Length && j != parent && FirstClear(old(sb.inodeBitmap[..]), 1) != Some(j) ::
      sb.inodeTable[j] == old(sb.inodeTable[j])
    ensures var own := if SupportedMode(mode) && old(sb.nrFreeInodes) != 0 && old(sb.nrFreeBlocks) != 0
                          && FirstClear(old(sb.inodeBitmap[..]), 1).Some? && vfsOk
                       then OwnBlock(old(sb.blockBitmap[..]), mode) else [];
      && Took(old(sb.blockBitmap[..]), sb.blockBitmap[..], own + chain'[|chain|..])
      && Kept(old(sb.dataBlocks[..]), sb.dataBlocks[..], own + chain')
    ensures old(sb.CountsConsistent()) ==> sb.CountsConsistent()
  {
    if !SupportedMode(mode) {
      return Err(EINVAL), chain;
    }
    if sb.nrFreeInodes == 0 || sb.nrFreeBlocks == 0 {
      return Err(ENOSPC), chain;
    }
    ghost var es := DirEntries(sb, parent, chain);
    FreeBitsFirstClear(sb.blockBitmap[..]);
    var got := GetFreeInode(sb);
    if got.Err? || got.value >= sb.inodeCount {
      return Err(ENOSPC), chain;
    }
    var ino := got.value;
    if !vfsOk {
      return Err(ENOMEM), chain;
    }
    var inode := BasicDir.NewVfsInode(ino, mode, uid, gid, now);
    var slot := GetOsfsInode(sb, ino);
    if slot.None? {
      return Err(EIO), chain;
    }
    assert DirEntries(sb, parent, chain) == es;
    var rc;
    rc, chain' := Install(sb, ino, mode, uid, gid, now, parent, name, chain);
    if rc.Fail? {
      return Err(rc.error), chain';
    }
    return Ok(inode), chain';
  }
}
