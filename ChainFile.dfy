/** `osfs_read` and `osfs_write` of the linked variant (`bonus/file.c`):
    byte ranges of a file are found block by block with `osfs_find_block`, so
    a file's contents are the bytes of its chain (`Chain.ChainBytes`) and
    `i_size` says how many of them count. The user buffers are the `data`
    results and parameters; copying to and from them always succeeds. */
module ChainFile {
  import opened Types
  import opened Layout
  import opened Bitmap
  import opened Region
  import opened Chain

  /** `s` with `d` laid over it from `at` on. */
  function Overlay(s: seq<byte>, at: nat, d: seq<byte>): (r: seq<byte>)
    requires at + |d| <= |s|
    ensures |r| == |s|
    ensures forall i | 0 <= i < |s| :: r[i] == if at <= i < at + |d| then d[i - at] else s[i]
  {
    s[..at] + d + s[at + |d|..]
  }

  /** Laying `d` over the middle part of `x + y + z`. */
  lemma OverlayMiddle(x: seq<byte>, y: seq<byte>, z: seq<byte>, off: nat, d: seq<byte>)
    requires off + |d| <= |y|
    ensures Overlay(x + y + z, |x| + off, d) == x + Overlay(y, off, d) + z
  {
    var l, r := Overlay(x + y + z, |x| + off, d), x + Overlay(y, off, d) + z;
    forall i | 0 <= i < |l|
      ensures l[i] == r[i]
    {
      if i < |x| {
      } else if i < |x| + |y| {
        assert r[i] == Overlay(y, off, d)[i - |x|];
      } else {
      }
    }
  }

  /** Writing the next chunk right after the part already written. */
  lemma OverlayGrow(s: seq<byte>, pos: nat, data: seq<byte>, w: nat, c: nat)
    requires w + c <= |data| && pos + |data| <= |s|
    ensures Overlay(Overlay(s, pos, data[..w]), pos + w, data[w..w + c]) == Overlay(s, pos, data[..w + c])
  {
    var l, r := Overlay(Overlay(s, pos, data[..w]), pos + w, data[w..w + c]), Overlay(s, pos, data[..w + c]);
    forall i | 0 <= i < |s|
      ensures l[i] == r[i]
    {
      if pos <= i < pos + w {
        assert data[..w][i - pos] == data[..w + c][i - pos];
      } else if pos + w <= i < pos + w + c {
        assert data[w..w + c][i - (pos + w)] == data[..w + c][i - pos];
      }
    }
  }

  /** `copy_from_user(hdr->data + off, ..)`: `d` laid over the payload at
      `off`, the header untouched. */
  function PutPayload(blk: seq<byte>, off: nat, d: seq<byte>): (r: seq<byte>)
    requires |blk| >= HEADER_SIZE && off + |d| <= |blk| - HEADER_SIZE
    ensures |r| == |blk| && r[..HEADER_SIZE] == blk[..HEADER_SIZE]
    ensures Payload(r) == Overlay(Payload(blk), off, d)
  {
    var r := blk[..HEADER_SIZE] + Overlay(blk[HEADER_SIZE..], off, d);
    assert r[..HEADER_SIZE] == blk[..HEADER_SIZE];
    assert Payload(r) == Overlay(blk[HEADER_SIZE..], off, d);
    r
  }

  /** Replacing a chain block by one with the same header keeps the chain. */
  lemma SameHeaderKeepsChain(blocks: seq<seq<byte>>, head: u32, tail: u32, chain: seq<nat>, j: nat, blk: seq<byte>)
    requires IsChain(blocks, head, tail, chain) && j < |blocks| && |blocks[j]| >= HEADER_SIZE
    requires |blk| == |blocks[j]| && blk[..HEADER_SIZE] == blocks[j][..HEADER_SIZE]
    ensures IsChain(blocks[j := blk], head, tail, chain)
  {
    var blocks' := blocks[j := blk];
    forall i | 0 <= i < |chain|
      ensures |blocks'[chain[i]]| >= HEADER_SIZE && NextOf(blocks'[chain[i]]) == NextOf(blocks[chain[i]])
    {
    }
  }

  /** Writing `d` into block `k`'s payload at `off` lays `d` over the
      chain's bytes at `k*p + off`. */
  lemma ChainBytesWrite(blocks: seq<seq<byte>>, chain: seq<nat>, p: nat, k: nat, off: nat, d: seq<byte>)
    requires InPool(blocks, chain) && Uniform(blocks, p + HEADER_SIZE)
    requires forall i, j | 0 <= i < j < |chain| :: chain[i] != chain[j]
    requires k < |chain| && off + |d| <= p
    ensures k * p + off + |d| <= |ChainBytes(blocks, chain)|
    ensures var blocks' := blocks[chain[k] := PutPayload(blocks[chain[k]], off, d)];
      && InPool(blocks', chain)
      && ChainBytes(blocks', chain) == Overlay(ChainBytes(blocks, chain), k * p + off, d)
  {
    var blocks' := blocks[chain[k] := PutPayload(blocks[chain[k]], off, d)];
    assert InPool(blocks', chain);
    ChainBytesSplit(blocks, chain, k);
    ChainBytesSplit(blocks', chain, k);
    var pre, mid, post := ChainBytes(blocks, chain[..k]), Payload(blocks[chain[k]]), ChainBytes(blocks, chain[k + 1..]);
    ChainBytesLength(blocks, chain[..k], p);
    assert |blocks[chain[k]]| == p + HEADER_SIZE;
    assert |pre| == k * p && |mid| == p;
    ChainBytesFrame(blocks, blocks', chain[..k]);
    ChainBytesFrame(blocks, blocks', chain[k + 1..]);
    OverlayMiddle(pre, mid, post, off, d);
  }

  /** An offset whose block number is past the chain is past its bytes. */
  lemma PastTheChain(x: nat, n: nat, p: nat)
    requires p > 0 && x / p >= n
    ensures x >= n * p
  {
    assert x == (x / p) * p + x % p;
    MulLe(n, x / p, p);
  }

  /** An offset inside the chain's bytes has its block number in the chain. */
  lemma InsideTheChain(x: nat, n: nat, p: nat)
    requires p > 0 && x < n * p
    ensures x / p < n
  {
    if x / p >= n {
      PastTheChain(x, n, p);
    }
  }

  /** What `osfs_read` hands back for `len` bytes at `pos` of a file of
      `size` bytes whose chain holds `bytes`: the range clamped to the
      size, and cut short where the chain ends. */
  function ReadSpec(bytes: seq<byte>, size: nat, pos: nat, len: nat): (r: seq<byte>)
    ensures |r| <= len
    ensures pos >= size ==> r == []
    ensures size <= |bytes| && pos < size ==> r == bytes[pos..Min(pos + len, size)]
  {
    if pos >= size then [] else bytes[Min(pos, |bytes|)..Min(Min(pos + len, size), |bytes|)]
  }

  /** One step of the loop of `osfs_read`: the next chunk continues the
      bytes read so far. */
  lemma ReadStep(bytes: seq<byte>, pos: nat, cur: nat, data: seq<byte>, piece: seq<byte>)
    requires cur == pos + |data| && cur + |piece| <= |bytes|
    requires |data| > 0 ==> data == bytes[pos..cur]
    requires piece == bytes[cur..cur + |piece|]
    ensures data + piece == bytes[pos..cur + |piece|]
  {
    if |data| > 0 {
      assert bytes[pos..cur] + bytes[cur..cur + |piece|] == bytes[pos..cur + |piece|];
    }
  }

  /** The loop of `osfs_read` ends with the bytes from `pos` up to
      `pos + n` or the end of the chain, whichever is first. */
  lemma ReadLoopDone(bytes: seq<byte>, pos: nat, n: nat, cur: nat, data: seq<byte>)
    requires cur == pos + |data| && |data| <= n
    requires |data| > 0 ==> cur <= |bytes| && data == bytes[pos..cur]
    requires |data| == n || cur >= |bytes|
    ensures data == bytes[Min(pos, |bytes|)..Min(pos + n, |bytes|)]
  {
  }

  /** `osfs_read`: returns `ReadSpec` of the file's bytes and the advanced
      position. It changes nothing. */
  method Read(sb: SbInfo, ino: nat, pos: nat, len: nat, ghost chain: seq<nat>)
    returns (data: seq<byte>, newPos: nat)
    requires FileChain(sb, ino, chain)
    ensures data == ReadSpec(FileBytes(sb, chain), sb.inodeTable[ino].size as nat, pos, len)
    ensures newPos == pos + |data|
  {
    var rec := sb.inodeTable[ino];
    if pos >= rec.size as nat {
      return [], pos;
    }
    var n := len;
    if pos + len > rec.size as nat {
      n := rec.size as nat - pos;
    }
    data := ReadChunks(sb.dataBlocks[..], sb.blockSize, rec, pos, n, chain);
    newPos := pos + |data|;
  }

  /** The loop of `osfs_read`: copies up to `n` bytes from `pos` on, chunk by
      chunk, stopping early where `osfs_find_block` fails, that is where the
      chain ends. It reads only the block pool, given as its contents. */
  method ReadChunks(blocks: seq<seq<byte>>, bs: u32, rec: Inode, pos: nat, n: nat, ghost chain: seq<nat>)
    returns (data: seq<byte>)
    requires |blocks| < NO_NEXT_BLOCK && HEADER_SIZE < bs as int && Uniform(blocks, bs as nat)
    requires rec.data.Chained? && IsChain(blocks, rec.data.head, rec.data.tail, chain)
    ensures var bytes := ChainBytes(blocks, chain);
      data == bytes[Min(pos, |bytes|)..Min(pos + n, |bytes|)]
  {
    var p := bs as nat - HEADER_SIZE;
    ghost var bytes := ChainBytes(blocks, chain);
    ChainBytesLength(blocks, chain, p);
    NoHeadIffEmpty(blocks, rec.data.head, rec.data.tail, chain);
    data := [];
    var cur := pos;
    var toRead: nat := n;
    while toRead > 0
      invariant cur == pos + |data| && |data| + toRead == n
      invariant |data| > 0 ==> cur <= |bytes| && data == bytes[pos..cur]
      decreases toRead
    {
      var loc := FindBlock(blocks, bs, rec, cur, chain);
      if loc.Err? {
        if rec.data.head != NO_NEXT_BLOCK {
          PastTheChain(cur, |chain|, p);
        }
        assert cur >= |bytes|;
        break;
      }
      var off := loc.value.offset;
      var chunk := Min(toRead, p - off);
      DivModSplit(cur, p);
      ghost var k: nat := cur / p;
      ChainBytesAt(blocks, chain, p, k, off, chunk);
      ghost var piece := Payload(blocks[loc.value.block])[off..off + chunk];
      ReadStep(bytes, pos, cur, data, piece);
      data := data + Payload(blocks[loc.value.block])[off..off + chunk];
      cur := cur + chunk;
      toRead := toRead - chunk;
    }
    ReadLoopDone(bytes, pos, n, cur, data);
  }

  /** `osfs_find_block` for an offset the chain covers: it finds block
      `k` of the chain, and the offset is `k` payloads plus `off`. */
  method Locate(blocks: seq<seq<byte>>, bs: u32, p: nat, rec: Inode, offset: nat, ghost chain: seq<nat>)
    returns (b: u32, off: nat, ghost k: nat)
    requires |blocks| < NO_NEXT_BLOCK && HEADER_SIZE < bs as int && p == bs as nat - HEADER_SIZE
    requires rec.data.Chained? && IsChain(blocks, rec.data.head, rec.data.tail, chain)
    requires offset < |chain| * p
    ensures k < |chain| && b as nat == chain[k]
    ensures off < p && offset == k * p + off
  {
    InsideTheChain(offset, |chain|, p);
    NoHeadIffEmpty(blocks, rec.data.head, rec.data.tail, chain);
    var loc := FindBlock(blocks, bs, rec, offset, chain);
    if loc.Err? {
      assert false;
    }
    DivModSplit(offset, p);
    b, off, k := loc.value.block, loc.value.offset, offset / p;
  }

  /** What the loop of `osfs_write` keeps: the pool started as `blocks0`,
      whose chain held `bytes0`; the first `w` bytes of `data` are laid over
      the chain's bytes at `pos`, and no block outside the chain changed. */
  ghost predicate Written(blocks0: seq<seq<byte>>, blocks: seq<seq<byte>>, rec: Inode, chain: seq<nat>,
                          p: nat, bytes0: seq<byte>, pos: nat, data: seq<byte>, w: nat)
  {
    && rec.data.Chained?
    && |blocks| == |blocks0| < NO_NEXT_BLOCK
    && Uniform(blocks, p + HEADER_SIZE)
    && IsChain(blocks, rec.data.head, rec.data.tail, chain)
    && |bytes0| == |chain| * p && pos + |data| <= |bytes0| && w <= |data|
    && ChainBytes(blocks, chain) == Overlay(bytes0, pos, data[..w])
    && forall j | 0 <= j < |blocks| && j !in chain :: blocks[j] == blocks0[j]
  }

  /** One step of the loop of `osfs_write`: the next chunk, written into the
      block and offset that hold byte `pos + w`, extends the written part. */
  lemma WriteStep(blocks0: seq<seq<byte>>, blocks: seq<seq<byte>>, rec: Inode, chain: seq<nat>,
                  p: nat, bytes0: seq<byte>, pos: nat, data: seq<byte>, w: nat, k: nat, off: nat, c: nat)
    requires Written(blocks0, blocks, rec, chain, p, bytes0, pos, data, w)
    requires k < |chain| && off + c <= p && pos + w == k * p + off && w + c <= |data|
    ensures Written(blocks0, blocks[chain[k] := PutPayload(blocks[chain[k]], off, data[w..w + c])],
                    rec, chain, p, bytes0, pos, data, w + c)
  {
    var d := data[w..w + c];
    var blocks' := blocks[chain[k] := PutPayload(blocks[chain[k]], off, d)];
    ChainBytesWrite(blocks, chain, p, k, off, d);
    SameHeaderKeepsChain(blocks, rec.data.head, rec.data.tail, chain, chain[k], PutPayload(blocks[chain[k]], off, d));
    OverlayGrow(bytes0, pos, data, w, c);
    forall j | 0 <= j < |blocks'| && j !in chain
      ensures blocks'[j] == blocks0[j]
    {
      assert j != chain[k];
    }
  }

  /** The loop of `osfs_write`: copies `data` into the chain from `pos` on,
      chunk by chunk, in the pool `pool` of `bs`-byte blocks. The chain
      already covers the range, so the `osfs_find_block` failure that would
      end the loop early cannot occur. */
  method WriteChunks(pool: array<seq<byte>>, bs: u32, rec: Inode, pos: nat, data: seq<byte>, ghost chain: seq<nat>)
    requires pool.Length < NO_NEXT_BLOCK && HEADER_SIZE < bs as int && Uniform(pool[..], bs as nat)
    requires rec.data.Chained? && IsChain(pool[..], rec.data.head, rec.data.tail, chain)
    requires pos + |data| <= |chain| * (bs as nat - HEADER_SIZE)
    modifies pool
    ensures Uniform(pool[..], bs as nat) && IsChain(pool[..], rec.data.head, rec.data.tail, chain)
    ensures pos + |data| <= |old(ChainBytes(pool[..], chain))|
    ensures ChainBytes(pool[..], chain) == Overlay(old(ChainBytes(pool[..], chain)), pos, data)
    ensures forall j | 0 <= j < pool.Length && j !in chain :: pool[j] == old(pool[j])
  {
    var p := bs as nat - HEADER_SIZE;
    ghost var blocks0 := pool[..];
    ghost var bytes0 := ChainBytes(blocks0, chain);
    ChainBytesLength(blocks0, chain, p);
    assert Overlay(bytes0, pos, data[..0]) == bytes0;
    assert Written(blocks0, pool[..], rec, chain, p, bytes0, pos, data, 0);
    var w: nat := 0;
    while w < |data|
      invariant Written(blocks0, pool[..], rec, chain, p, bytes0, pos, data, w)
      decreases |data| - w
    {
      w := WriteOne(pool, bs, p, rec, pos, data, w, chain, blocks0, bytes0);
    }
    assert data[..w] == data;
    assert forall j | 0 <= j < pool.Length && j !in chain :: pool[..][j] == blocks0[j];
  }

  /** One pass of the loop of `osfs_write`: the chunk of `data` from `w` up
      to the end of the block that holds byte `pos + w` is copied there. */
  method WriteOne(pool: array<seq<byte>>, bs: u32, p: nat, rec: Inode, pos: nat, data: seq<byte>, w: nat,
                  ghost chain: seq<nat>, ghost blocks0: seq<seq<byte>>, ghost bytes0: seq<byte>)
    returns (w': nat)
    requires HEADER_SIZE < bs as int && p == bs as nat - HEADER_SIZE && w < |data|
    requires Written(blocks0, pool[..], rec, chain, p, bytes0, pos, data, w)
    modifies pool
    ensures w < w' <= |data|
    ensures Written(blocks0, pool[..], rec, chain, p, bytes0, pos, data, w')
  {
    var b, off, k := Locate(pool[..], bs, p, rec, pos + w, chain);
    var avail: nat := p - off;
    var chunk: nat := if |data| - w < avail then |data| - w else avail;
    WriteStep(blocks0, pool[..], rec, chain, p, bytes0, pos, data, w, k, off, chunk);
    pool[b] := PutPayload(pool[b], off, data[w..w + chunk]);
    w' := w + chunk;
  }

  /** `after` holds `data` at `pos` and, everywhere else, the bytes of
      `before`: what a write leaves. */
  ghost predicate Placed(before: seq<byte>, after: seq<byte>, pos: nat, data: seq<byte>) {
    && |before| <= |after| && pos + |data| <= |after|
    && after[pos..pos + |data|] == data
    && forall i | 0 <= i < |before| && !(pos <= i < pos + |data|) :: after[i] == before[i]
  }

  /** Laying `data` over `s` at `pos` places it there. */
  lemma OverlayPlaced(s: seq<byte>, pos: nat, data: seq<byte>)
    requires pos + |data| <= |s|
    ensures Placed(s, Overlay(s, pos, data), pos, data)
  {
    var o := Overlay(s, pos, data);
    forall i | 0 <= i < |data|
      ensures o[pos..pos + |data|][i] == data[i]
    {
      assert o[pos + i] == data[i];
    }
  }

  /** What a write keeps of a larger file it keeps of that file's prefix. */
  lemma PlacedPrefix(bytes: seq<byte>, mid: seq<byte>, after: seq<byte>, pos: nat, data: seq<byte>)
    requires bytes <= mid && Placed(mid, after, pos, data)
    ensures Placed(bytes, after, pos, data)
  {
    forall i | 0 <= i < |bytes| && !(pos <= i < pos + |data|)
      ensures after[i] == bytes[i]
    {
      assert after[i] == mid[i];
    }
  }

  /** A chain of at most `count` blocks of `bs` bytes has its payload offsets
      within 32 bits when the whole pool does. */
  lemma PayloadFits(n: nat, count: nat, bs: nat)
    requires n <= count && HEADER_SIZE < bs && (count + 1) * bs < U32_LIMIT
    ensures n * (bs - HEADER_SIZE) < U32_LIMIT
  {
    MulLe(n, count, bs - HEADER_SIZE);
    assert count * (bs - HEADER_SIZE) <= count * bs;
    assert (count + 1) * bs == count * bs + bs;
  }

  /** Reading back a range that lies within the file size returns the bytes
      there. */
  lemma ReadBack(bytes: seq<byte>, size: nat, pos: nat, data: seq<byte>)
    requires size <= |bytes| && pos + |data| <= size && bytes[pos..pos + |data|] == data
    ensures ReadSpec(bytes, size, pos, |data|) == data
  {
  }

  /** The bytes of `chain` in the pool of `sb`, or none for a chain that is
      not in the pool; a chain in a valid pool holds a payload per block. */
  ghost function FileBytes(sb: SbInfo, chain: seq<nat>): (r: seq<byte>)
    reads sb, sb.dataBlocks
    ensures sb.Valid() && InPool(sb.dataBlocks[..], chain) ==> |r| == |chain| * (sb.blockSize as nat - HEADER_SIZE)
  {
    if !InPool(sb.dataBlocks[..], chain) then []
    else if !sb.Valid() then ChainBytes(sb.dataBlocks[..], chain)
    else
      ChainBytesLength(sb.dataBlocks[..], chain, sb.blockSize as nat - HEADER_SIZE);
      ChainBytes(sb.dataBlocks[..], chain)
  }

  /** A file's bytes are the bytes of its chain. */
  lemma FileBytesOfChain(sb: SbInfo, ino: nat, chain: seq<nat>)
    requires FileChain(sb, ino, chain)
    ensures FileBytes(sb, chain) == ChainBytes(sb.dataBlocks[..], chain)
  {
  }

  /** A file's bytes are a payload per block of its chain. */
  lemma FileBytesLength(sb: SbInfo, ino: nat, chain: seq<nat>)
    requires FileChain(sb, ino, chain)
    ensures |FileBytes(sb, chain)| == |chain| * (sb.blockSize as nat - HEADER_SIZE)
  {
  }

  /** The copy and the `i_size` and time update of `osfs_write`, once the
      chain covers the range. `bytes0` and `rec0` are the file's bytes and
      record before the chain was extended: the first a prefix of the
      current bytes, the second the current record but for its chain. */
  method WriteRange(sb: SbInfo, ino: nat, pos: nat, data: seq<byte>, now: Time, ghost chain: seq<nat>,
                    ghost bytes0: seq<byte>, ghost rec0: Inode)
    requires FileChain(sb, ino, chain)
    requires pos + |data| <= |chain| * (sb.blockSize as nat - HEADER_SIZE)
    requires bytes0 <= FileBytes(sb, chain)
    requires sb.inodeTable[ino] == rec0.(data := sb.inodeTable[ino].data, blocks := sb.inodeTable[ino].blocks)
    modifies sb.dataBlocks, sb.inodeTable
    ensures FileChain(sb, ino, chain)
    ensures Placed(bytes0, FileBytes(sb, chain), pos, data)
    ensures sb.inodeTable[ino] == rec0.(data := sb.inodeTable[ino].data, blocks := sb.inodeTable[ino].blocks,
                                        size := sb.inodeTable[ino].size, mtime := now, ctime := now)
    ensures sb.inodeTable[ino].size as int == Max(rec0.size as int, pos + |data|)
    ensures rec0.size as nat <= |chain| * (sb.blockSize as nat - HEADER_SIZE) ==>
      && sb.inodeTable[ino].size as nat <= |chain| * (sb.blockSize as nat - HEADER_SIZE)
      && ReadSpec(FileBytes(sb, chain), sb.inodeTable[ino].size as nat, pos, |data|) == data
    ensures forall j | 0 <= j < sb.inodeTable.Length && j != ino :: sb.inodeTable[j] == old(sb.inodeTable[j])
    ensures sb.CountsConsistent() == old(sb.CountsConsistent())
    ensures Kept(old(sb.dataBlocks[..]), sb.dataBlocks[..], chain)
  {
    var p: nat := sb.blockSize as nat - HEADER_SIZE;
    var rec := sb.inodeTable[ino];
    CopyIn(sb, ino, pos, data, chain, bytes0);
    var size := rec.size;
    if pos + |data| > size as nat {
      ChainBound(sb.dataBlocks[..], rec.data.head, rec.data.tail, chain);
      PayloadFits(|chain|, sb.blockCount as nat, sb.blockSize as nat);
      size := (pos + |data|) as u32;
    }
    sb.inodeTable[ino] := rec.(size := size, mtime := now, ctime := now);
    if rec0.size as nat <= |chain| * p {
      FileBytesLength(sb, ino, chain);
      ReadBack(FileBytes(sb, chain), size as nat, pos, data);
    }
  }

  /** The loop of `osfs_write` on the file's chain: afterwards the file's
      bytes hold `data` at `pos` and are otherwise unchanged. */
  method CopyIn(sb: SbInfo, ino: nat, pos: nat, data: seq<byte>, ghost chain: seq<nat>, ghost bytes0: seq<byte>)
    requires FileChain(sb, ino, chain)
    requires pos + |data| <= |chain| * (sb.blockSize as nat - HEADER_SIZE)
    requires bytes0 <= FileBytes(sb, chain)
    modifies sb.dataBlocks
    ensures FileChain(sb, ino, chain)
    ensures Placed(bytes0, FileBytes(sb, chain), pos, data)
    ensures Kept(old(sb.dataBlocks[..]), sb.dataBlocks[..], chain)
  {
    var rec := sb.inodeTable[ino];
    assert Uniform(sb.dataBlocks[..], sb.blockSize as nat);
    ghost var mid := FileBytes(sb, chain);
    FileBytesLength(sb, ino, chain);
    WriteChunks(sb.dataBlocks, sb.blockSize, rec, pos, data, chain);
    assert sb.Valid();
    OverlayPlaced(mid, pos, data);
    PlacedPrefix(bytes0, mid, FileBytes(sb, chain), pos, data);
  }

  /** `osfs_write` of `data` at `pos` at time `now`: makes the chain cover
      the bytes up to `pos + |data|`, copies `data` there, grows `i_size` to
      the end of the write and stamps the modification and change times. If
      the allocator runs out first the write fails with `ENOSPC`, keeping
      the blocks already appended and changing nothing else. */
  method Write(sb: SbInfo, ino: nat, pos: nat, data: seq<byte>, now: Time, ghost chain: seq<nat>)
    returns (r: Result<nat>, newPos: nat, ghost chain': seq<nat>)
    requires FileChain(sb, ino, chain)
    modifies sb, sb.blockBitmap, sb.dataBlocks, sb.inodeTable
    ensures FileChain(sb, ino, chain') && chain <= chain'
    ensures r.Ok? <==> |chain'| >= RequiredBlocks(pos + |data| - 1, sb.blockSize as nat - HEADER_SIZE)
    ensures r.Ok? <==>
      |chain| + FreeBits(old(sb.blockBitmap[..])) >= RequiredBlocks(pos + |data| - 1, sb.blockSize as nat - HEADER_SIZE)
    ensures r.Err? ==> FirstClear(sb.blockBitmap[..], 0).None? && |chain'| == |chain| + FreeBits(old(sb.blockBitmap[..]))
    ensures Grew(old(sb.blockBitmap[..]), sb.blockBitmap[..], old(sb.dataBlocks[..]), sb.dataBlocks[..], chain, chain')
    ensures r.Err? ==> && r.error == ENOSPC && newPos == pos
                       && old(FileBytes(sb, chain)) <= FileBytes(sb, chain')
                       && sb.inodeTable[ino] == old(sb.inodeTable[ino]).(data := sb.inodeTable[ino].data,
                                                                        blocks := sb.inodeTable[ino].blocks)
    ensures r.Ok? ==> && r.value == |data| && newPos == pos + |data|
                      && Placed(old(FileBytes(sb, chain)), FileBytes(sb, chain'), pos, data)
                      && sb.inodeTable[ino] == old(sb.inodeTable[ino]).(data := sb.inodeTable[ino].data,
                                                                       blocks := sb.inodeTable[ino].blocks,
                                                                       size := sb.inodeTable[ino].size,
                                                                       mtime := now, ctime := now)
                      && sb.inodeTable[ino].size as int == Max(old(sb.inodeTable[ino].size) as int, pos + |data|)
    ensures old(sb.inodeTable[ino].size as nat <= |chain| * (sb.blockSize as nat - HEADER_SIZE)) ==>
      && sb.inodeTable[ino].size as nat <= |chain'| * (sb.blockSize as nat - HEADER_SIZE)
      && (r.Ok? ==> ReadSpec(FileBytes(sb, chain'), sb.inodeTable[ino].size as nat, pos, |data|) == data)
    ensures forall j | 0 <= j < sb.inodeTable.Length && j != ino :: sb.inodeTable[j] == old(sb.inodeTable[j])
    ensures sb.nrFreeInodes == old(sb.nrFreeInodes)
    ensures old(sb.CountsConsistent()) ==> sb.CountsConsistent()
  {
    var p: nat := sb.blockSize as nat - HEADER_SIZE;
    ghost var bytes := FileBytes(sb, chain);
    ghost var rec0 := sb.inodeTable[ino];
    ghost var required := RequiredBlocks(pos + |data| - 1, p);
    FileBytesOfChain(sb, ino, chain);
    var rc;
    rc, chain' := EnsureOffset(sb, ino, pos + |data| - 1, chain);
    FileBytesOfChain(sb, ino, chain');
    assert bytes <= FileBytes(sb, chain');
    assert rc == Pass <==> |chain'| >= required;
    MulLe(|chain|, |chain'|, p);
    if rc != Pass {
      return Err(rc.error), pos, chain';
    }
    ghost var blocks1 := sb.dataBlocks[..];
    WriteRange(sb, ino, pos, data, now, chain', bytes, rec0);
    GrewThenWrote(old(sb.blockBitmap[..]), sb.blockBitmap[..], old(sb.dataBlocks[..]), blocks1, sb.dataBlocks[..], chain, chain');
    return Ok(|data|), pos + |data|, chain';
  }
}
