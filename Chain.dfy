/** Linked allocation (`bonus/file.c` and `bonus/osfs.h`): an inode's data
    is a chain of blocks from `i_head`, each block's header naming the next
    one and `OSFS_NO_NEXT_BLOCK` ending it. The C walks carry no cycle
    guard, so every chain is described by a ghost sequence of its distinct
    blocks. This module holds that description, the byte view of a chain,
    and the chain operations of `file.c`: `osfs_find_block`,
    `osfs_append_block` and `osfs_ensure_offset`. */
module Chain {
  import opened Types
  import opened Layout
  import opened Bitmap
  import opened Region
  import opened Inodes

  /** Every listed block is in the pool and has room for a header. */
  ghost predicate InPool(blocks: seq<seq<byte>>, chain: seq<nat>) {
    forall i | 0 <= i < |chain| :: chain[i] < |blocks| && |blocks[chain[i]]| >= HEADER_SIZE
  }

  /** Every block of the pool is `bs` bytes. */
  ghost predicate Uniform(blocks: seq<seq<byte>>, bs: nat) {
    forall b | 0 <= b < |blocks| :: |blocks[b]| == bs
  }

  /** `chain` is the list of blocks reached from `head`: distinct pool
      blocks, each header naming the next, the last one's naming
      `OSFS_NO_NEXT_BLOCK`, `tail` the last; no blocks means `head` is
      `OSFS_NO_NEXT_BLOCK`. */
  ghost predicate IsChain(blocks: seq<seq<byte>>, head: u32, tail: u32, chain: seq<nat>) {
    && InPool(blocks, chain)
    && (forall i, j | 0 <= i < j < |chain| :: chain[i] != chain[j])
    && (|chain| == 0 ==> head == NO_NEXT_BLOCK)
    && (|chain| > 0 ==> head as nat == chain[0] && tail as nat == chain[|chain| - 1])
    && (|chain| > 0 ==> NextOf(blocks[chain[|chain| - 1]]) == NO_NEXT_BLOCK)
    && (forall i {:trigger NextOf(blocks[chain[i]])} | 0 <= i < |chain| - 1 :: NextOf(blocks[chain[i]]) as nat == chain[i + 1])
  }

  /** Every block of the chain is marked used. */
  ghost predicate Owned(bits: seq<bool>, chain: seq<nat>) {
    forall i | 0 <= i < |chain| :: chain[i] < |bits| && bits[chain[i]]
  }

  /** Element `j` of `s`. The frame predicates below quantify over it rather
      than over `s[j]`, so that their facts are drawn on only where a proof
      names `At`, not at every read of a bitmap or of the pool. */
  ghost function At<T>(s: seq<T>, j: nat): T
    requires j < |s|
  {
    s[j]
  }

  /** Going from `bits` to `bits'`, the allocator took exactly the blocks of
      `taken`: each was free, they are now the only newly set bits, and the
      count of set bits grew by one for each of them. */
  ghost predicate Took(bits: seq<bool>, bits': seq<bool>, taken: seq<nat>) {
    && |bits'| == |bits|
    && (forall i | 0 <= i < |taken| :: taken[i] < |bits| && !bits[taken[i]])
    && (forall j | 0 <= j < |bits| :: At(bits', j) == (At(bits, j) || j in taken))
    && Popcount(bits') == Popcount(bits) + |taken|
  }

  /** No block outside `touched` was written. */
  ghost predicate Kept(blocks: seq<seq<byte>>, blocks': seq<seq<byte>>, touched: seq<nat>) {
    && |blocks'| == |blocks|
    && forall j | 0 <= j < |blocks| && j !in touched :: At(blocks', j) == At(blocks, j)
  }

  /** A chain grown from `chain` to `chain'` by allocation: the blocks
      appended were free and are the only ones newly marked used, and no
      block outside the grown chain was written. */
  ghost predicate Grew(bits: seq<bool>, bits': seq<bool>, blocks: seq<seq<byte>>, blocks': seq<seq<byte>>,
                       chain: seq<nat>, chain': seq<nat>) {
    && chain <= chain'
    && Took(bits, bits', chain'[|chain|..])
    && Kept(blocks, blocks', chain')
  }

  /** Taking nothing and writing nothing is growing by nothing. */
  lemma GrewNothing(bits: seq<bool>, blocks: seq<seq<byte>>, chain: seq<nat>)
    ensures Grew(bits, bits, blocks, blocks, chain, chain)
  {
    assert chain[|chain|..] == [];
  }

  /** Two allocations in a row take the blocks of both. */
  lemma TookBoth(b0: seq<bool>, b1: seq<bool>, b2: seq<bool>, t0: seq<nat>, t1: seq<nat>)
    requires Took(b0, b1, t0) && Took(b1, b2, t1)
    ensures Took(b0, b2, t0 + t1)
  {
    var t := t0 + t1;
    forall i | 0 <= i < |t|
      ensures t[i] < |b0| && !b0[t[i]]
    {
      if i >= |t0| {
        assert t[i] == t1[i - |t0|];
        assert At(b1, t[i]) == (At(b0, t[i]) || t[i] in t0);
      }
    }
    forall j | 0 <= j < |b0|
      ensures At(b2, j) == (At(b0, j) || j in t)
    {
      assert At(b1, j) == (At(b0, j) || j in t0);
      assert j in t <==> j in t0 || j in t1;
    }
  }

  /** Setting one clear bit takes that block. */
  lemma TookOne(bits: seq<bool>, b: nat)
    requires b < |bits| && !bits[b]
    ensures Took(bits, bits[b := true], [b])
  {
    PopcountUpdate(bits, b, true);
  }

  /** Two writes in a row touch the blocks of both. */
  lemma KeptBoth(k0: seq<seq<byte>>, k1: seq<seq<byte>>, k2: seq<seq<byte>>, t0: seq<nat>, t1: seq<nat>)
    requires Kept(k0, k1, t0) && Kept(k1, k2, t1)
    ensures Kept(k0, k2, t0 + t1)
  {
    forall j | 0 <= j < |k0| && j !in t0 + t1
      ensures At(k2, j) == At(k0, j)
    {
      assert j !in t0 && j !in t1;
      assert At(k1, j) == At(k0, j);
    }
  }

  /** Two growths in a row are one growth. */
  lemma GrewTwice(bits0: seq<bool>, bits1: seq<bool>, bits2: seq<bool>,
                  blocks0: seq<seq<byte>>, blocks1: seq<seq<byte>>, blocks2: seq<seq<byte>>,
                  c0: seq<nat>, c1: seq<nat>, c2: seq<nat>)
    requires Grew(bits0, bits1, blocks0, blocks1, c0, c1) && Grew(bits1, bits2, blocks1, blocks2, c1, c2)
    ensures Grew(bits0, bits2, blocks0, blocks2, c0, c2)
  {
    assert c2[|c0|..] == c1[|c0|..] + c2[|c1|..];
    TookBoth(bits0, bits1, bits2, c1[|c0|..], c2[|c1|..]);
    forall j | 0 <= j < |blocks0| && j !in c2
      ensures At(blocks2, j) == At(blocks0, j)
    {
      assert j !in c1;
      assert At(blocks1, j) == At(blocks0, j);
    }
  }

  /** Writes inside the grown chain keep it a growth. */
  lemma GrewThenWrote(bits: seq<bool>, bits': seq<bool>, blocks0: seq<seq<byte>>, blocks1: seq<seq<byte>>,
                      blocks2: seq<seq<byte>>, chain: seq<nat>, chain': seq<nat>)
    requires Grew(bits, bits', blocks0, blocks1, chain, chain') && Kept(blocks1, blocks2, chain')
    ensures Grew(bits, bits', blocks0, blocks2, chain, chain')
  {
  }

  /** Distinct indexes below `n` number at most `n`. */
  lemma {:induction false} DistinctBound(s: seq<nat>, n: nat)
    requires forall i | 0 <= i < |s| :: s[i] < n
    requires forall i, j | 0 <= i < j < |s| :: s[i] != s[j]
    ensures |s| <= n
    decreases |s|
  {
    if |s| > 0 {
      var x := s[|s| - 1];
      // Rename the index `n - 1` to `x`, which the rest does not use.
      var t := seq(|s| - 1, i requires 0 <= i < |s| - 1 => if s[i] == n - 1 then x else s[i]);
      forall i | 0 <= i < |t|
        ensures t[i] < n - 1
      {
        assert s[i] != x;
      }
      forall i, j | 0 <= i < j < |t|
        ensures t[i] != t[j]
      {
        assert s[i] != s[j] && s[i] != x && s[j] != x;
      }
      DistinctBound(t, n - 1);
    }
  }

  /** A chain never holds more blocks than the pool. */
  lemma ChainBound(blocks: seq<seq<byte>>, head: u32, tail: u32, chain: seq<nat>)
    requires IsChain(blocks, head, tail, chain)
    ensures |chain| <= |blocks|
  {
    DistinctBound(chain, |blocks|);
  }

  /** Since block indexes stay below `OSFS_NO_NEXT_BLOCK`, `i_head ==
      OSFS_NO_NEXT_BLOCK` says exactly that the inode owns no block. */
  lemma NoHeadIffEmpty(blocks: seq<seq<byte>>, head: u32, tail: u32, chain: seq<nat>)
    requires IsChain(blocks, head, tail, chain) && |blocks| < NO_NEXT_BLOCK
    ensures head == NO_NEXT_BLOCK <==> |chain| == 0
  {
  }

  /** The payload bytes of the chain, block after block: the file's bytes. */
  ghost function ChainBytes(blocks: seq<seq<byte>>, chain: seq<nat>): seq<byte>
    requires InPool(blocks, chain)
  {
    if |chain| == 0 then [] else Payload(blocks[chain[0]]) + ChainBytes(blocks, chain[1..])
  }

  /** A chain of `n` blocks holds `n` payloads. */
  lemma {:induction false} ChainBytesLength(blocks: seq<seq<byte>>, chain: seq<nat>, p: nat)
    requires InPool(blocks, chain) && Uniform(blocks, p + HEADER_SIZE)
    ensures |ChainBytes(blocks, chain)| == |chain| * p
  {
    if |chain| > 0 {
      ChainBytesLength(blocks, chain[1..], p);
      assert |chain| * p == (|chain| - 1) * p + p;
    }
  }

  /** A slice of the middle part of `x + y + z`. */
  lemma SliceOfThree<T>(x: seq<T>, y: seq<T>, z: seq<T>, off: nat, n: nat)
    requires off + n <= |y|
    ensures (x + y + z)[|x| + off..|x| + off + n] == y[off..off + n]
  {
    var w := x + y + z;
    var got, want := w[|x| + off..|x| + off + n], y[off..off + n];
    forall i | 0 <= i < n
      ensures got[i] == want[i]
    {
      assert w[|x| + off + i] == y[off + i];
    }
  }

  /** The chain's bytes are those before block `k`, block `k`'s payload,
      then those after it. */
  lemma {:induction false} ChainBytesSplit(blocks: seq<seq<byte>>, chain: seq<nat>, k: nat)
    requires InPool(blocks, chain) && k < |chain|
    ensures InPool(blocks, chain[..k]) && InPool(blocks, chain[k + 1..])
    ensures ChainBytes(blocks, chain)
         == ChainBytes(blocks, chain[..k]) + Payload(blocks[chain[k]]) + ChainBytes(blocks, chain[k + 1..])
  {
    assert forall i | 0 <= i < k :: chain[..k][i] == chain[i];
    if k > 0 {
      var tail := chain[1..];
      ChainBytesSplit(blocks, tail, k - 1);
      assert tail[..k - 1] == chain[..k][1..];
      assert tail[k - 1 + 1..] == chain[k + 1..];
    }
  }

  /** Bytes `off..off+n` of block `k`'s payload are bytes
      `k*p+off..k*p+off+n` of the chain, `p` being the payload size. */
  lemma ChainBytesAt(blocks: seq<seq<byte>>, chain: seq<nat>, p: nat, k: nat, off: nat, n: nat)
    requires InPool(blocks, chain) && Uniform(blocks, p + HEADER_SIZE)
    requires k < |chain| && off + n <= p
    ensures k * p + off + n <= |ChainBytes(blocks, chain)|
    ensures ChainBytes(blocks, chain)[k * p + off..k * p + off + n] == Payload(blocks[chain[k]])[off..off + n]
  {
    ChainBytesSplit(blocks, chain, k);
    var pre, mid, post := ChainBytes(blocks, chain[..k]), Payload(blocks[chain[k]]), ChainBytes(blocks, chain[k + 1..]);
    ChainBytesLength(blocks, chain[..k], p);
    assert |blocks[chain[k]]| == p + HEADER_SIZE;
    assert |mid| == p;
    var at := |pre|;
    assert at == k * p;
    assert |ChainBytes(blocks, chain)| == at + p + |post|;
    SliceOfThree(pre, mid, post, off, n);
  }

  /** Appending a block appends its payload. */
  lemma {:induction false} ChainBytesAppend(blocks: seq<seq<byte>>, chain: seq<nat>, b: nat)
    requires InPool(blocks, chain + [b]) && b < |blocks| && |blocks[b]| >= HEADER_SIZE
    ensures InPool(blocks, chain)
    ensures ChainBytes(blocks, chain + [b]) == ChainBytes(blocks, chain) + Payload(blocks[b])
  {
    assert forall i | 0 <= i < |chain| :: (chain + [b])[i] == chain[i];
    if |chain| > 0 {
      assert (chain + [b])[1..] == chain[1..] + [b];
      ChainBytesAppend(blocks, chain[1..], b);
    }
  }

  /** The chain's bytes depend only on its blocks' payloads. */
  lemma {:induction false} ChainBytesFrame(blocks: seq<seq<byte>>, blocks': seq<seq<byte>>, chain: seq<nat>)
    requires InPool(blocks, chain) && InPool(blocks', chain)
    requires forall i | 0 <= i < |chain| :: Payload(blocks'[chain[i]]) == Payload(blocks[chain[i]])
    ensures ChainBytes(blocks', chain) == ChainBytes(blocks, chain)
  {
    if |chain| > 0 {
      ChainBytesFrame(blocks, blocks', chain[1..]);
    }
  }

  /** Changing blocks outside the chain leaves it a chain with the same bytes. */
  lemma ChainFrame(blocks: seq<seq<byte>>, blocks': seq<seq<byte>>, head: u32, tail: u32, chain: seq<nat>)
    requires IsChain(blocks, head, tail, chain) && |blocks'| == |blocks|
    requires forall i | 0 <= i < |chain| :: blocks'[chain[i]] == blocks[chain[i]]
    ensures IsChain(blocks', head, tail, chain)
    ensures ChainBytes(blocks', chain) == ChainBytes(blocks, chain)
  {
    ChainBytesFrame(blocks, blocks', chain);
  }

  /** The pool after `osfs_append_block` links block `b` behind `chain`: the
      allocator's header on `b` and, for a non-empty chain, the old tail's
      header naming `b`. */
  ghost function Linked(blocks: seq<seq<byte>>, chain: seq<nat>, b: nat): (r: seq<seq<byte>>)
    requires InPool(blocks, chain) && b < |blocks| < NO_NEXT_BLOCK && |blocks[b]| >= HEADER_SIZE
    ensures |r| == |blocks|
    ensures forall j | 0 <= j < |r| :: |r[j]| == |blocks[j]|
  {
    var p := blocks[b := WithNext(blocks[b], NO_NEXT_BLOCK)];
    if |chain| == 0 then p
    else
      var t := chain[|chain| - 1];
      p[t := WithNext(p[t], b as u32)]
  }

  /** What `Linked` leaves in block `j`, for a `b` outside the chain. */
  lemma LinkedAt(blocks: seq<seq<byte>>, chain: seq<nat>, b: nat, j: nat)
    requires InPool(blocks, chain) && b < |blocks| < NO_NEXT_BLOCK && |blocks[b]| >= HEADER_SIZE
    requires j < |blocks| && forall i | 0 <= i < |chain| :: chain[i] != b
    ensures j == b ==> Linked(blocks, chain, b)[j] == WithNext(blocks[b], NO_NEXT_BLOCK)
    ensures |chain| > 0 && j == chain[|chain| - 1] ==>
      Linked(blocks, chain, b)[j] == WithNext(blocks[j], b as u32)
    ensures j != b && (|chain| == 0 || j != chain[|chain| - 1]) ==>
      Linked(blocks, chain, b)[j] == blocks[j]
  {
  }

  /** Linking a block the chain does not hold gives a chain one longer. */
  lemma LinkedIsChain(blocks: seq<seq<byte>>, head: u32, tail: u32, chain: seq<nat>, b: nat)
    requires IsChain(blocks, head, tail, chain) && b < |blocks| < NO_NEXT_BLOCK
    requires |blocks[b]| >= HEADER_SIZE && forall i | 0 <= i < |chain| :: chain[i] != b
    ensures IsChain(Linked(blocks, chain, b), if |chain| == 0 then b as u32 else head, b as u32, chain + [b])
  {
    var blocks' := Linked(blocks, chain, b);
    var c' := chain + [b];
    assert forall i | 0 <= i < |chain| :: c'[i] == chain[i];
    LinkedAt(blocks, chain, b, b);
    forall i | 0 <= i < |chain|
      ensures NextOf(blocks'[c'[i]]) as nat == c'[i + 1]
    {
      LinkedAt(blocks, chain, b, chain[i]);
    }
  }

  /** Linking a block puts its payload after the chain's old bytes. */
  lemma LinkedBytes(blocks: seq<seq<byte>>, chain: seq<nat>, b: nat)
    requires InPool(blocks, chain) && b < |blocks| < NO_NEXT_BLOCK
    requires |blocks[b]| >= HEADER_SIZE && forall i | 0 <= i < |chain| :: chain[i] != b
    ensures InPool(Linked(blocks, chain, b), chain + [b])
    ensures ChainBytes(Linked(blocks, chain, b), chain + [b]) == ChainBytes(blocks, chain) + Payload(blocks[b])
  {
    var blocks' := Linked(blocks, chain, b);
    var c' := chain + [b];
    assert forall i | 0 <= i < |chain| :: c'[i] == chain[i];
    LinkedAt(blocks, chain, b, b);
    forall i | 0 <= i < |chain|
      ensures Payload(blocks'[chain[i]]) == Payload(blocks[chain[i]])
    {
      LinkedAt(blocks, chain, b, chain[i]);
    }
    ChainBytesAppend(blocks', chain, b);
    ChainBytesFrame(blocks, blocks', chain);
  }

  /** `(block_no, block_offset)` as `osfs_find_block` reports them. */
  datatype Loc = Loc(block: u32, offset: nat)

  /** A multiple of `p` strictly between `-p` and `p` is 0. */
  lemma {:induction false} SmallMultiple(a: int, p: nat)
    requires p > 0 && -(p as int) < a * p < p
    ensures a == 0
  {
    if a >= 1 {
      AtLeastOnce(a, p);
    } else if a <= -1 {
      assert (-a) * p == -(a * p);
      AtLeastOnce(-a, p);
    }
  }

  lemma {:induction false} AtLeastOnce(a: nat, p: nat)
    requires a >= 1
    ensures a * p >= p
  {
    if a > 1 {
      AtLeastOnce(a - 1, p);
      assert a * p == (a - 1) * p + p;
    }
  }

  /** Dividing `k*p + r` by `p`, for `r < p`, gives `k` remainder `r`. */
  lemma DivModOf(x: nat, k: nat, p: nat, r: nat)
    requires p > 0 && x == k * p + r && r < p
    ensures x / p == k && x % p == r
  {
    var q, m := x / p, x % p;
    assert x == q * p + m;
    assert (q - k) * p == q * p - k * p;
    SmallMultiple(q - k, p);
  }

  lemma DivModSplit(x: nat, p: nat)
    requires p > 0
    ensures 0 <= x / p && x == (x / p) * p + x % p
  {
  }

  lemma MulStep(k: nat, p: nat)
    ensures (k + 1) * p == k * p + p
  {
  }

  /** Whatever remains after `k` whole payloads, the quotient is at least `k`. */
  lemma DivAtLeast(x: nat, k: nat, p: nat, rem: nat)
    requires p > 0 && x == k * p + rem
    ensures x / p >= k
  {
    var q := rem / p;
    assert rem == q * p + rem % p;
    assert x == (k + q) * p + rem % p;
    DivModOf(x, k + q, p, rem % p);
  }

  /** `osfs_find_block`: walks the chain, taking one payload's worth off the
      offset per block. It reads only the block pool, given here as its
      contents and block size. */
  method FindBlock(blocks: seq<seq<byte>>, bs: u32, rec: Inode, offset: nat, ghost chain: seq<nat>)
    returns (r: Result<Loc>)
    requires |blocks| < NO_NEXT_BLOCK && HEADER_SIZE < bs as int && rec.data.Chained?
    requires IsChain(blocks, rec.data.head, rec.data.tail, chain)
    ensures var p := bs as nat - HEADER_SIZE;
      && (rec.data.head == NO_NEXT_BLOCK ==> r == Err(ENODATA))
      && (rec.data.head != NO_NEXT_BLOCK && offset / p < |chain| ==>
            r == Ok(Loc(chain[offset / p] as u32, offset % p)))
      && (rec.data.head != NO_NEXT_BLOCK && offset / p >= |chain| ==> r == Err(EFAULT))
    ensures r.Ok? ==> r.value.block as nat < |blocks| && r.value.offset < bs as nat - HEADER_SIZE
  {
    NoHeadIffEmpty(blocks, rec.data.head, rec.data.tail, chain);
    if rec.data.head == NO_NEXT_BLOCK {
      return Err(ENODATA);
    }
    var p := bs as nat - HEADER_SIZE;
    var remaining: nat := offset;
    var curr := rec.data.head;
    ghost var k, base := 0, 0;
    while curr != NO_NEXT_BLOCK
      invariant k <= |chain| && offset == base + remaining && base == k * p
      invariant k < |chain| ==> curr as nat == chain[k]
      invariant k == |chain| ==> curr == NO_NEXT_BLOCK
      decreases |chain| - k
    {
      if remaining < p {
        DivModOf(offset, k, p, remaining);
        return Ok(Loc(curr, remaining));
      }
      MulStep(k, p);
      remaining := remaining - p;
      curr := NextOf(blocks[curr]);
      k, base := k + 1, base + p;
    }
    DivAtLeast(offset, k, p, remaining);
    return Err(EFAULT);
  }

  /** Inode record `ino` describes a linked file whose `i_blocks` counts its
      chain, and the chain's blocks are marked used. */
  ghost predicate FileChain(sb: SbInfo, ino: nat, chain: seq<nat>)
    reads sb, sb.inodeTable, sb.dataBlocks, sb.blockBitmap
  {
    && sb.Valid()
    && ino < sb.inodeTable.Length
    && sb.inodeTable[ino].data.Chained?
    && IsChain(sb.dataBlocks[..], sb.inodeTable[ino].data.head, sb.inodeTable[ino].data.tail, chain)
    && Owned(sb.blockBitmap[..], chain)
    && sb.inodeTable[ino].blocks as nat == |chain|
  }

  /** `osfs_append_block`: allocates a block and links it as the new tail
      (or as head and tail of an empty chain) and counts it in `i_blocks`.
      An allocator failure changes nothing. */
  method AppendBlock(sb: SbInfo, ino: nat, ghost chain: seq<nat>) returns (r: Result<u32>, ghost chain': seq<nat>)
    requires sb.Valid() && ino < sb.inodeTable.Length && sb.inodeTable[ino].data.Chained?
    requires IsChain(sb.dataBlocks[..], sb.inodeTable[ino].data.head, sb.inodeTable[ino].data.tail, chain)
    requires Owned(sb.blockBitmap[..], chain)
    modifies sb, sb.blockBitmap, sb.dataBlocks, sb.inodeTable
    ensures sb.Valid() && sb.nrFreeInodes == old(sb.nrFreeInodes)
    ensures old(sb.CountsConsistent()) ==> sb.CountsConsistent()
    ensures sb.inodeTable[ino].data.Chained?
    ensures old(sb.inodeTable[ino].blocks as nat) == |chain| ==> sb.inodeTable[ino].blocks as nat == |chain'|
    ensures sb.inodeTable[ino] == old(sb.inodeTable[ino]).(data := sb.inodeTable[ino].data,
                                                          blocks := sb.inodeTable[ino].blocks)
    ensures forall j | 0 <= j < sb.inodeTable.Length && j != ino :: sb.inodeTable[j] == old(sb.inodeTable[j])
    ensures IsChain(sb.dataBlocks[..], sb.inodeTable[ino].data.head, sb.inodeTable[ino].data.tail, chain')
    ensures Owned(sb.blockBitmap[..], chain')
    ensures match FirstClear(old(sb.blockBitmap[..]), 0)
      case None =>
        && r == Err(ENOSPC) && chain' == chain
        && sb.blockBitmap[..] == old(sb.blockBitmap[..]) && sb.nrFreeBlocks == old(sb.nrFreeBlocks)
        && sb.dataBlocks[..] == old(sb.dataBlocks[..]) && sb.inodeTable[..] == old(sb.inodeTable[..])
      case Some(b) =>
        var rec := old(sb.inodeTable[ino]);
        && r == Ok(b as u32) && chain' == chain + [b]
        && sb.blockBitmap[..] == old(sb.blockBitmap[..])[b := true]
        && sb.nrFreeBlocks == Dec32(old(sb.nrFreeBlocks))
        && sb.dataBlocks[..] == Linked(old(sb.dataBlocks[..]), chain, b)
        && sb.inodeTable[..] == old(sb.inodeTable[..])[ino := rec.(
             data := Chained(if |chain| == 0 then b as u32 else rec.data.head, b as u32),
             blocks := Inc32(rec.blocks))]
        && ChainBytes(sb.dataBlocks[..], chain') == old(ChainBytes(sb.dataBlocks[..], chain)) + Payload(old(sb.dataBlocks[b]))
    ensures Grew(old(sb.blockBitmap[..]), sb.blockBitmap[..], old(sb.dataBlocks[..]), sb.dataBlocks[..], chain, chain')
  {
    ghost var blocks := sb.dataBlocks[..];
    ghost var bits := sb.blockBitmap[..];
    var got := AllocChainBlock(sb);
    if got.Err? {
      GrewNothing(bits, blocks, chain);
      return got, chain;
    }
    var b := got.value;
    assert forall i | 0 <= i < |chain| :: chain[i] != b as nat;
    OwnedGrows(sb.blockBitmap[..], bits, chain, b as nat);
    LinkBlock(sb, ino, b, chain, blocks);
    chain' := chain + [b as nat];
    ChainBound(sb.dataBlocks[..], sb.inodeTable[ino].data.head, sb.inodeTable[ino].data.tail, chain');
    GrewByLink(bits, blocks, chain, b as nat);
    r := got;
  }

  /** Taking the free block `b` and linking it behind the chain grows the
      chain by `b`. */
  lemma GrewByLink(bits: seq<bool>, blocks: seq<seq<byte>>, chain: seq<nat>, b: nat)
    requires InPool(blocks, chain) && b < |bits| && b < |blocks| < NO_NEXT_BLOCK && |blocks[b]| >= HEADER_SIZE
    requires !bits[b] && forall i | 0 <= i < |chain| :: chain[i] != b
    ensures Grew(bits, bits[b := true], blocks, Linked(blocks, chain, b), chain, chain + [b])
  {
    var c' := chain + [b];
    assert c'[|chain|..] == [b];
    PopcountUpdate(bits, b, true);
    forall j | 0 <= j < |blocks| && j !in c'
      ensures Linked(blocks, chain, b)[j] == blocks[j]
    {
      LinkedAt(blocks, chain, b, j);
      assert |chain| > 0 ==> c'[|chain| - 1] == chain[|chain| - 1];
    }
  }

  /** Marking block `b` used keeps the chain owned and owns `b`. */
  lemma OwnedGrows(bits': seq<bool>, bits: seq<bool>, chain: seq<nat>, b: nat)
    requires Owned(bits, chain) && b < |bits| && bits' == bits[b := true]
    ensures Owned(bits', chain + [b])
  {
  }

  /** The writes `osfs_append_block` makes once block `b` is allocated (its
      header already written over the pool `blocks`): the old tail's header,
      when there is one, and the record's `i_head`/`i_tail`/`i_blocks`. */
  method LinkBlock(sb: SbInfo, ino: nat, b: u32, ghost chain: seq<nat>, ghost blocks: seq<seq<byte>>)
    requires sb.Valid() && ino < sb.inodeTable.Length && sb.inodeTable[ino].data.Chained?
    requires IsChain(blocks, sb.inodeTable[ino].data.head, sb.inodeTable[ino].data.tail, chain)
    requires b < sb.blockCount && |blocks| == sb.dataBlocks.Length && |blocks[b]| >= HEADER_SIZE
    requires forall i | 0 <= i < |chain| :: chain[i] != b as nat
    requires sb.dataBlocks[..] == blocks[b := WithNext(blocks[b], NO_NEXT_BLOCK)]
    modifies sb.dataBlocks, sb.inodeTable
    ensures sb.Valid() && sb.CountsConsistent() == old(sb.CountsConsistent())
    ensures sb.inodeTable[ino] == old(sb.inodeTable[ino]).(
      data := Chained(if |chain| == 0 then b else old(sb.inodeTable[ino]).data.head, b),
      blocks := Inc32(old(sb.inodeTable[ino]).blocks))
    ensures forall j | 0 <= j < sb.inodeTable.Length && j != ino :: sb.inodeTable[j] == old(sb.inodeTable[j])
    ensures var rec := old(sb.inodeTable[ino]);
      sb.inodeTable[..] == old(sb.inodeTable[..])[ino := rec.(
        data := Chained(if |chain| == 0 then b else rec.data.head, b),
        blocks := Inc32(rec.blocks))]
    ensures sb.dataBlocks[..] == Linked(blocks, chain, b as nat)
    ensures IsChain(sb.dataBlocks[..], sb.inodeTable[ino].data.head, sb.inodeTable[ino].data.tail, chain + [b as nat])
    ensures ChainBytes(sb.dataBlocks[..], chain + [b as nat]) == ChainBytes(blocks, chain) + Payload(blocks[b])
  {
    var rec := sb.inodeTable[ino];
    LinkedIsChain(blocks, rec.data.head, rec.data.tail, chain, b as nat);
    LinkedBytes(blocks, chain, b as nat);
    NoHeadIffEmpty(blocks, rec.data.head, rec.data.tail, chain);
    if rec.data.head == NO_NEXT_BLOCK {
      sb.inodeTable[ino] := rec.(data := Chained(b, b), blocks := Inc32(rec.blocks));
    } else {
      sb.dataBlocks[rec.data.tail] := WithNext(sb.dataBlocks[rec.data.tail], b);
      sb.inodeTable[ino] := rec.(data := Chained(rec.data.head, b), blocks := Inc32(rec.blocks));
    }
    assert sb.dataBlocks[..] == Linked(blocks, chain, b as nat);
  }

  /** `required_blocks` of `osfs_ensure_offset`: the blocks a file needs for
      `offset` to fall inside it, `p` being the payload size. */
  function RequiredBlocks(offset: int, p: nat): (n: int)
    requires p > 0 && offset >= -1
    ensures offset >= 0 ==> n == offset / p + 1
    ensures offset == -1 && p > 1 ==> n == 1
  {
    CDiv(offset, p) + 1
  }

  lemma MulLe(a: nat, b: nat, p: nat)
    requires a <= b
    ensures a * p <= b * p
  {
    assert b * p == a * p + (b - a) * p;
  }

  /** A file of `RequiredBlocks(offset, p)` blocks or more holds `offset`. */
  lemma RequiredCovers(offset: nat, p: nat, n: nat)
    requires p > 0 && n >= RequiredBlocks(offset, p)
    ensures offset < n * p
  {
    var q := offset / p;
    assert offset == q * p + offset % p;
    MulStep(q, p);
    MulLe(q + 1, n, p);
  }

  /** `osfs_ensure_offset`: appends blocks until the file holds byte
      `offset`. The blocks appended before an allocator failure stay in the
      chain; the old bytes stay a prefix of the file's bytes either way. */
  method EnsureOffset(sb: SbInfo, ino: nat, offset: int, ghost chain: seq<nat>)
    returns (rc: Outcome, ghost chain': seq<nat>)
    requires FileChain(sb, ino, chain) && offset >= -1
    modifies sb, sb.blockBitmap, sb.dataBlocks, sb.inodeTable
    ensures FileChain(sb, ino, chain')
    ensures chain <= chain' && old(ChainBytes(sb.dataBlocks[..], chain)) <= ChainBytes(sb.dataBlocks[..], chain')
    ensures var required := RequiredBlocks(offset, sb.blockSize as nat - HEADER_SIZE);
      && (|chain| >= required ==> rc == Pass && chain' == chain)
      && (rc == Pass <==> |chain'| >= required)
      && (rc == Pass ==> |chain'| == Max(|chain|, required))
      && (rc != Pass ==> rc == Fail(ENOSPC) && FirstClear(sb.blockBitmap[..], 0).None?)
      && (rc == Pass <==> |chain| + FreeBits(old(sb.blockBitmap[..])) >= required)
      && (rc != Pass ==> |chain'| == |chain| + FreeBits(old(sb.blockBitmap[..])))
    ensures Grew(old(sb.blockBitmap[..]), sb.blockBitmap[..], old(sb.dataBlocks[..]), sb.dataBlocks[..], chain, chain')
    ensures rc == Pass && offset >= 0 ==> offset < |chain'| * (sb.blockSize as nat - HEADER_SIZE)
    ensures |chain| >= RequiredBlocks(offset, sb.blockSize as nat - HEADER_SIZE) ==>
      unchanged(sb, sb.blockBitmap, sb.dataBlocks, sb.inodeTable)
    ensures sb.inodeTable[ino] == old(sb.inodeTable[ino]).(data := sb.inodeTable[ino].data,
                                                          blocks := sb.inodeTable[ino].blocks)
    ensures forall j | 0 <= j < sb.inodeTable.Length && j != ino :: sb.inodeTable[j] == old(sb.inodeTable[j])
    ensures sb.nrFreeInodes == old(sb.nrFreeInodes)
    ensures old(sb.CountsConsistent()) ==> sb.CountsConsistent()
  {
    var p: nat := sb.blockSize as nat - HEADER_SIZE;
    var required := CDiv(offset, p) + 1;
    chain' := chain;
    if sb.inodeTable[ino].blocks as int >= required {
      if offset >= 0 {
        RequiredCovers(offset, p, |chain'|);
      }
      GrewNothing(sb.blockBitmap[..], sb.dataBlocks[..], chain);
      return Pass, chain';
    }
    rc, chain' := AppendBlocks(sb, ino, required - sb.inodeTable[ino].blocks as int, chain);
    if rc != Pass {
      return;
    }
    if offset >= 0 {
      RequiredCovers(offset, p, |chain'|);
      assert offset < |chain'| * p;
    }
    return Pass, chain';
  }

  /** The loop of `osfs_ensure_offset`: appends `add` blocks, stopping at the
      first allocator failure. */
  method AppendBlocks(sb: SbInfo, ino: nat, add: nat, ghost chain: seq<nat>)
    returns (rc: Outcome, ghost chain': seq<nat>)
    requires FileChain(sb, ino, chain)
    modifies sb, sb.blockBitmap, sb.dataBlocks, sb.inodeTable
    ensures FileChain(sb, ino, chain')
    ensures chain <= chain' && old(ChainBytes(sb.dataBlocks[..], chain)) <= ChainBytes(sb.dataBlocks[..], chain')
    ensures rc == Pass ==> |chain'| == |chain| + add
    ensures rc != Pass ==> && rc == Fail(ENOSPC) && |chain'| < |chain| + add
                           && FirstClear(sb.blockBitmap[..], 0).None?
    ensures rc == Pass <==> add <= FreeBits(old(sb.blockBitmap[..]))
    ensures rc != Pass ==> |chain'| == |chain| + FreeBits(old(sb.blockBitmap[..]))
    ensures Grew(old(sb.blockBitmap[..]), sb.blockBitmap[..], old(sb.dataBlocks[..]), sb.dataBlocks[..], chain, chain')
    ensures sb.inodeTable[ino] == old(sb.inodeTable[ino]).(data := sb.inodeTable[ino].data,
                                                          blocks := sb.inodeTable[ino].blocks)
    ensures forall j | 0 <= j < sb.inodeTable.Length && j != ino :: sb.inodeTable[j] == old(sb.inodeTable[j])
    ensures sb.nrFreeInodes == old(sb.nrFreeInodes)
    ensures old(sb.CountsConsistent()) ==> sb.CountsConsistent()
  {
    ghost var bits0, blocks0, table0 := sb.blockBitmap[..], sb.dataBlocks[..], sb.inodeTable[..];
    ghost var bytes0, counted := ChainBytes(blocks0, chain), sb.CountsConsistent();
    var left := add;
    chain' := chain;
    GrewNothing(bits0, blocks0, chain);
    while left > 0
      invariant FileChain(sb, ino, chain')
      invariant |chain'| + left == |chain| + add
      invariant chain <= chain' && bytes0 <= ChainBytes(sb.dataBlocks[..], chain')
      invariant sb.inodeTable[ino] == table0[ino].(data := sb.inodeTable[ino].data,
                                                    blocks := sb.inodeTable[ino].blocks)
      invariant forall j | 0 <= j < sb.inodeTable.Length && j != ino :: sb.inodeTable[j] == table0[j]
      invariant sb.nrFreeInodes == old(sb.nrFreeInodes)
      invariant counted ==> sb.CountsConsistent()
      invariant Grew(bits0, sb.blockBitmap[..], blocks0, sb.dataBlocks[..], chain, chain')
      invariant FreeBits(sb.blockBitmap[..]) + |chain'| == FreeBits(bits0) + |chain|
    {
      ghost var bits1, blocks1, c1 := sb.blockBitmap[..], sb.dataBlocks[..], chain';
      var r;
      r, chain' := AppendBlock(sb, ino, chain');
      GrewTwice(bits0, bits1, sb.blockBitmap[..], blocks0, blocks1, sb.dataBlocks[..], chain, c1, chain');
      if r.Err? {
        NoClearBitMeansFull(sb.blockBitmap[..]);
        return Fail(r.error), chain';
      }
      left := left - 1;
    }
    return Pass, chain';
  }


}
