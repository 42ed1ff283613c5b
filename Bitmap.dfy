/** The inode and block bitmaps, as the sequence of their bits: how many are
    set, and where the first clear one at or after a position is — the two
    questions the allocators of `inode.c` ask of them. */
module Bitmap {
  import opened Types

  /** The number of set bits. */
  function Popcount(s: seq<bool>): (n: nat)
    ensures n <= |s|
  {
    if |s| == 0 then 0 else (if s[0] then 1 else 0) + Popcount(s[1..])
  }

  function Bit(b: bool): nat { if b then 1 else 0 }

  /** Writing one bit changes the count by what that bit contributed. */
  lemma {:induction false} PopcountUpdate(s: seq<bool>, i: nat, v: bool)
    requires i < |s|
    ensures Popcount(s[i := v]) + Bit(s[i]) == Popcount(s) + Bit(v)
    decreases i
  {
    if i == 0 {
      assert s[i := v][1..] == s[1..];
    } else {
      assert s[i := v][1..] == s[1..][i - 1 := v];
      PopcountUpdate(s[1..], i - 1, v);
    }
  }

  /** No bit is set exactly when the count is 0. */
  lemma {:induction false} PopcountZero(s: seq<bool>)
    ensures Popcount(s) == 0 <==> forall i | 0 <= i < |s| :: !s[i]
  {
    if |s| > 0 {
      PopcountZero(s[1..]);
      assert forall i | 1 <= i < |s| :: s[i] == s[1..][i - 1];
    }
  }

  /** Every bit is set exactly when the count is the length. */
  lemma {:induction false} PopcountFull(s: seq<bool>)
    ensures Popcount(s) == |s| <==> forall i | 0 <= i < |s| :: s[i]
  {
    if |s| > 0 {
      PopcountFull(s[1..]);
      assert forall i | 1 <= i < |s| :: s[i] == s[1..][i - 1];
    }
  }

  /** The lowest index `>= from` whose bit is clear, if any: what a `for`
      loop calling `test_bit` from `from` upwards stops at. */
  function FirstClear(s: seq<bool>, from: nat): (r: Option<nat>)
    ensures r.Some? ==> from <= r.value < |s| && !s[r.value]
    ensures r.Some? ==> forall j | from <= j < r.value :: s[j]
    ensures r.None? <==> forall j | from <= j < |s| :: s[j]
    decreases |s| - from
  {
    if from >= |s| then None
    else if !s[from] then Some(from)
    else FirstClear(s, from + 1)
  }

  /** A bitmap with no clear bit from position 0 is full. */
  lemma NoClearBitMeansFull(s: seq<bool>)
    requires FirstClear(s, 0).None?
    ensures Popcount(s) == |s|
  {
    PopcountFull(s);
  }

  /** The number of clear bits: what a bitmap still has to hand out. */
  function FreeBits(s: seq<bool>): nat {
    |s| - Popcount(s)
  }

  /** A first clear bit exists exactly when some bit is free, and setting
      it leaves one fewer. */
  lemma FreeBitsFirstClear(s: seq<bool>)
    ensures FirstClear(s, 0).None? <==> FreeBits(s) == 0
    ensures FirstClear(s, 0).Some? ==> FreeBits(s[FirstClear(s, 0).value := true]) == FreeBits(s) - 1
  {
    PopcountFull(s);
    if FirstClear(s, 0).Some? {
      PopcountUpdate(s, FirstClear(s, 0).value, true);
    }
  }
}
