/** Bytes, 16-byte blocks and the bytewise XOR that EliMAC folds with,
    together with the size constants of the construction. */
module Blocks {

  /** Size constants of the construction (src/headers/elimac.h). */
  const BLOCK_SIZE: nat := 16
  const KEY_SIZE: nat := 16
  const MAX_BLOCKS: nat := 0x1_0000_0000

  /** The values of a C `uint32_t`. */
  type U32 = x: int | 0 <= x < 0x1_0000_0000

  /** One AES block (and one AES-128 key): exactly 16 bytes. */
  type Block = s: seq<bv8> | |s| == 16 witness [0, 0, 0, 0, 0, 0, 0, 0, 0, 0, 0, 0, 0, 0, 0, 0]

  /** The all-zero block, the initial accumulator of Elihash. */
  function Zero(): Block {
    seq(16, _ => 0)
  }

  /** Bytewise XOR of two blocks. */
  function Xor(a: Block, b: Block): Block {
    seq(16, i requires 0 <= i < 16 => a[i] ^ b[i])
  }

  /** The block that starts at byte `16 * i` of a buffer. */
  function BlockAt(buf: seq<bv8>, i: nat): Block
    requires 16 * (i + 1) <= |buf|
  {
    buf[16 * i .. 16 * (i + 1)]
  }

  lemma XorZero(a: Block)
    ensures Xor(a, Zero()) == a && Xor(Zero(), a) == a
  {
  }

  lemma XorAssoc(a: Block, b: Block, c: Block)
    ensures Xor(Xor(a, b), c) == Xor(a, Xor(b, c))
  {
  }

  /** XOR of a whole sequence of blocks, the empty XOR being Zero(). */
  function XorAll(parts: seq<Block>): Block {
    if parts == [] then Zero() else Xor(parts[0], XorAll(parts[1..]))
  }

  /** XOR over a concatenation splits at the seam. */
  lemma {:induction false} XorAllConcat(a: seq<Block>, b: seq<Block>)
    ensures XorAll(a + b) == Xor(XorAll(a), XorAll(b))
    decreases |a|
  {
    if a == [] {
      assert a + b == b;
      XorZero(XorAll(b));
    } else {
      assert (a + b)[1..] == a[1..] + b;
      XorAllConcat(a[1..], b);
      XorAssoc(a[0], XorAll(a[1..]), XorAll(b));
    }
  }

  /** XOR-ing x in front commutes with XOR-ing a in front. */
  lemma XorSwap(a: Block, x: Block, r: Block)
    ensures Xor(a, Xor(x, r)) == Xor(x, Xor(a, r))
  {
  }

  /** Taking one part out of the XOR and XOR-ing it in front. */
  lemma XorAllRemove(b: seq<Block>, k: nat)
    requires k < |b|
    ensures XorAll(b) == Xor(b[k], XorAll(b[..k] + b[k + 1..]))
  {
    var x, left, right := b[k], b[..k], b[k + 1..];
    assert b == left + b[k..];
    assert b[k..][1..] == right;
    XorAllConcat(left, b[k..]);
    XorAllConcat(left, right);
    XorSwap(XorAll(left), x, XorAll(right));
  }

  /** Removing the element at index k removes one occurrence of it. */
  lemma MultisetRemove(b: seq<Block>, k: nat)
    requires k < |b|
    ensures multiset(b[..k] + b[k + 1..]) == multiset(b) - multiset{b[k]}
  {
    assert b == b[..k] + [b[k]] + b[k + 1..];
  }

  /** XOR over a sequence of blocks does not depend on their order: any
      permutation of the parts has the same XOR. This is what makes the
      order in which workers merge their partial states irrelevant. */
  lemma {:induction false} XorAllPermutation(a: seq<Block>, b: seq<Block>)
    requires multiset(a) == multiset(b)
    ensures XorAll(a) == XorAll(b)
    decreases |a|
  {
    if a == [] {
      assert |b| == |multiset(b)| == 0;
    } else {
      var x := a[0];
      assert x in multiset(b);
      var k :| 0 <= k < |b| && b[k] == x;
      var rest := b[..k] + b[k + 1..];
      assert multiset(a[1..]) == multiset(a) - multiset{x} by {
        MultisetRemove(a, 0);
        assert a[..0] + a[1..] == a[1..];
      }
      assert multiset(rest) == multiset(b) - multiset{x} by {
        MultisetRemove(b, k);
      }
      XorAllPermutation(a[1..], rest);
      XorAllRemove(b, k);
    }
  }

  /** XOR of parts lo .. hi-1, accumulated in increasing order from the
      zero block, as a loop `acc ^= parts[j]` does. */
  function XorRange(parts: seq<Block>, lo: nat, hi: nat): Block
    requires lo <= hi <= |parts|
    decreases hi
  {
    if lo == hi then Zero() else Xor(XorRange(parts, lo, hi - 1), parts[hi - 1])
  }

  /** The XOR over [lo, hi) splits at any mid point. */
  lemma {:induction false} XorRangeSplit(parts: seq<Block>, lo: nat, mid: nat, hi: nat)
    requires lo <= mid <= hi <= |parts|
    ensures XorRange(parts, lo, hi) == Xor(XorRange(parts, lo, mid), XorRange(parts, mid, hi))
    decreases hi
  {
    if mid == hi {
      XorZero(XorRange(parts, lo, mid));
    } else {
      XorRangeSplit(parts, lo, mid, hi - 1);
      XorAssoc(XorRange(parts, lo, mid), XorRange(parts, mid, hi - 1), parts[hi - 1]);
    }
  }

  /** The XOR over [lo, hi) depends only on the parts in that range. */
  lemma {:induction false} XorRangeLocal(a: seq<Block>, b: seq<Block>, lo: nat, hi: nat)
    requires lo <= hi <= |a| && hi <= |b|
    requires forall j :: lo <= j < hi ==> a[j] == b[j]
    ensures XorRange(a, lo, hi) == XorRange(b, lo, hi)
    decreases hi
  {
    if lo < hi {
      XorRangeLocal(a, b, lo, hi - 1);
    }
  }

  /** A slice of a prefix is the same slice of the whole. */
  lemma SliceOfPrefix<T>(s: seq<T>, n: nat, lo: nat, hi: nat)
    requires lo <= hi <= n <= |s|
    ensures s[..n][lo..hi] == s[lo..hi]
  {
  }

  /** The bytes of a sequence of blocks laid end to end. */
  function Flatten(bs: seq<Block>): (r: seq<bv8>)
    ensures |r| == 16 * |bs|
  {
    if bs == [] then [] else Flatten(bs[..|bs| - 1]) + bs[|bs| - 1]
  }

  /** The first k blocks of a flattened sequence are the flattened first
      k blocks. */
  lemma {:induction false} FlattenPrefix(bs: seq<Block>, k: nat)
    requires k <= |bs|
    ensures Flatten(bs)[..16 * k] == Flatten(bs[..k])
    decreases |bs|
  {
    if k < |bs| {
      var front := bs[..|bs| - 1];
      FlattenPrefix(front, k);
      assert front[..k] == bs[..k];
      assert Flatten(bs)[..16 * k] == Flatten(front)[..16 * k];
    } else {
      assert bs[..k] == bs;
    }
  }

  /** Block k sits at bytes 16k .. 16k+15 of the flattened sequence. */
  lemma FlattenEntry(bs: seq<Block>, k: nat)
    requires k < |bs|
    ensures Flatten(bs)[16 * k .. 16 * k + 16] == bs[k]
  {
    FlattenPrefix(bs, k + 1);
    var pre := bs[..k + 1];
    assert pre[..k] == bs[..k];
    assert Flatten(bs)[16 * k .. 16 * k + 16] == Flatten(pre)[16 * k ..];
  }

  /** Writing block k - 1 of `bs` at bytes 16(k-1) .. 16k of a buffer whose
      first k - 1 blocks already hold bs[..k-1] extends that prefix by one
      block and keeps every byte after it. */
  lemma StoreNext(bs: seq<Block>, orig: seq<bv8>, before: seq<bv8>, after: seq<bv8>, k: nat)
    requires 1 <= k <= |bs| && 16 * k <= |before| == |after| == |orig|
    requires before[..16 * (k - 1)] == Flatten(bs[..k - 1])
    requires before[16 * (k - 1)..] == orig[16 * (k - 1)..]
    requires after[16 * (k - 1) .. 16 * k] == bs[k - 1]
    requires forall m :: 0 <= m < 16 * (k - 1) ==> after[m] == before[m]
    requires forall m :: 16 * k <= m < |after| ==> after[m] == before[m]
    ensures after[..16 * k] == Flatten(bs[..k])
    ensures after[16 * k..] == orig[16 * k..]
  {
    assert bs[..k][..k - 1] == bs[..k - 1];
    assert after[..16 * k] == after[..16 * (k - 1)] + after[16 * (k - 1) .. 16 * k];
    assert after[..16 * (k - 1)] == before[..16 * (k - 1)];
    forall m | 16 * k <= m < |after|
      ensures after[m] == orig[m]
    {
      assert before[m] == before[16 * (k - 1)..][m - 16 * (k - 1)];
    }
  }
}
